/** `GradientBuilder`: a list of colour checkpoints kept in ascending order
    of offset, grown one checkpoint at a time, and handed (not copied) to
    the gradient it builds. */
module Gradients {

  import opened Wrappers

  datatype Checkpoint = Checkpoint(color: string, offset: real)

  /** Ascending by offset. */
  ghost predicate Sorted(s: seq<Checkpoint>)
  {
    forall i, j | 0 <= i < j < |s| :: s[i].offset <= s[j].offset
  }

  /** `t` is `s` with `x` placed where a stable sort of `s + [x]` puts it
      when `s` is sorted: after every checkpoint whose offset is not larger,
      before every one whose offset is. */
  ghost predicate InsertedStably(s: seq<Checkpoint>, x: Checkpoint, t: seq<Checkpoint>)
  {
    exists j | 0 <= j <= |s| ::
      t == s[..j] + [x] + s[j..] &&
      (forall i | 0 <= i < j :: s[i].offset <= x.offset) &&
      (forall i | j <= i < |s| :: x.offset < s[i].offset)
  }

  /** A stable insertion into a sorted list keeps it sorted and adds
      exactly the new checkpoint. */
  lemma InsertedStablySorted(s: seq<Checkpoint>, x: Checkpoint, t: seq<Checkpoint>)
    requires Sorted(s) && InsertedStably(s, x, t)
    ensures Sorted(t) && |t| == |s| + 1
    ensures multiset(t) == multiset(s) + multiset{x}
  {
    var j :| 0 <= j <= |s| && t == s[..j] + [x] + s[j..] &&
      (forall i | 0 <= i < j :: s[i].offset <= x.offset) &&
      (forall i | j <= i < |s| :: x.offset < s[i].offset);
    InsertAtSorted(s, x, j);
  }

  lemma InsertAtSorted(s: seq<Checkpoint>, x: Checkpoint, j: nat)
    requires Sorted(s) && j <= |s|
    requires forall i | 0 <= i < j :: s[i].offset <= x.offset
    requires forall i | j <= i < |s| :: x.offset < s[i].offset
    ensures Sorted(s[..j] + [x] + s[j..])
    ensures multiset(s[..j] + [x] + s[j..]) == multiset(s) + multiset{x}
  {
    var t := s[..j] + [x] + s[j..];
    assert forall i | 0 <= i < j :: t[i] == s[i];
    assert t[j] == x;
    assert forall i | j < i < |t| :: t[i] == s[i - 1];
    assert s == s[..j] + s[j..];
  }

  /** One step of the sort: swapping the new checkpoint with the one below
      it moves it down one place. */
  lemma SwapDown(s: seq<Checkpoint>, x: Checkpoint, j: nat)
    requires 0 < j <= |s|
    ensures (s[..j] + [x] + s[j..])[j - 1 := x][j := s[j - 1]] == s[..j - 1] + [x] + s[j - 1..]
  {
    var t := (s[..j] + [x] + s[j..])[j - 1 := x][j := s[j - 1]];
    var u := s[..j - 1] + [x] + s[j - 1..];
    assert |t| == |u|;
    forall i | 0 <= i < |t|
      ensures t[i] == u[i]
    {
      if i < j - 1 {
      } else if i == j - 1 {
      } else if i == j {
      } else {
        assert t[i] == s[i - 1];
      }
    }
  }

  /** The last checkpoint of a sorted list has the highest offset. */
  lemma LastIsHighest(s: seq<Checkpoint>)
    requires Sorted(s) && |s| >= 1
    ensures forall i | 0 <= i < |s| :: s[i].offset <= s[|s| - 1].offset
  {
  }

  /** The `GradientCheckpoint[]` array, an object shared by the builder and
      the gradients it builds. */
  class CheckpointList {
    var items: seq<Checkpoint>

    constructor(items: seq<Checkpoint>)
      ensures this.items == items
    {
      this.items := items;
    }
  }

  /** `MovableGradient`: holds the list it was given. */
  class MovableGradient {
    const checkpoints: CheckpointList

    constructor(checkpoints: CheckpointList)
      ensures this.checkpoints == checkpoints
    {
      this.checkpoints := checkpoints;
    }
  }

  class GradientBuilder {
    const checkpoints: CheckpointList

    /** The list is never empty and is in ascending order of offset. */
    ghost predicate Valid()
      reads this, checkpoints
    {
      |checkpoints.items| >= 1 && Sorted(checkpoints.items)
    }

    /** A single checkpoint of the given colour at offset 0. */
    constructor(color: string)
      ensures fresh(checkpoints) && checkpoints.items == [Checkpoint(color, 0.0)]
      ensures Valid()
    {
      checkpoints := new CheckpointList([Checkpoint(color, 0.0)]);
    }

    /** `add`: pushes the checkpoint, taking the colour of the last
        checkpoint when none is given, and sorts the list in place by offset
        (JavaScript's sort is stable); returns the builder itself. */
    method Add(color: Option<string>, offset: real) returns (self: GradientBuilder)
      requires Valid()
      modifies checkpoints
      ensures self == this && Valid()
      ensures var x := Checkpoint(if color.None? then old(checkpoints.items)[|old(checkpoints.items)| - 1].color
                                  else color.value, offset);
        InsertedStably(old(checkpoints.items), x, checkpoints.items) &&
        |checkpoints.items| == |old(checkpoints.items)| + 1 &&
        multiset(checkpoints.items) == multiset(old(checkpoints.items)) + multiset{x}
    {
      ghost var s := checkpoints.items;
      var x := Checkpoint(if color.None? then checkpoints.items[|checkpoints.items| - 1].color else color.value, offset);
      checkpoints.items := checkpoints.items + [x];
      // The list before the push was sorted, so sorting moves only the new
      // checkpoint, down past every larger offset.
      var j := |checkpoints.items| - 1;
      while j > 0 && checkpoints.items[j - 1].offset > checkpoints.items[j].offset
        invariant 0 <= j <= |s|
        invariant checkpoints.items == s[..j] + [x] + s[j..]
        invariant forall i | j <= i < |s| :: x.offset < s[i].offset
        decreases j
      {
        assert checkpoints.items[j - 1] == s[j - 1] && checkpoints.items[j] == x;
        var below := checkpoints.items[j - 1];
        checkpoints.items := checkpoints.items[j - 1 := checkpoints.items[j]][j := below];
        SwapDown(s, x, j);
        j := j - 1;
      }
      assert forall i | 0 <= i < j :: s[i].offset <= x.offset by {
        if j > 0 {
          assert checkpoints.items[j - 1] == s[j - 1] && checkpoints.items[j] == x;
        }
      }
      InsertAtSorted(s, x, j);
      self := this;
    }

    /** `build`: a gradient over this very list, so checkpoints added later
        show in it too. */
    method Build() returns (g: MovableGradient)
      ensures fresh(g) && g.checkpoints == checkpoints
    {
      g := new MovableGradient(checkpoints);
    }
  }
}
