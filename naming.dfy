/** The rule that names the copy of a declaring block when it is duplicated:
    the name is matched against the regular expression `(.+)(\d+)` with
    JavaScript's `exec`, and the copy is called `group1 + (group2 + 1)`, or
    the old name with `2` appended when there is no match. */
module Naming {

  import opened Wrappers
  import TextUtils

  /** The characters JavaScript's `.` does not match. */
  predicate LineTerminator(c: char)
  {
    c == '\n' || c == '\r' || c == '\U{2028}' || c == '\U{2029}'
  }

  predicate IsDigit(c: char)
  {
    '0' <= c <= '9'
  }

  /** `(.+)(\d+)` can match with `.+` covering `name[s..p]` and `\d+`
      starting at `p`. */
  ghost predicate Matches(name: string, s: int, p: int)
  {
    0 <= s < p < |name| && IsDigit(name[p]) &&
    forall i :: s <= i < p ==> !LineTerminator(name[i])
  }

  /** Scans the line that starts at `s`, from `i` on, for the last digit
      after `s`; `best` is the last one before `i`. */
  function LastDigit(name: string, s: nat, i: nat, best: Option<nat>): (r: Option<nat>)
    requires s < i <= |name|
    requires forall j :: s <= j < i ==> !LineTerminator(name[j])
    requires best.Some? ==> s < best.value < i && IsDigit(name[best.value])
    requires forall j :: (if best.Some? then best.value else s) < j < i ==> !IsDigit(name[j])
    ensures r.None? <==> forall p :: !Matches(name, s, p)
    ensures r.Some? ==> Matches(name, s, r.value) && forall p :: r.value < p ==> !Matches(name, s, p)
    decreases |name| - i
  {
    if i == |name| || LineTerminator(name[i]) then
      // A digit after the line's end would need `.` to match a terminator.
      assert forall p :: i <= p ==> !Matches(name, s, p);
      assert best.Some? ==> Matches(name, s, best.value);
      assert forall p :: Matches(name, s, p) ==> best.Some? && p <= best.value by {
        forall p | Matches(name, s, p) ensures best.Some? && p <= best.value {
          assert p < i && IsDigit(name[p]);
        }
      }
      best
    else
      LastDigit(name, s, i + 1, if IsDigit(name[i]) then Some(i) else best)
  }

  /** The match attempt at start `s`: greedy `.+` backs off to the last
      digit of the line that is not at `s` itself. */
  function MatchAt(name: string, s: nat): (r: Option<nat>)
    requires s < |name|
    ensures r.None? <==> forall p :: !Matches(name, s, p)
    ensures r.Some? ==> Matches(name, s, r.value) && forall p :: r.value < p ==> !Matches(name, s, p)
  {
    if LineTerminator(name[s]) then
      None
    else
      LastDigit(name, s, s + 1, None)
  }

  /** `exec` from position `s` on: the leftmost start that matches, with the
      greedy split point there. */
  function Exec(name: string, s: nat): (r: Option<(nat, nat)>)
    ensures r.None? <==> forall a, p :: s <= a ==> !Matches(name, a, p)
    ensures r.Some? ==> s <= r.value.0 && Matches(name, r.value.0, r.value.1)
    ensures r.Some? ==> forall a, p :: s <= a < r.value.0 ==> !Matches(name, a, p)
    ensures r.Some? ==> forall p :: r.value.1 < p ==> !Matches(name, r.value.0, p)
    decreases |name| - s
  {
    if s >= |name| then None
    else match MatchAt(name, s)
      case Some(p) => Some((s, p))
      case None => Exec(name, s + 1)
  }

  /** The name of the copy made by `duplicate`. */
  function DuplicateName(name: string): (r: string)
    ensures Exec(name, 0).None? ==> r == name + "2"
    ensures Exec(name, 0).Some? ==>
      var (s, p) := Exec(name, 0).value;
      r == name[s..p] + TextUtils.NatToString(name[p] as int - '0' as int + 1)
  {
    match Exec(name, 0)
    case None => name + "2"
    case Some((s, p)) => name[s..p] + TextUtils.NatToString(name[p] as int - '0' as int + 1)
  }

  /** A one-line name with no digit after its first character gets `2`
      appended. */
  lemma OneLineNoDigit(name: string)
    requires forall i :: 0 <= i < |name| ==> !LineTerminator(name[i])
    requires forall k :: 1 <= k < |name| ==> !IsDigit(name[k])
    ensures DuplicateName(name) == name + "2"
  {
    assert forall a, p :: !Matches(name, a, p);
  }

  /** In a one-line name whose last digit after the first character is at
      `k`, the copy keeps what precedes `k`, writes the digit plus one in its
      place and drops the rest. */
  lemma OneLineLastDigit(name: string, k: nat)
    requires forall i :: 0 <= i < |name| ==> !LineTerminator(name[i])
    requires 1 <= k < |name| && IsDigit(name[k])
    requires forall j :: k < j < |name| ==> !IsDigit(name[j])
    ensures DuplicateName(name) == name[..k] + TextUtils.NatToString(name[k] as int - '0' as int + 1)
  {
    assert Matches(name, 0, k);
    var (s, p) := Exec(name, 0).value;
    assert s == 0;
    assert IsDigit(name[p]);
    assert p == k;
  }

  /** The renamings the editor shows: `var_name` to `var_name2`, `v9` to
      `v10` and `v19` to `v110`. */
  lemma RenameExamples()
    ensures DuplicateName("var_name") == "var_name2"
    ensures DuplicateName("v9") == "v10"
    ensures DuplicateName("v19") == "v110"
  {
    OneLineNoDigit("var_name");
    RenameNine();
    RenameNineteen();
  }

  /** `v9`: the digit 9 is replaced by 10. */
  lemma RenameNine()
    ensures DuplicateName("v9") == "v10"
  {
    assert TextUtils.NatToString(10) == "10";
    OneLineLastDigit("v9", 1);
    assert "v9"[..1] == "v";
  }

  /** `v19`: only the last digit counts, so 9 becomes 10 after `v1`. */
  lemma RenameNineteen()
    ensures DuplicateName("v19") == "v110"
  {
    assert TextUtils.NatToString(10) == "10";
    OneLineLastDigit("v19", 2);
    assert "v19"[..2] == "v1";
  }

  /** A name that is a single digit has no digit after its first character,
      so `9` becomes `92` and `i` becomes `i2`. */
  lemma SingleCharacterRename(c: char)
    requires !LineTerminator(c)
    ensures DuplicateName([c]) == [c] + "2"
  {
    OneLineNoDigit([c]);
  }

  /** A name whose first line holds no digit after its first character but
      whose later line does is renamed from that later line alone: the
      leftmost match may start after the beginning. */
  lemma LaterLineRename()
    ensures DuplicateName("a\nb1") == "b2"
  {
    var name := "a\nb1";
    assert name[1] == '\n' && LineTerminator(name[1]);
    assert forall p :: !Matches(name, 0, p);
    assert forall p :: !Matches(name, 1, p);
    assert Matches(name, 2, 3);
    assert Exec("a\nb1", 0) == Some((2, 3));
    assert "a\nb1"[2..3] == "b";
  }
}
