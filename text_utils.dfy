/** Line flattening with indentation (`indent`, `lns`) and the decimal text of
    integers, as JavaScript's template literals print them. */
module TextUtils {

  /** A `RecursiveStringArray`: strings and nested arrays of them. */
  datatype Part = Line(text: string) | Nested(parts: seq<Part>)

  /** `count` spaces. */
  function Spaces(count: nat): (s: string)
    ensures |s| == count
    ensures forall i :: 0 <= i < count ==> s[i] == ' '
  {
    seq(count, _ => ' ')
  }

  /** `indent(level)`: `level` copies of four spaces, joined. */
  function Indent(level: nat): string
  {
    if level == 0 then "" else "    " + Indent(level - 1)
  }

  /** `indent(level)` is `4 * level` spaces; in particular `indent(0)` is empty. */
  lemma {:induction false} IndentIsSpaces(level: nat)
    ensures Indent(level) == Spaces(4 * level)
  {
    if level > 0 {
      IndentIsSpaces(level - 1);
      assert Spaces(4 * level) == "    " + Spaces(4 * (level - 1));
    }
  }

  /** `lns(src, level)`: every leaf of `src` becomes one line; each call prefixes
      `indent(level)` to every line it returns, including those its nested calls
      already indented. */
  function Lns(src: seq<Part>, level: nat): seq<string>
    decreases src, 1
  {
    var flat := FlatParts(src, level);
    seq(|flat|, i requires 0 <= i < |flat| => Indent(level) + flat[i])
  }

  /** The `flatMap` step of `lns`: nested arrays are flattened by `lns(part, level + 1)`. */
  function FlatParts(src: seq<Part>, level: nat): seq<string>
    decreases src, 0
  {
    if src == [] then []
    else
      assert src[0] in src;
      var head := match src[0]
        case Line(s) => [s]
        case Nested(ps) => Lns(ps, level + 1);
      head + FlatParts(src[1..], level)
  }

  /** The leaves of `src` in left-to-right depth-first order, each with the
      number of arrays that enclose it below the top level. */
  function Leaves(src: seq<Part>): seq<(string, nat)>
    decreases src
  {
    if src == [] then []
    else
      assert src[0] in src;
      var head := match src[0]
        case Line(s) => [(s, 0)]
        case Nested(ps) => Deepen(Leaves(ps));
      head + Leaves(src[1..])
  }

  function Deepen(leaves: seq<(string, nat)>): (r: seq<(string, nat)>)
    ensures |r| == |leaves|
    ensures forall i :: 0 <= i < |r| ==> r[i] == (leaves[i].0, leaves[i].1 + 1)
  {
    seq(|leaves|, i requires 0 <= i < |leaves| => (leaves[i].0, leaves[i].1 + 1))
  }

  /** The width of the prefix a leaf nested `depth` arrays deep receives from
      `lns(_, level)`: every enclosing call adds its own indent. */
  function Pad(depth: nat, level: nat): nat
    decreases depth
  {
    if depth == 0 then 4 * level else 4 * level + Pad(depth - 1, level + 1)
  }

  /** At the top level the prefix of a leaf nested `d` arrays deep is `2 d (d + 1)`
      spaces: 0, 4, 12, 24, ... */
  lemma {:induction false} PadFromTopLevel(d: nat, level: nat)
    ensures Pad(d, level) == 4 * (d + 1) * level + 2 * d * (d + 1)
  {
    if d > 0 {
      PadFromTopLevel(d - 1, level + 1);
    }
  }

  /** The reference reading of `lns`: one line per leaf, in order, each being
      spaces followed by the leaf's own string. */
  function Expected(leaves: seq<(string, nat)>, level: nat): (r: seq<string>)
    ensures |r| == |leaves|
  {
    seq(|leaves|, i requires 0 <= i < |leaves| => Spaces(Pad(leaves[i].1, level)) + leaves[i].0)
  }

  /** `lns` emits exactly one line per leaf, in depth-first order, and a leaf
      nested `d` arrays deep is prefixed with `Pad(d, level)` spaces. */
  lemma {:induction false} LnsMatchesLeaves(src: seq<Part>, level: nat)
    ensures Lns(src, level) == Expected(Leaves(src), level)
    decreases src, 1
  {
    FlatPartsMatchesLeaves(src, level);
    IndentIsSpaces(level);
    var flat := FlatParts(src, level);
    var leaves := Leaves(src);
    var exp := Expected(leaves, level);
    forall i | 0 <= i < |flat|
      ensures Indent(level) + flat[i] == exp[i]
    {
      var d := leaves[i].1;
      SpacesConcat(4 * level, Pad(d, level) - 4 * level);
    }
  }

  lemma SpacesConcat(a: nat, b: nat)
    ensures Spaces(a) + Spaces(b) == Spaces(a + b)
  {
  }

  /** `flat` holds one line per leaf of `leaves`, each being the leaf's string
      behind the part of its prefix that the nested calls add below `level`. */
  ghost predicate Matches(flat: seq<string>, leaves: seq<(string, nat)>, level: nat)
  {
    |flat| == |leaves| &&
    forall i :: 0 <= i < |leaves| ==>
      Pad(leaves[i].1, level) >= 4 * level &&
      flat[i] == Spaces(Pad(leaves[i].1, level) - 4 * level) + leaves[i].0
  }

  lemma MatchesConcat(f1: seq<string>, l1: seq<(string, nat)>, f2: seq<string>, l2: seq<(string, nat)>, level: nat)
    requires Matches(f1, l1, level) && Matches(f2, l2, level)
    ensures Matches(f1 + f2, l1 + l2, level)
  {
    forall i | |l1| <= i < |l1| + |l2|
      ensures (f1 + f2)[i] == f2[i - |l1|] && (l1 + l2)[i] == l2[i - |l1|]
    {
    }
  }

  /** A nested array: the lines `lns(ps, level + 1)` returns match its
      leaves, one level deeper. */
  lemma NestedMatches(ps: seq<Part>, level: nat)
    requires Lns(ps, level + 1) == Expected(Leaves(ps), level + 1)
    ensures Matches(Lns(ps, level + 1), Deepen(Leaves(ps)), level)
  {
    var inner := Leaves(ps);
    var deeper := Deepen(inner);
    forall i | 0 <= i < |inner|
      ensures Pad(deeper[i].1, level) >= 4 * level
      ensures Lns(ps, level + 1)[i] == Spaces(Pad(deeper[i].1, level) - 4 * level) + deeper[i].0
    {
      PadAtLeast(inner[i].1, level + 1);
      assert Pad(deeper[i].1, level) == 4 * level + Pad(inner[i].1, level + 1);
    }
  }

  /** The flattening step before the outer prefix: one line per leaf, with
      the prefix the nested calls have already added. */
  lemma {:induction false} FlatPartsMatchesLeaves(src: seq<Part>, level: nat)
    ensures Matches(FlatParts(src, level), Leaves(src), level)
    decreases src, 0
  {
    if src != [] {
      assert src[0] in src;
      FlatPartsMatchesLeaves(src[1..], level);
      match src[0]
      case Line(s) =>
        assert Spaces(0) + s == s;
        assert Matches([s], [(s, 0)], level);
        MatchesConcat([s], [(s, 0)], FlatParts(src[1..], level), Leaves(src[1..]), level);
      case Nested(ps) =>
        LnsMatchesLeaves(ps, level + 1);
        NestedMatches(ps, level);
        MatchesConcat(Lns(ps, level + 1), Deepen(Leaves(ps)), FlatParts(src[1..], level), Leaves(src[1..]), level);
    }
  }

  lemma {:induction false} PadAtLeast(depth: nat, level: nat)
    ensures Pad(depth, level) >= 4 * level
  {
    if depth > 0 {
      PadAtLeast(depth - 1, level + 1);
    }
  }

  /** A top-level string of `lns(src, level)` gets exactly the `indent(level)`
      prefix. */
  lemma TopLevelLine(s: string, level: nat)
    ensures Lns([Line(s)], level) == [Indent(level) + s]
  {
    assert FlatParts([Line(s)], level) == [s] + FlatParts([], level);
  }

  /** A string one array deep in `lns(src, 0)` gains four spaces. */
  lemma NestedOnceLine(s: string)
    ensures Lns([Nested([Line(s)])], 0) == ["    " + s]
  {
    TopLevelLine(s, 1);
    assert Indent(0) == "";
    assert Indent(1) == "    " + Indent(0) == "    ";
    assert FlatParts([], 0) == [];
    var src := [Nested([Line(s)])];
    assert src[0] == Nested([Line(s)]) && src[1..] == [];
    var flat := FlatParts(src, 0);
    assert flat == Lns([Line(s)], 1) + FlatParts([], 0);
    assert flat == ["    " + s];
    assert Indent(0) == "";
    var lines := Lns(src, 0);
    assert |lines| == 1;
    assert lines[0] == Indent(0) + flat[0] == "    " + s;
  }

  /** A flat `string[]` spread into a `RecursiveStringArray`. */
  function Lines(ls: seq<string>): (r: seq<Part>)
    ensures |r| == |ls| && forall i :: 0 <= i < |ls| ==> r[i] == Line(ls[i])
  {
    seq(|ls|, i requires 0 <= i < |ls| => Line(ls[i]))
  }

  /** Every line of `ls` prefixed with four spaces. */
  function IndentOnce(ls: seq<string>): (r: seq<string>)
    ensures |r| == |ls| && forall i :: 0 <= i < |ls| ==> r[i] == "    " + ls[i]
  {
    seq(|ls|, i requires 0 <= i < |ls| => "    " + ls[i])
  }

  lemma {:induction false} FlatPartsAppend(a: seq<Part>, b: seq<Part>, level: nat)
    ensures FlatParts(a + b, level) == FlatParts(a, level) + FlatParts(b, level)
    decreases a
  {
    if a == [] {
      assert a + b == b;
    } else {
      assert (a + b)[0] == a[0] && (a + b)[1..] == a[1..] + b;
      FlatPartsAppend(a[1..], b, level);
    }
  }

  /** Flattening plain lines leaves them as they are. */
  lemma {:induction false} FlatPartsOfLines(ls: seq<string>, level: nat)
    ensures FlatParts(Lines(ls), level) == ls
    decreases ls
  {
    if ls != [] {
      assert Lines(ls)[1..] == Lines(ls[1..]);
      FlatPartsOfLines(ls[1..], level);
    }
  }

  /** `lns(['head', body, 'foot', ...tail])` with flat `body` and `tail`: the
      body is indented once and the rest is left as it is. */
  lemma BlockLines(head: string, body: seq<string>, foot: string, tail: seq<string>)
    ensures Lns([Line(head), Nested(Lines(body)), Line(foot)] + Lines(tail), 0) ==
      [head] + IndentOnce(body) + [foot] + tail
  {
    var src := [Line(head), Nested(Lines(body)), Line(foot)] + Lines(tail);
    FlatPartsAppend([Line(head), Nested(Lines(body)), Line(foot)], Lines(tail), 0);
    FlatPartsOfLines(tail, 0);
    FlatPartsOfLines(body, 1);
    var three := [Line(head), Nested(Lines(body)), Line(foot)];
    assert three[1..] == [Nested(Lines(body)), Line(foot)];
    assert three[1..][1..] == [Line(foot)];
    assert FlatParts([Line(foot)], 0) == [foot] + FlatParts([], 0);
    assert Indent(1) == "    ";
    assert Lns(Lines(body), 1) == IndentOnce(body);
    assert FlatParts(three, 0) == [head] + IndentOnce(body) + [foot];
    assert Indent(0) == "";
    var flat := FlatParts(src, 0);
    assert forall i :: 0 <= i < |flat| ==> Indent(0) + flat[i] == flat[i];
    assert Lns(src, 0) == flat;
  }

  // ---------------------------------------------------------------------
  // decimal text of integers (`${n}` for an integral JavaScript number)

  function DigitChar(d: nat): (c: char)
    requires d < 10
    ensures '0' <= c <= '9' && c as int - '0' as int == d
  {
    ('0' as int + d) as char
  }

  function NatToString(n: nat): (s: string)
    ensures |s| >= 1
    ensures forall i :: 0 <= i < |s| ==> '0' <= s[i] <= '9'
    decreases n
  {
    if n < 10 then [DigitChar(n)] else NatToString(n / 10) + [DigitChar(n % 10)]
  }

  /** `${n}`: a minus sign for negative numbers, then the decimal digits. */
  function IntToString(n: int): (s: string)
  {
    if n < 0 then "-" + NatToString(-n) else NatToString(n)
  }

  /** The value of a string of decimal digits. */
  function DigitsValue(s: string): nat
    requires forall i :: 0 <= i < |s| ==> '0' <= s[i] <= '9'
  {
    if s == [] then 0 else 10 * DigitsValue(s[..|s| - 1]) + (s[|s| - 1] as int - '0' as int)
  }

  /** The value of a decimal numeral with an optional leading `-`, which
      negates the digits after it. */
  function ParseInt(s: string): int
    requires |s| >= 1
    requires forall i :: (if s[0] == '-' then 1 else 0) <= i < |s| ==> '0' <= s[i] <= '9'
  {
    if s[0] == '-' then -(DigitsValue(s[1..]) as int) else DigitsValue(s)
  }

  lemma {:induction false} NatToStringValue(n: nat)
    ensures DigitsValue(NatToString(n)) == n
    decreases n
  {
    if n >= 10 {
      NatToStringValue(n / 10);
      var s := NatToString(n);
      assert s[..|s| - 1] == NatToString(n / 10);
    }
  }

  /** Reading the printed text back gives the number: printing loses nothing. */
  lemma IntToStringRoundTrip(n: int)
    ensures var s := IntToString(n);
      |s| >= 1 &&
      (forall i :: (if s[0] == '-' then 1 else 0) <= i < |s| ==> '0' <= s[i] <= '9') &&
      ParseInt(s) == n
  {
    var s := IntToString(n);
    if n < 0 {
      NatToStringValue(-n);
      assert s[1..] == NatToString(-n);
    } else {
      NatToStringValue(n);
    }
  }
}
