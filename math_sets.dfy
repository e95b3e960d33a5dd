/** The analyzer's set algebra: universal, empty, intersection, union,
    expression, value and interval sets, with `eq`, `finite`, `enumerate` and
    `cross`. */
module MathSets {

  import opened Wrappers
  import opened MathExpr

  /** A JavaScript number used as an interval bound: an integer or `±Infinity`. */
  datatype ExtInt = NegInf | Fin(n: int) | PosInf

  /** `a < b` on bounds. */
  predicate Below(a: ExtInt, b: ExtInt)
  {
    match (a, b)
    case (NegInf, NegInf) => false
    case (NegInf, _) => true
    case (Fin(x), Fin(y)) => x < y
    case (Fin(_), PosInf) => true
    case _ => false
  }

  /** The `ValExpr` payload holding a bound. */
  function BoundPayload<S>(x: ExtInt): (p: Payload<S>)
    ensures x.Fin? <==> p.Scalar?
  {
    match x
    case NegInf => Infinity(false)
    case Fin(n) => Scalar(Num(n))
    case PosInf => Infinity(true)
  }

  datatype MSet =
    | UniversalSet(domain: Domain)
    | EmptySet
    | IntersectionSet(sets: seq<MSet>)
    | UnionSet(sets: seq<MSet>)
    | ExprSet(expr: MExpr<MSet>, subVal: Option<MExpr<MSet>>)
    | ValSet(vals: seq<Elem>)
    | IntervalSet(lo: ExtInt, hi: ExtInt, lox: bool, hix: bool)
  {
    /** `instanceof ExprSet`: `IntervalSet` extends `ExprSet`. */
    predicate IsExprSet() { ExprSet? || IntervalSet? }

    /** `eq`; `IntervalSet` inherits the one of `ExprSet`. */
    predicate Eq(other: MSet)
    {
      match this
      case UniversalSet(d) => other.UniversalSet? && other.domain == d
      case EmptySet => other.EmptySet?
      case IntersectionSet(sets) =>
        other.IntersectionSet? && |sets| == |other.sets| &&
        forall i :: 0 <= i < |sets| ==> sets[i].Eq(other.sets[i])
      case UnionSet(sets) =>
        other.UnionSet? && |sets| == |other.sets| &&
        forall i :: 0 <= i < |sets| ==> sets[i].Eq(other.sets[i])
      case ExprSet(e, _) => other.IsExprSet() && MathExpr.Eq(e, ExprOf(other))
      case ValSet(vals) =>
        other.ValSet? && |vals| == |other.vals| &&
        forall i :: 0 <= i < |vals| ==> vals[i] == other.vals[i]
      case IntervalSet(_, _, _, _) => other.IsExprSet() && MathExpr.Eq(ExprOf(this), ExprOf(other))
    }

    /** `finite(domain)`. */
    predicate Finite(domain: Domain)
    {
      match this
      case UniversalSet(_) => false
      case EmptySet => true
      case IntersectionSet(sets) => exists i :: 0 <= i < |sets| && sets[i].Finite(domain)
      case UnionSet(sets) => forall i :: 0 <= i < |sets| ==> sets[i].Finite(domain)
      case ExprSet(_, _) => false
      case ValSet(_) => true
      case IntervalSet(lo, hi, _, _) => domain.integral && lo != NegInf && hi != PosInf
    }

    /** `enumerate(domain)`; a set reported finite always enumerates. */
    function Enumerate(domain: Domain): (r: Result<seq<Elem>>)
      decreases this, 2
      ensures Finite(domain) <==> r.Ok?
      ensures !r.Unmodelled?
      ensures EmptySet? ==> r == Ok([])
      ensures ValSet? ==> r == Ok(vals)
    {
      match this
      case UniversalSet(_) => Err("Enumerating infinite set")
      case EmptySet => Ok([])
      case IntersectionSet(sets) =>
        if !Finite(domain) then Err("Enumerating infinite intersection")
        else Ok(IntersectionValues(this, domain))
      case UnionSet(sets) =>
        if !Finite(domain) then Err("Enumerating infinite intersection")
        else Ok(UnionValues(this, domain))
      case ExprSet(_, _) => Err("Enumerating infinite set")
      case ValSet(vals) => Ok(vals)
      case IntervalSet(lo, hi, lox, hix) =>
        if !Finite(domain) then Err("Enumerating infinite interval")
        else Ok(IntervalRange(lo, hi, lox, hix))
    }
  }

  /** What a finite intersection enumerates to: the values of its first
      finite member kept if every later finite member includes them. */
  function IntersectionValues(s: MSet, domain: Domain): seq<Elem>
    requires s.IntersectionSet? && s.Finite(domain)
    decreases s, 1
  {
    var idx := FiniteIndices(s.sets, domain, 0);
    var enums := FiniteEnumerations(s, domain);
    KeepCommon(enums[idx[0]], Others(idx, enums))
  }

  /** The enumerations of the finite members after the first one. */
  function Others(idx: seq<nat>, enums: seq<seq<Elem>>): (r: seq<seq<Elem>>)
    requires |idx| > 0 && forall k :: 0 <= k < |idx| ==> idx[k] < |enums|
    ensures |r| == |idx| - 1 && forall k :: 0 <= k < |r| ==> r[k] == enums[idx[k + 1]]
  {
    seq(|idx| - 1, k requires 0 <= k < |idx| - 1 => enums[idx[k + 1]])
  }

  /** Each member's enumeration, or nothing for an infinite member. */
  function FiniteEnumerations(s: MSet, domain: Domain): (r: seq<seq<Elem>>)
    requires s.IntersectionSet? || s.UnionSet?
    ensures |r| == |s.sets|
    ensures forall j :: 0 <= j < |s.sets| && s.sets[j].Finite(domain) ==> r[j] == s.sets[j].Enumerate(domain).value
    decreases s, 0
  {
    seq(|s.sets|, j requires 0 <= j < |s.sets| => if s.sets[j].Finite(domain) then s.sets[j].Enumerate(domain).value else [])
  }

  /** What a finite union enumerates to: its members' values, each once. */
  function UnionValues(s: MSet, domain: Domain): seq<Elem>
    requires s.UnionSet? && s.Finite(domain)
    decreases s, 1
  {
    AddAll([], Concat(EnumerateEach(s.sets, domain)))
  }

  /** The enumerations of finite members, in order. */
  function EnumerateEach(sets: seq<MSet>, domain: Domain): (r: seq<seq<Elem>>)
    requires forall i :: 0 <= i < |sets| ==> sets[i].Finite(domain)
    ensures |r| == |sets| && forall i :: 0 <= i < |sets| ==> r[i] == sets[i].Enumerate(domain).value
  {
    seq(|sets|, i requires 0 <= i < |sets| => sets[i].Enumerate(domain).value)
  }

  /** The predicate an `IntervalSet` passes to its `ExprSet` constructor:
      `val > lo` (or `val > lo || val == lo`) and `val < hi` (or `... || val == hi`). */
  function IntervalExpr(lo: ExtInt, hi: ExtInt, lox: bool, hix: bool): MExpr<MSet>
  {
    AndExpr(LowerSide(lo, lox), UpperSide(hi, hix))
  }

  function LowerSide(lo: ExtInt, lox: bool): MExpr<MSet>
  {
    var val, l := ValExpr(Scalar(Null)), ValExpr(BoundPayload(lo));
    if lox then GTExpr(val, l) else OrExpr(GTExpr(val, l), EQExpr(val, l))
  }

  function UpperSide(hi: ExtInt, hix: bool): MExpr<MSet>
  {
    var val, h := ValExpr(Scalar(Null)), ValExpr(BoundPayload(hi));
    if hix then LTExpr(val, h) else OrExpr(LTExpr(val, h), EQExpr(val, h))
  }

  /** The `expr` field of an `ExprSet` instance. */
  function ExprOf(s: MSet): MExpr<MSet>
    requires s.IsExprSet()
  {
    if s.ExprSet? then s.expr else IntervalExpr(s.lo, s.hi, s.lox, s.hix)
  }

  /** `new IntervalSet(lo, hi)`: both ends exclusive unless stated otherwise. */
  function NewInterval(lo: ExtInt, hi: ExtInt): (s: MSet)
    ensures s.IntervalSet? && s.lo == lo && s.hi == hi
    ensures forall x: int :: InInterval(x, s) <==> Below(lo, Fin(x)) && Below(Fin(x), hi)
  {
    IntervalSet(lo, hi, true, true)
  }

  // ---------------------------------------------------------------------
  // helpers of enumerate

  /** The indices of the finite members from `from` on, in increasing order. */
  function FiniteIndices(sets: seq<MSet>, domain: Domain, from: nat): (idx: seq<nat>)
    requires from <= |sets|
    ensures forall k :: 0 <= k < |idx| ==> from <= idx[k] < |sets| && sets[idx[k]].Finite(domain)
    ensures forall k, l :: 0 <= k < l < |idx| ==> idx[k] < idx[l]
    ensures forall j :: from <= j < |sets| && sets[j].Finite(domain) ==> j in idx
    decreases |sets| - from
  {
    if from == |sets| then []
    else if sets[from].Finite(domain) then [from] + FiniteIndices(sets, domain, from + 1)
    else FiniteIndices(sets, domain, from + 1)
  }

  /** `vals.filter((val) => others.every((o) => o.includes(val)))`. */
  function KeepCommon(vals: seq<Elem>, others: seq<seq<Elem>>): (r: seq<Elem>)
    ensures forall x :: x in r <==> x in vals && forall o :: o in others ==> x in o
  {
    if vals == [] then []
    else
      (if forall o :: o in others ==> vals[0] in o then [vals[0]] else []) + KeepCommon(vals[1..], others)
  }

  /** The members' enumerations one after another. */
  function Concat(parts: seq<seq<Elem>>): (r: seq<Elem>)
    ensures forall x :: x in r <==> exists i :: 0 <= i < |parts| && x in parts[i]
  {
    if parts == [] then []
    else
      var rest := parts[1..];
      assert forall i :: 0 <= i < |rest| ==> rest[i] == parts[i + 1];
      parts[0] + Concat(rest)
  }

  /** The `if (!out.includes(val)) out.push(val)` step, over a whole sequence. */
  function AddAll(out: seq<Elem>, vs: seq<Elem>): seq<Elem>
    decreases |vs|
  {
    if vs == [] then out
    else AddAll(if vs[0] in out then out else out + [vs[0]], vs[1..])
  }

  /** `AddAll` keeps `out` as a prefix, adds exactly the values of `vs` not
      already present, and adds none twice. */
  lemma {:induction false} AddAllProps(out: seq<Elem>, vs: seq<Elem>)
    ensures var r := AddAll(out, vs);
      (forall x :: x in r <==> x in out || x in vs) &&
      (NoDuplicates(out) ==> NoDuplicates(r)) &&
      |out| <= |r| && r[..|out|] == out
    decreases |vs|
  {
    if vs != [] {
      var next := if vs[0] in out then out else out + [vs[0]];
      AddAllProps(next, vs[1..]);
      assert forall x :: x in vs <==> x == vs[0] || x in vs[1..];
      var r := AddAll(out, vs);
      assert r[..|out|] == r[..|next|][..|out|];
    }
  }

  predicate NoDuplicates(s: seq<Elem>)
  {
    forall i, j :: 0 <= i < j < |s| ==> s[i] != s[j]
  }

  /** The integers an interval enumerates to: consecutive, from `lo + 1`
      (`lox`) or `lo`, up to `hi - 1` (`hix`) or `hi`. */
  function IntervalRange(lo: ExtInt, hi: ExtInt, lox: bool, hix: bool): (r: seq<Elem>)
    requires lo != NegInf && hi != PosInf
  {
    if lo == PosInf || hi == NegInf then []
    else
      var start := if lox then lo.n + 1 else lo.n;
      var stop := if hix then hi.n else hi.n + 1;
      if stop <= start then [] else seq(stop - start, k requires 0 <= k < stop - start => Num(start + k))
  }

  /** `x` lies in the interval, by its bounds and their flags. */
  predicate InInterval(x: int, s: MSet)
    requires s.IntervalSet?
  {
    (if s.lox then Below(s.lo, Fin(x)) else !Below(Fin(x), s.lo)) &&
    (if s.hix then Below(Fin(x), s.hi) else !Below(s.hi, Fin(x)))
  }

  // ---------------------------------------------------------------------
  // cross

  /** `op(x, y)` for every `y`, in order. */
  function Row(x: Elem, ys: seq<Elem>, op: (Elem, Elem) -> Elem): (r: seq<Elem>)
    ensures |r| == |ys| && forall j :: 0 <= j < |ys| ==> r[j] == op(x, ys[j])
  {
    seq(|ys|, j requires 0 <= j < |ys| => op(x, ys[j]))
  }

  /** Every `op(x, y)` in `xs`-major order, repetitions included. */
  function Pairs(xs: seq<Elem>, ys: seq<Elem>, op: (Elem, Elem) -> Elem): seq<Elem>
  {
    if xs == [] then [] else Row(xs[0], ys, op) + Pairs(xs[1..], ys, op)
  }

  /** `MSet.cross(a, b, op, domain)`.  `b` is enumerated once per element of
      `a`, so it is never enumerated (and cannot throw) when `a` is empty. */
  function CrossOf(a: MSet, b: MSet, op: (Elem, Elem) -> Elem, domain: Domain): (r: Result<MSet>)
    ensures r.Ok? ==> r.value.ValSet? && NoDuplicates(r.value.vals)
    ensures r.Ok? <==> a.Finite(domain) && (a.Enumerate(domain).value == [] || b.Finite(domain))
  {
    var ea := a.Enumerate(domain);
    if !ea.Ok? then Err(ea.message)
    else if ea.value == [] then Ok(ValSet([]))
    else
      var eb := b.Enumerate(domain);
      if !eb.Ok? then Err(eb.message)
      else
        AddAllProps([], Pairs(ea.value, eb.value, op));
        Ok(ValSet(AddAll([], Pairs(ea.value, eb.value, op))))
  }

  /** `cross`: `b` is enumerated only when `a` has elements; its enumeration
      does not change between the iterations of the outer loop, so it is taken
      once. */
  method Cross(a: MSet, b: MSet, op: (Elem, Elem) -> Elem, domain: Domain) returns (r: Result<MSet>)
    ensures r == CrossOf(a, b, op, domain)
  {
    var ea := a.Enumerate(domain);
    if !ea.Ok? {
      return Err(ea.message);
    }
    if ea.value == [] {
      return Ok(ValSet([]));
    }
    var eb := b.Enumerate(domain);
    if !eb.Ok? {
      return Err(eb.message);
    }
    var out := CrossValues(ea.value, eb.value, op);
    return Ok(ValSet(out));
  }

  /** The two nested `forEach` loops of `cross`, pushing each result not yet in `out`. */
  method CrossValues(xs: seq<Elem>, ys: seq<Elem>, op: (Elem, Elem) -> Elem) returns (out: seq<Elem>)
    ensures out == AddAll([], Pairs(xs, ys, op))
  {
    out := [];
    var i := 0;
    while i < |xs|
      invariant 0 <= i <= |xs|
      invariant out == AddAll([], Pairs(xs[..i], ys, op))
    {
      var row := Row(xs[i], ys, op);
      ghost var before := out;
      var j := 0;
      while j < |ys|
        invariant 0 <= j <= |ys|
        invariant out == AddAll(before, row[..j])
      {
        var result := op(xs[i], ys[j]);
        AddAllSnoc(before, row[..j], result);
        assert row[..j + 1] == row[..j] + [result];
        if !(result in out) {
          out := out + [result];
        }
        j := j + 1;
      }
      assert row[..j] == row;
      PairsSnoc(xs[..i], xs[i], ys, op);
      assert xs[..i + 1] == xs[..i] + [xs[i]];
      AddAllAppend([], Pairs(xs[..i], ys, op), row);
      i := i + 1;
    }
    assert xs[..i] == xs;
  }

  lemma {:induction false} AddAllAppend(out: seq<Elem>, p: seq<Elem>, q: seq<Elem>)
    ensures AddAll(out, p + q) == AddAll(AddAll(out, p), q)
    decreases |p|
  {
    if p != [] {
      assert (p + q)[0] == p[0] && (p + q)[1..] == p[1..] + q;
      AddAllAppend(if p[0] in out then out else out + [p[0]], p[1..], q);
    } else {
      assert p + q == q;
    }
  }

  lemma AddAllSnoc(out: seq<Elem>, p: seq<Elem>, x: Elem)
    ensures AddAll(out, p + [x]) == (var o := AddAll(out, p); if x in o then o else o + [x])
  {
    AddAllAppend(out, p, [x]);
  }

  lemma {:induction false} PairsSnoc(xs: seq<Elem>, x: Elem, ys: seq<Elem>, op: (Elem, Elem) -> Elem)
    ensures Pairs(xs + [x], ys, op) == Pairs(xs, ys, op) + Row(x, ys, op)
  {
    if xs == [] {
      assert Pairs([x], ys, op) == Row(x, ys, op) + Pairs([], ys, op);
    } else {
      assert (xs + [x])[0] == xs[0] && (xs + [x])[1..] == xs[1..] + [x];
      PairsSnoc(xs[1..], x, ys, op);
    }
  }

  lemma {:induction false} PairsMembers(xs: seq<Elem>, ys: seq<Elem>, op: (Elem, Elem) -> Elem, v: Elem)
    ensures v in Pairs(xs, ys, op) <==>
      exists i, j :: 0 <= i < |xs| && 0 <= j < |ys| && v == op(xs[i], ys[j])
  {
    if xs != [] {
      PairsMembers(xs[1..], ys, op, v);
      if v in Pairs(xs[1..], ys, op) {
        var i, j :| 0 <= i < |xs[1..]| && 0 <= j < |ys| && v == op(xs[1..][i], ys[j]);
        assert v == op(xs[i + 1], ys[j]);
      }
      if exists i, j :: 0 <= i < |xs| && 0 <= j < |ys| && v == op(xs[i], ys[j]) {
        var i, j :| 0 <= i < |xs| && 0 <= j < |ys| && v == op(xs[i], ys[j]);
        if i == 0 {
          assert Row(xs[0], ys, op)[j] == v;
        } else {
          assert v == op(xs[1..][i - 1], ys[j]);
        }
      }
    }
  }

  /** `cross` holds `op(x, y)` for every pair of elements and nothing else, with
      no value twice. */
  lemma CrossMembers(a: MSet, b: MSet, op: (Elem, Elem) -> Elem, domain: Domain, v: Elem)
    requires a.Finite(domain) && b.Finite(domain)
    ensures var xs, ys := a.Enumerate(domain).value, b.Enumerate(domain).value;
      var r := CrossOf(a, b, op, domain);
      r.Ok? && NoDuplicates(r.value.vals) &&
      (v in r.value.vals <==> exists i, j :: 0 <= i < |xs| && 0 <= j < |ys| && v == op(xs[i], ys[j]))
  {
    var xs, ys := a.Enumerate(domain).value, b.Enumerate(domain).value;
    CrossOfFinite(a, b, op, domain);
    CrossValuesMembers(xs, ys, op, v);
  }

  lemma CrossOfFinite(a: MSet, b: MSet, op: (Elem, Elem) -> Elem, domain: Domain)
    requires a.Finite(domain) && b.Finite(domain)
    ensures CrossOf(a, b, op, domain) ==
      Ok(ValSet(AddAll([], Pairs(a.Enumerate(domain).value, b.Enumerate(domain).value, op))))
  {
    if a.Enumerate(domain).value == [] {
      assert Pairs([], b.Enumerate(domain).value, op) == [];
    }
  }

  lemma CrossValuesMembers(xs: seq<Elem>, ys: seq<Elem>, op: (Elem, Elem) -> Elem, v: Elem)
    ensures NoDuplicates(AddAll([], Pairs(xs, ys, op)))
    ensures v in AddAll([], Pairs(xs, ys, op)) <==>
      exists i, j :: 0 <= i < |xs| && 0 <= j < |ys| && v == op(xs[i], ys[j])
  {
    PairsMembers(xs, ys, op, v);
    AddAllProps([], Pairs(xs, ys, op));
  }

  /** The position of the first occurrence of `x`. */
  function IndexOf(vs: seq<Elem>, x: Elem): (i: nat)
    requires x in vs
    ensures i < |vs| && vs[i] == x && x !in vs[..i]
  {
    if vs[0] == x then 0 else 1 + IndexOf(vs[1..], x)
  }

  /** `AddAll` appends the values new to `out` in the order of their first
      occurrence in `vs`. */
  lemma {:induction false} AddAllFirstOccurrenceOrder(out: seq<Elem>, vs: seq<Elem>)
    ensures var r := AddAll(out, vs);
      |out| <= |r| &&
      (forall k :: |out| <= k < |r| ==> r[k] !in out && r[k] in vs) &&
      (forall k, l :: |out| <= k < l < |r| ==> IndexOf(vs, r[k]) < IndexOf(vs, r[l]))
    decreases |vs|
  {
    AddAllProps(out, vs);
    if vs != [] {
      var next := if vs[0] in out then out else out + [vs[0]];
      var r := AddAll(out, vs);
      assert r == AddAll(next, vs[1..]);
      AddAllFirstOccurrenceOrder(next, vs[1..]);
      AddAllProps(next, vs[1..]);
      FirstOccurrenceStep(out, vs, next, r);
    }
  }

  /** One step of `AddAllFirstOccurrenceOrder`: what `vs[1..]` adds after
      `next` keeps the order of first occurrence in `vs`. */
  lemma FirstOccurrenceStep(out: seq<Elem>, vs: seq<Elem>, next: seq<Elem>, r: seq<Elem>)
    requires vs != [] && next == if vs[0] in out then out else out + [vs[0]]
    requires |next| <= |r| && r[..|next|] == next
    requires forall k :: |next| <= k < |r| ==> r[k] !in next && r[k] in vs[1..]
    requires forall k, l :: |next| <= k < l < |r| ==> IndexOf(vs[1..], r[k]) < IndexOf(vs[1..], r[l])
    ensures |out| <= |r|
    ensures forall k :: |out| <= k < |r| ==> r[k] !in out && r[k] in vs
    ensures forall k, l :: |out| <= k < l < |r| ==> IndexOf(vs, r[k]) < IndexOf(vs, r[l])
  {
    forall k | |next| <= k < |r|
      ensures r[k] != vs[0] && IndexOf(vs, r[k]) == 1 + IndexOf(vs[1..], r[k])
    {
      assert vs[0] in next;
    }
    if vs[0] !in out {
      assert r[|out|] == r[..|next|][|out|] == vs[0];
    }
    forall k | |out| <= k < |r|
      ensures r[k] !in out && r[k] in vs
    {
      if k >= |next| {
        assert r[k] in vs[1..];
      }
    }
    forall k, l | |out| <= k < l < |r|
      ensures IndexOf(vs, r[k]) < IndexOf(vs, r[l])
    {
      if k < |next| {
        assert IndexOf(vs, r[k]) == 0;
      }
    }
  }

  /** `cross` lists its values in the order their first computation occurs
      when `a` is walked in the outer loop and `b` in the inner one. */
  lemma CrossOrder(xs: seq<Elem>, ys: seq<Elem>, op: (Elem, Elem) -> Elem)
    ensures var pairs, r := Pairs(xs, ys, op), AddAll([], Pairs(xs, ys, op));
      forall k, l :: 0 <= k < l < |r| ==> r[k] in pairs && r[l] in pairs && IndexOf(pairs, r[k]) < IndexOf(pairs, r[l])
  {
    AddAllFirstOccurrenceOrder([], Pairs(xs, ys, op));
  }

  /** When `a` enumerates to nothing, `b` is never enumerated: the result is
      the empty `ValSet` even for an infinite `b`. */
  lemma CrossOfEmptyLeft(b: MSet, op: (Elem, Elem) -> Elem, domain: Domain)
    ensures CrossOf(EmptySet, b, op, domain) == Ok(ValSet([]))
    ensures CrossOf(EmptySet, UniversalSet(domain), op, domain).Ok?
  {
  }

  // ---------------------------------------------------------------------
  // UnionSet.enumerate and IntervalSet.enumerate, as loops

  /** `UnionSet.enumerate`: each member's values are pushed unless already in `out`. */
  method EnumerateUnion(s: MSet, domain: Domain) returns (r: Result<seq<Elem>>)
    requires s.UnionSet?
    ensures r == s.Enumerate(domain)
  {
    if !s.Finite(domain) {
      return Err("Enumerating infinite intersection");
    }
    ghost var parts := EnumerateEach(s.sets, domain);
    var out: seq<Elem> := [];
    var i := 0;
    while i < |s.sets|
      invariant 0 <= i <= |s.sets|
      invariant out == AddAll([], Concat(parts[..i]))
    {
      var vals := s.sets[i].Enumerate(domain).value;
      ghost var before := out;
      var j := 0;
      while j < |vals|
        invariant 0 <= j <= |vals|
        invariant out == AddAll(before, vals[..j])
      {
        AddAllSnoc(before, vals[..j], vals[j]);
        assert vals[..j + 1] == vals[..j] + [vals[j]];
        if !(vals[j] in out) {
          out := out + [vals[j]];
        }
        j := j + 1;
      }
      assert vals[..j] == vals == parts[i];
      ConcatSnoc(parts[..i], parts[i]);
      assert parts[..i + 1] == parts[..i] + [parts[i]];
      AddAllAppend([], Concat(parts[..i]), parts[i]);
      i := i + 1;
    }
    assert parts[..i] == parts;
    return Ok(out);
  }

  lemma {:induction false} ConcatSnoc(parts: seq<seq<Elem>>, last: seq<Elem>)
    ensures Concat(parts + [last]) == Concat(parts) + last
  {
    if parts == [] {
      assert Concat([last]) == last + Concat([]);
    } else {
      assert (parts + [last])[0] == parts[0] && (parts + [last])[1..] == parts[1..] + [last];
      ConcatSnoc(parts[1..], last);
    }
  }

  /** `IntervalSet.enumerate`: the `for` loop from the first to the last
      integer inside the bounds. */
  method EnumerateInterval(s: MSet, domain: Domain) returns (r: Result<seq<Elem>>)
    requires s.IntervalSet?
    ensures r == s.Enumerate(domain)
  {
    if !s.Finite(domain) {
      return Err("Enumerating infinite interval");
    }
    var result: seq<Elem> := [];
    if s.lo == PosInf || s.hi == NegInf {
      // the loop condition compares with an infinite start or end and fails at once
      return Ok(result);
    }
    var start := if s.lox then s.lo.n + 1 else s.lo.n;
    var stop := if s.hix then s.hi.n else s.hi.n + 1;
    var i := start;
    while i < stop
      invariant start <= i && (i == start || i <= stop)
      invariant |result| == i - start
      invariant forall k :: 0 <= k < |result| ==> result[k] == Num(start + k)
    {
      result := result + [Num(i)];
      i := i + 1;
    }
    if start < stop {
      assert result == seq(stop - start, k requires 0 <= k < stop - start => Num(start + k));
    }
    assert result == IntervalRange(s.lo, s.hi, s.lox, s.hix);
    return Ok(result);
  }

  // ---------------------------------------------------------------------
  // properties

  /** `EmptySet` is finite and enumerates to nothing; `UniversalSet` is never
      finite and enumerating it throws. */
  lemma EmptyAndUniversal(t: Domain, domain: Domain)
    ensures EmptySet.Finite(domain) && EmptySet.Enumerate(domain) == Ok([])
    ensures !UniversalSet(t).Finite(domain)
    ensures UniversalSet(t).Enumerate(domain) == Err("Enumerating infinite set")
  {
  }

  /** `ValSet.eq` holds iff both hold the same values in the same order. */
  lemma ValSetEqIff(a: seq<Elem>, b: seq<Elem>)
    ensures ValSet(a).Eq(ValSet(b)) <==> a == b
  {
    if ValSet(a).Eq(ValSet(b)) {
      assert forall i :: 0 <= i < |a| ==> a[i] == b[i];
    }
  }

  /** `eq` of unions and intersections is positional: the same members in
      another order are not `eq`. */
  lemma UnionEqIsPositional()
    ensures UnionSet([EmptySet, ValSet([])]).Eq(UnionSet([EmptySet, ValSet([])]))
    ensures !UnionSet([EmptySet, ValSet([])]).Eq(UnionSet([ValSet([]), EmptySet]))
    ensures !IntersectionSet([EmptySet, ValSet([])]).Eq(IntersectionSet([ValSet([]), EmptySet]))
  {
    var a: seq<MSet> := [EmptySet, ValSet([])];
    var b: seq<MSet> := [ValSet([]), EmptySet];
    assert !a[0].Eq(b[0]);
    assert a[1].Eq(a[1]) by { ValSetEqIff([], []); }
  }

  /** Two intervals are `eq` iff they have the same bounds and flags: the
      inherited `ExprSet.eq` compares the predicates built from them. */
  lemma IntervalEqIff(a: MSet, b: MSet)
    requires a.IntervalSet? && b.IntervalSet?
    ensures a.Eq(b) <==> a == b
  {
    if a.Eq(b) {
      SideEq(a.lo, a.lox, b.lo, b.lox, true);
      SideEq(a.hi, a.hix, b.hi, b.hix, false);
    } else {
      EqReflexive(ExprOf(a));
    }
  }

  lemma SideEq(x: ExtInt, xx: bool, y: ExtInt, yx: bool, lower: bool)
    ensures var sx, sy := (if lower then LowerSide(x, xx) else UpperSide(x, xx)), (if lower then LowerSide(y, yx) else UpperSide(y, yx));
      MathExpr.Eq(sx, sy) ==> x == y && xx == yx
  {
    BoundEq(x, y);
    var v: MExpr<MSet> := ValExpr(Scalar(Null));
    var px: MExpr<MSet>, py: MExpr<MSet> := ValExpr(BoundPayload(x)), ValExpr(BoundPayload(y));
    var cx, cy := (if lower then GTExpr(v, px) else LTExpr(v, px)), (if lower then GTExpr(v, py) else LTExpr(v, py));
    assert MathExpr.Eq(cx, cy) ==> MathExpr.Eq(px, py);
    var sx := if xx then cx else OrExpr(cx, EQExpr(v, px));
    var sy := if yx then cy else OrExpr(cy, EQExpr(v, py));
    assert sx == (if lower then LowerSide(x, xx) else UpperSide(x, xx));
    assert sy == (if lower then LowerSide(y, yx) else UpperSide(y, yx));
    if xx == yx && !xx {
      assert MathExpr.Eq(sx, sy) ==> MathExpr.Eq(cx, cy);
    }
  }

  lemma BoundEq(x: ExtInt, y: ExtInt)
    ensures StrictEquals<MSet>(BoundPayload(x), BoundPayload(y)) <==> x == y
  {
  }

  /** An interval and a plain `ExprSet` with the same predicate are `eq`, both ways. */
  lemma IntervalEqExprSet(lo: ExtInt, hi: ExtInt, lox: bool, hix: bool)
    ensures IntervalSet(lo, hi, lox, hix).Eq(ExprSet(IntervalExpr(lo, hi, lox, hix), None))
    ensures ExprSet(IntervalExpr(lo, hi, lox, hix), None).Eq(IntervalSet(lo, hi, lox, hix))
  {
    EqReflexive(IntervalExpr(lo, hi, lox, hix));
  }

  /** `IntersectionSet.enumerate` keeps the values of its first finite member
      that occur in every later finite member; infinite members are ignored. */
  lemma IntersectionEnumeration(s: MSet, domain: Domain, x: Elem)
    requires s.IntersectionSet? && s.Finite(domain)
    ensures var i := FirstFinite(s, domain);
      x in s.Enumerate(domain).value <==>
        x in s.sets[i].Enumerate(domain).value &&
        forall j :: i < j < |s.sets| && s.sets[j].Finite(domain) ==> x in s.sets[j].Enumerate(domain).value
  {
    var idx := FiniteIndices(s.sets, domain, 0);
    var fin := FiniteFlags(s.sets, domain);
    var enums := FiniteEnumerations(s, domain);
    IndexesOfFinite(s.sets, domain);
    KeptIffLater(idx, fin, enums, x);
    LaterFinite(s, domain, idx[0], x);
    assert s.Enumerate(domain).value == IntersectionValues(s, domain);
  }

  /** Kept by the filter exactly when every later finite member has it too. */
  lemma KeptIffLater(idx: seq<nat>, fin: seq<bool>, enums: seq<seq<Elem>>, x: Elem)
    requires IndexesOf(idx, fin) && |idx| > 0 && |enums| == |fin|
    ensures x in KeepCommon(enums[idx[0]], Others(idx, enums)) <==>
      x in enums[idx[0]] && forall j :: idx[0] < j < |fin| && fin[j] ==> x in enums[j]
  {
    LaterIndices(idx, fin, enums, x);
  }

  /** The first finite member of a finite intersection: the one whose
      values `enumerate` filters. */
  function FirstFinite(s: MSet, domain: Domain): (i: nat)
    requires s.IntersectionSet? && s.Finite(domain)
    ensures i < |s.sets| && s.sets[i].Finite(domain)
    ensures forall j :: 0 <= j < i ==> !s.sets[j].Finite(domain)
  {
    IndexesOfFinite(s.sets, domain);
    FirstFiniteIndex(FiniteIndices(s.sets, domain, 0), FiniteFlags(s.sets, domain));
    FiniteIndices(s.sets, domain, 0)[0]
  }

  /** Which members are finite. */
  function FiniteFlags(sets: seq<MSet>, domain: Domain): (r: seq<bool>)
    ensures |r| == |sets| && forall j :: 0 <= j < |sets| ==> r[j] == sets[j].Finite(domain)
  {
    seq(|sets|, j requires 0 <= j < |sets| => sets[j].Finite(domain))
  }

  lemma IndexesOfFinite(sets: seq<MSet>, domain: Domain)
    ensures IndexesOf(FiniteIndices(sets, domain, 0), FiniteFlags(sets, domain))
  {
    var idx, fin := FiniteIndices(sets, domain, 0), FiniteFlags(sets, domain);
    forall k | 0 <= k < |idx|
      ensures idx[k] < |fin| && fin[idx[k]]
    {
    }
    forall j | 0 <= j < |fin| && fin[j]
      ensures j in idx
    {
      assert sets[j].Finite(domain);
    }
  }

  /** The later finite members, read through the flags and the
      enumerations. */
  lemma LaterFinite(s: MSet, domain: Domain, i: nat, x: Elem)
    requires s.IntersectionSet?
    ensures var fin, enums := FiniteFlags(s.sets, domain), FiniteEnumerations(s, domain);
      (forall j :: i < j < |fin| && fin[j] ==> x in enums[j]) <==>
      (forall j :: i < j < |s.sets| && s.sets[j].Finite(domain) ==> x in s.sets[j].Enumerate(domain).value)
  {
    var fin, enums := FiniteFlags(s.sets, domain), FiniteEnumerations(s, domain);
    forall j | i < j < |s.sets|
      ensures (fin[j] ==> x in enums[j]) <==> (s.sets[j].Finite(domain) ==> x in s.sets[j].Enumerate(domain).value)
    {
    }
  }

  /** `idx` lists exactly the positions where `fin` holds, in increasing order. */
  ghost predicate IndexesOf(idx: seq<nat>, fin: seq<bool>)
  {
    (forall k :: 0 <= k < |idx| ==> idx[k] < |fin| && fin[idx[k]]) &&
    (forall k, l :: 0 <= k < l < |idx| ==> idx[k] < idx[l]) &&
    (forall j :: 0 <= j < |fin| && fin[j] ==> j in idx)
  }

  lemma FirstFiniteIndex(idx: seq<nat>, fin: seq<bool>)
    requires IndexesOf(idx, fin) && |idx| > 0
    ensures forall j :: 0 <= j < idx[0] ==> !fin[j]
  {
  }

  lemma LaterIndices(idx: seq<nat>, fin: seq<bool>, enums: seq<seq<Elem>>, x: Elem)
    requires IndexesOf(idx, fin) && |idx| > 0 && |enums| == |fin|
    ensures var others := Others(idx, enums);
      (forall o :: o in others ==> x in o) <==>
      (forall j :: idx[0] < j < |fin| && fin[j] ==> x in enums[j])
  {
    var others := Others(idx, enums);
    if forall o :: o in others ==> x in o {
      forall j | idx[0] < j < |fin| && fin[j]
        ensures x in enums[j]
      {
        var k :| 0 <= k < |idx| && idx[k] == j;
        assert others[k - 1] in others;
      }
    }
    if forall j :: idx[0] < j < |fin| && fin[j] ==> x in enums[j] {
      forall o | o in others
        ensures x in o
      {
        var k :| 0 <= k < |others| && others[k] == o;
        assert idx[0] < idx[k + 1];
      }
    }
  }

  /** `UnionSet.enumerate` lists every value of every member exactly once, in
      order of first appearance. */
  lemma UnionEnumeration(s: MSet, domain: Domain, x: Elem)
    requires s.UnionSet? && s.Finite(domain)
    ensures NoDuplicates(s.Enumerate(domain).value)
    ensures x in s.Enumerate(domain).value <==>
      exists i :: 0 <= i < |s.sets| && x in s.sets[i].Enumerate(domain).value
  {
    var parts := EnumerateEach(s.sets, domain);
    AddAllProps([], Concat(parts));
  }

  /** A finite interval enumerates to consecutive integers, exactly those
      inside its bounds. */
  lemma IntervalEnumeration(s: MSet, domain: Domain, x: int)
    requires s.IntervalSet? && s.Finite(domain)
    ensures var vals := s.Enumerate(domain).value;
      (forall k :: 0 <= k < |vals| ==> vals[k].Num?) &&
      (forall k :: 0 < k < |vals| ==> vals[k].n == vals[k - 1].n + 1) &&
      (Num(x) in vals <==> InInterval(x, s))
  {
    var vals := s.Enumerate(domain).value;
    if s.lo != PosInf && s.hi != NegInf {
      var start := if s.lox then s.lo.n + 1 else s.lo.n;
      if InInterval(x, s) {
        assert vals[x - start] == Num(x);
      }
    }
  }
}
