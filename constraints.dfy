/** Constraint accumulation along a chain of `if` blocks: a condition block
    tree is composed into an `MExpr` (`composeExpr`), the variables it
    mentions are collected by `reduceChain`, and each one's entry in the
    constraint record is conjoined with the condition (`applyAffCondition`)
    or with its negation (`applyNegCondition`). */
module Constraints {

  import opened Wrappers
  import opened MathExpr
  import opened MathSets
  import opened Analyzer

  /** The binary predicate blocks. */
  datatype PredOp = AndOp | EqualityOp | GTOp | GTEOp | LTOp | LTEOp | OrOp

  /** The binary value blocks. */
  datatype ValueOp = AdditionOp | DivisionOp | ModulusOp | MultiplicationOp | SubtractionOp

  /** A condition as the editor holds it: every operand slot may be empty. */
  datatype Block =
    | BinPredicate(op: PredOp, left: Option<Block>, right: Option<Block>)
    | NotPredicate(operand: Option<Block>)
    | BinValue(vop: ValueOp, left: Option<Block>, right: Option<Block>)
    | LiteralValue(value: Elem)
    | RefValue(ref: Ref)

  /** Every operand slot of the tree is filled. */
  predicate Complete(b: Block)
  {
    match b
    case BinPredicate(_, l, r) => l.Some? && r.Some? && Complete(l.value) && Complete(r.value)
    case NotPredicate(x) => x.Some? && Complete(x.value)
    case BinValue(_, l, r) => l.Some? && r.Some? && Complete(l.value) && Complete(r.value)
    case _ => true
  }

  /** `composeExpr(expr)`; an empty slot reaches the final `else` and throws.
      The left operand is composed before the right one. */
  function ComposeExpr(b: Option<Block>): (r: Result<Expr>)
    ensures !r.Unmodelled?
    ensures r.Ok? <==> b.Some? && Complete(b.value)
  {
    if b.None? then Err("Unrecognized predicate/value type")
    else
      match b.value
      case BinPredicate(op, l, r) =>
        var left := ComposeExpr(l);
        if !left.Ok? then left
        else
          var right := ComposeExpr(r);
          if !right.Ok? then right
          else Ok(PredNode(op, left.value, right.value))
      case NotPredicate(x) =>
        var inner := ComposeExpr(x);
        if inner.Ok? then Ok(NegExpr(inner.value)) else inner
      case BinValue(op, l, r) =>
        var left := ComposeExpr(l);
        if !left.Ok? then left
        else
          var right := ComposeExpr(r);
          if !right.Ok? then right
          else Ok(match op
            case AdditionOp => AddExpr(left.value, right.value)
            case DivisionOp => DivExpr(left.value, right.value)
            case ModulusOp => RemExpr(left.value, right.value)
            case MultiplicationOp => MultExpr(left.value, right.value)
            case SubtractionOp => SubExpr(left.value, right.value))
      case LiteralValue(v) => Ok(ValExpr(Scalar(v)))
      case RefValue(x) => Ok(ValExpr(VarRef(x)))
  }

  /** The node a predicate block composes to over its two operands: `>=` and
      `<=` become `>` or `<` joined with `==` by an `or`. */
  function PredNode(op: PredOp, x: Expr, y: Expr): Expr
  {
    match op
    case AndOp => AndExpr(x, y)
    case EqualityOp => EQExpr(x, y)
    case GTOp => GTExpr(x, y)
    case GTEOp => OrExpr(GTExpr(x, y), EQExpr(x, y))
    case LTOp => LTExpr(x, y)
    case LTEOp => OrExpr(LTExpr(x, y), EQExpr(x, y))
    case OrOp => OrExpr(x, y)
  }

  /** A literal block keeps whatever primitive it holds, a string included
      (a new literal block holds the string `"string"`): composing a sum of
      a string literal and a number, and then simplifying it, gives the
      concatenated text. */
  lemma ComposeStringSum(t: string, n: int)
    ensures ComposeExpr(Some(BinValue(AdditionOp, Some(LiteralValue(Str(t))), Some(LiteralValue(Num(n)))))) ==
      Ok(AddExpr(ValExpr(Scalar(Str(t))), ValExpr(Scalar(Num(n)))))
    ensures Simplify(AddExpr(ValExpr(Scalar(Str(t))), ValExpr(Scalar(Num(n))))) == Ok(ValSet([Str(t + ElemText(Num(n)))]))
  {
    SimplifyConcatenates(t, Num(n));
  }

  /** What a complete value block computes under `env`, read off the blocks
      themselves (division and modulus are not interpreted). */
  ghost function BlockNum(b: Block, env: map<nat, int>): int
    requires Complete(b)
  {
    match b
    case BinValue(op, l, r) =>
      (match op
       case AdditionOp => BlockNum(l.value, env) + BlockNum(r.value, env)
       case SubtractionOp => BlockNum(l.value, env) - BlockNum(r.value, env)
       case MultiplicationOp => BlockNum(l.value, env) * BlockNum(r.value, env)
       case _ => 0)
    case LiteralValue(v) => if v.Num? then v.n else 0
    case RefValue(x) => if x.master in env then env[x.master] else 0
    case _ => 0
  }

  /** Whether a complete predicate block holds under `env`: `>=` and `<=`
      are read as the comparisons they name. */
  ghost predicate BlockHolds(b: Block, env: map<nat, int>)
    requires Complete(b)
  {
    match b
    case BinPredicate(op, l, r) =>
      PredHolds(op, BlockHolds(l.value, env), BlockHolds(r.value, env), BlockNum(l.value, env), BlockNum(r.value, env))
    case NotPredicate(x) => !BlockHolds(x.value, env)
    case LiteralValue(v) => v.Bool? && v.b
    case _ => false
  }

  /** What predicate block `op` means, given whether its operands hold and
      what they count. */
  ghost predicate PredHolds(op: PredOp, hl: bool, hr: bool, a: int, b: int)
  {
    match op
    case AndOp => hl && hr
    case OrOp => hl || hr
    case EqualityOp => a == b
    case GTOp => a > b
    case GTEOp => a >= b
    case LTOp => a < b
    case LTEOp => a <= b
  }

  /** The node `PredNode` builds holds exactly when `PredHolds` says so of
      its operands. */
  lemma PredNodeTruth(op: PredOp, x: Expr, y: Expr, env: map<nat, int>)
    ensures Truth(PredNode(op, x, y), env) <==>
      PredHolds(op, Truth(x, env), Truth(y, env), NumVal(x, env), NumVal(y, env))
  {
  }

  /** A composed value has the value of its blocks. */
  lemma {:induction false} ComposeValueMeaning(b: Block, env: map<nat, int>)
    requires Complete(b)
    ensures NumVal(ComposeExpr(Some(b)).value, env) == BlockNum(b, env)
  {
    match b
    case BinPredicate(_, l, r) =>
    case NotPredicate(_) =>
    case BinValue(_, l, r) =>
      ComposeValueMeaning(l.value, env);
      ComposeValueMeaning(r.value, env);
    case LiteralValue(_) =>
    case RefValue(_) =>
  }

  /** A composed condition holds exactly when the blocks do; in particular
      `GTE` and `LTE` become `>` or `=` and `<` or `=`. */
  lemma {:induction false} ComposeMeaning(b: Block, env: map<nat, int>)
    requires Complete(b)
    ensures Truth(ComposeExpr(Some(b)).value, env) <==> BlockHolds(b, env)
  {
    match b
    case BinPredicate(op, l, r) =>
      ComposeMeaning(l.value, env);
      ComposeMeaning(r.value, env);
      ComposeValueMeaning(l.value, env);
      ComposeValueMeaning(r.value, env);
      ComposePredicateStep(op, l.value, r.value, env);
    case NotPredicate(x) =>
      ComposeMeaning(x.value, env);
    case BinValue(_, _, _) =>
    case LiteralValue(_) =>
    case RefValue(_) =>
  }

  /** A binary predicate block, given what its operands mean. */
  lemma ComposePredicateStep(op: PredOp, l: Block, r: Block, env: map<nat, int>)
    requires Complete(l) && Complete(r)
    requires Truth(ComposeExpr(Some(l)).value, env) <==> BlockHolds(l, env)
    requires Truth(ComposeExpr(Some(r)).value, env) <==> BlockHolds(r, env)
    requires NumVal(ComposeExpr(Some(l)).value, env) == BlockNum(l, env)
    requires NumVal(ComposeExpr(Some(r)).value, env) == BlockNum(r, env)
    ensures Truth(ComposeExpr(Some(BinPredicate(op, Some(l), Some(r)))).value, env) <==>
      BlockHolds(BinPredicate(op, Some(l), Some(r)), env)
  {
    var x, y := ComposeExpr(Some(l)).value, ComposeExpr(Some(r)).value;
    assert ComposeExpr(Some(BinPredicate(op, Some(l), Some(r)))).value == PredNode(op, x, y);
    PredNodeTruth(op, x, y, env);
  }

  // ---------------------------------------------------------------------
  // the variables a condition mentions

  /** `list.includes(block)`: the same ref object is already listed. */
  predicate Listed(refs: seq<Ref>, x: Ref)
  {
    exists i :: 0 <= i < |refs| && refs[i].block == x.block
  }

  /** `pred.reduceChain(cb, acc)` with the analyzer's callback: each block is
      folded before its operands, the right operand before the left one, and
      a ref already listed is skipped.  As in the source, an empty left slot
      stops the fold of a binary block after the block itself. */
  function ChainRefs(b: Block, acc: seq<Ref>): seq<Ref>
  {
    var here := if b.RefValue? && !Listed(acc, b.ref) then acc + [b.ref] else acc;
    match b
    case BinPredicate(_, l, r) =>
      if l.Some? then ChainRefs(l.value, if r.Some? then ChainRefs(r.value, here) else here) else here
    case BinValue(_, l, r) =>
      if l.Some? then ChainRefs(l.value, if r.Some? then ChainRefs(r.value, here) else here) else here
    case NotPredicate(x) =>
      if x.Some? then ChainRefs(x.value, here) else here
    case _ => here
  }

  /** The tree holds the ref object `x`. */
  ghost predicate Mentions(b: Block, x: Ref)
    requires Complete(b)
  {
    match b
    case BinPredicate(_, l, r) => Mentions(l.value, x) || Mentions(r.value, x)
    case NotPredicate(y) => Mentions(y.value, x)
    case BinValue(_, l, r) => Mentions(l.value, x) || Mentions(r.value, x)
    case LiteralValue(_) => false
    case RefValue(y) => y.block == x.block
  }

  /** No ref object is listed twice. */
  ghost predicate Distinct(refs: seq<Ref>)
  {
    forall i, j :: 0 <= i < j < |refs| ==> refs[i].block != refs[j].block
  }

  /** The collection extends `acc`, lists no ref object twice, and on a
      complete tree lists an object exactly when the tree or `acc` holds it. */
  lemma {:induction false} ChainRefsCollects(b: Block, acc: seq<Ref>, x: Ref)
    ensures var r := ChainRefs(b, acc);
      |acc| <= |r| && r[..|acc|] == acc && (Distinct(acc) ==> Distinct(r))
    ensures Complete(b) ==> (Listed(ChainRefs(b, acc), x) <==> Listed(acc, x) || Mentions(b, x))
    decreases b, 1
  {
    var here := if b.RefValue? && !Listed(acc, b.ref) then acc + [b.ref] else acc;
    HereCollects(b, acc, x);
    match b
    case BinPredicate(_, l, r) =>
      ChainSides(b, here, x);
      PrefixOfPrefix(ChainRefs(b, acc), here, acc);
    case BinValue(_, l, r) =>
      ChainSides(b, here, x);
      PrefixOfPrefix(ChainRefs(b, acc), here, acc);
    case NotPredicate(y) =>
      if y.Some? {
        ChainRefsCollects(y.value, here, x);
        PrefixOfPrefix(ChainRefs(y.value, here), here, acc);
      }
    case LiteralValue(_) =>
    case RefValue(_) =>
  }

  /** The callback's step on the block itself. */
  lemma HereCollects(b: Block, acc: seq<Ref>, x: Ref)
    ensures var here := if b.RefValue? && !Listed(acc, b.ref) then acc + [b.ref] else acc;
      |acc| <= |here| && here[..|acc|] == acc && (Distinct(acc) ==> Distinct(here)) &&
      (Listed(here, x) <==> Listed(acc, x) || (b.RefValue? && b.ref.block == x.block))
  {
    var here := if b.RefValue? && !Listed(acc, b.ref) then acc + [b.ref] else acc;
    if Listed(acc, x) {
      var i :| 0 <= i < |acc| && acc[i].block == x.block;
      assert here[i] == acc[i];
    }
    if b.RefValue? && b.ref.block == x.block && !Listed(acc, b.ref) {
      assert here[|acc|] == b.ref;
    }
  }

  lemma PrefixOfPrefix(r: seq<Ref>, mid: seq<Ref>, acc: seq<Ref>)
    requires |mid| <= |r| && r[..|mid|] == mid
    requires |acc| <= |mid| && mid[..|acc|] == acc
    ensures r[..|acc|] == acc
  {
    assert r[..|acc|] == r[..|mid|][..|acc|];
  }

  /** The operand folds of a binary block: the right operand into `here`,
      then the left one into that. */
  lemma {:induction false} ChainSides(b: Block, here: seq<Ref>, x: Ref)
    requires b.BinPredicate? || b.BinValue?
    ensures var res := if b.left.Some? then ChainRefs(b.left.value, if b.right.Some? then ChainRefs(b.right.value, here) else here) else here;
      |here| <= |res| && res[..|here|] == here && (Distinct(here) ==> Distinct(res)) &&
      (Complete(b) ==> (Listed(res, x) <==> Listed(here, x) || Mentions(b, x)))
    decreases b, 0
  {
    if b.left.Some? {
      var mid := if b.right.Some? then ChainRefs(b.right.value, here) else here;
      if b.right.Some? {
        ChainRefsCollects(b.right.value, here, x);
      }
      ChainRefsCollects(b.left.value, mid, x);
      PrefixOfPrefix(ChainRefs(b.left.value, mid), mid, here);
    }
  }

  /** An empty left slot hides the right operand from the collection. */
  lemma EmptyLeftSlotSkipsRight(op: PredOp, y: Ref)
    ensures ChainRefs(BinPredicate(op, None, Some(RefValue(y))), []) == []
    ensures ChainRefs(BinPredicate(op, Some(RefValue(y)), None), []) == [y]
  {
    assert !Listed([], y);
  }

  // ---------------------------------------------------------------------
  // the constraint record

  /** The new constraint of a variable on the branch where `p` holds. */
  function Conjoin(prev: Expr, p: Expr): Expr
  {
    if prev.TrueExpr? then p else AndExpr(prev, p)
  }

  /** The new constraint on the branch where `p` fails, as written: the
      previous constraint is negated together with `p`. */
  function NegateAsWritten(prev: Expr, p: Expr): Expr
  {
    if prev.TrueExpr? then NegExpr(p) else NegExpr(AndExpr(prev, p))
  }

  /** The new constraint on the branch where `p` fails: the previous
      constraint and not `p`. */
  function ConjoinNegation(prev: Expr, p: Expr): Expr
  {
    if prev.TrueExpr? then NegExpr(p) else AndExpr(prev, NegExpr(p))
  }

  /** Every listed variable has an entry in the record. */
  predicate Named(vals: map<string, Expr>, refs: seq<Ref>)
  {
    forall i :: 0 <= i < |refs| ==> refs[i].name in vals
  }

  /** Some listed ref belongs to the variable named `k`. */
  predicate Touched(refs: seq<Ref>, k: string)
  {
    exists i :: 0 <= i < |refs| && refs[i].name == k
  }

  /** `refs.forEach((ref) => vals[ref.master.name] = f(vals[ref.master.name], p))`. */
  function UpdateEach(vals: map<string, Expr>, refs: seq<Ref>, p: Expr, f: (Expr, Expr) -> Expr): (r: map<string, Expr>)
    requires Named(vals, refs)
    ensures r.Keys == vals.Keys
  {
    if refs == [] then vals
    else
      var prev := UpdateEach(vals, refs[..|refs| - 1], p, f);
      var k := refs[|refs| - 1].name;
      prev[k := f(prev[k], p)]
  }

  /** The last ref of a non-empty list and the ones before it. */
  lemma SplitLast(vals: map<string, Expr>, refs: seq<Ref>, k: string)
    requires Named(vals, refs) && refs != []
    ensures Named(vals, refs[..|refs| - 1])
    ensures Touched(refs, k) <==> Touched(refs[..|refs| - 1], k) || refs[|refs| - 1].name == k
  {
    var init := refs[..|refs| - 1];
    assert forall i :: 0 <= i < |init| ==> init[i] == refs[i];
    if Touched(refs, k) && refs[|refs| - 1].name != k {
      var i :| 0 <= i < |refs| && refs[i].name == k;
      assert init[i] == refs[i];
    }
  }

  /** The last ref's update comes after the updates of the ones before it. */
  lemma UpdateEachLast(vals: map<string, Expr>, refs: seq<Ref>, p: Expr, f: (Expr, Expr) -> Expr)
    requires Named(vals, refs) && refs != []
    ensures Named(vals, refs[..|refs| - 1])
    ensures var prev, k := UpdateEach(vals, refs[..|refs| - 1], p, f), refs[|refs| - 1].name;
      k in prev && UpdateEach(vals, refs, p, f) == prev[k := f(prev[k], p)]
  {
    assert forall i :: 0 <= i < |refs| - 1 ==> refs[..|refs| - 1][i] == refs[i];
  }

  lemma ConjoinMeaning(prev: Expr, p: Expr, env: map<nat, int>)
    ensures Truth(Conjoin(prev, p), env) <==> Truth(prev, env) && Truth(p, env)
  {
  }

  lemma ConjoinNegationMeaning(prev: Expr, p: Expr, env: map<nat, int>)
    ensures Truth(ConjoinNegation(prev, p), env) <==> Truth(prev, env) && !Truth(p, env)
  {
  }

  /** On the branch where the condition holds, each variable it mentions
      keeps exactly the values that meet both its old constraint and the
      condition; every other entry is unchanged. */
  lemma {:induction false} AffirmMeaning(vals: map<string, Expr>, refs: seq<Ref>, p: Expr, env: map<nat, int>, k: string)
    requires Named(vals, refs) && k in vals
    ensures var r := UpdateEach(vals, refs, p, Conjoin);
      (Touched(refs, k) ==> (Truth(r[k], env) <==> Truth(vals[k], env) && Truth(p, env))) &&
      (!Touched(refs, k) ==> r[k] == vals[k])
  {
    if refs != [] {
      SplitLast(vals, refs, k);
      UpdateEachLast(vals, refs, p, Conjoin);
      var init := refs[..|refs| - 1];
      AffirmMeaning(vals, init, p, env, k);
      ConjoinMeaning(UpdateEach(vals, init, p, Conjoin)[k], p, env);
    }
  }

  /** On the branch where the condition fails, each variable it mentions
      keeps exactly the values that meet its old constraint and fail the
      condition; every other entry is unchanged. */
  lemma {:induction false} NegationMeaning(vals: map<string, Expr>, refs: seq<Ref>, p: Expr, env: map<nat, int>, k: string)
    requires Named(vals, refs) && k in vals
    ensures var r := UpdateEach(vals, refs, p, ConjoinNegation);
      (Touched(refs, k) ==> (Truth(r[k], env) <==> Truth(vals[k], env) && !Truth(p, env))) &&
      (!Touched(refs, k) ==> r[k] == vals[k])
  {
    if refs != [] {
      SplitLast(vals, refs, k);
      UpdateEachLast(vals, refs, p, ConjoinNegation);
      var init := refs[..|refs| - 1];
      NegationMeaning(vals, init, p, env, k);
      ConjoinNegationMeaning(UpdateEach(vals, init, p, ConjoinNegation)[k], p, env);
    }
  }

  /** One ref updates one entry. */
  lemma UpdateOne(vals: map<string, Expr>, x: Ref, p: Expr, f: (Expr, Expr) -> Expr)
    requires x.name in vals
    ensures Named(vals, [x])
    ensures UpdateEach(vals, [x], p, f) == vals[x.name := f(vals[x.name], p)]
  {
    assert [x][..0] == [];
  }

  /** The negative update as written loses the old constraint: from `x > 0`
      on the branch where `x < 5` fails it admits `x = -1`, which the old
      constraint excludes and the corrected update rejects. */
  lemma NegationAsWrittenLosesConstraint()
    ensures var x := Ref(1, 0, "x", Domain("int", true));
      var prev := GTExpr(ValExpr(VarRef(x)), ValExpr(Scalar(Num(0))));
      var cond := LTExpr(ValExpr(VarRef(x)), ValExpr(Scalar(Num(5))));
      var r := UpdateEach(map["x" := prev], [x], cond, NegateAsWritten);
      var fixed := UpdateEach(map["x" := prev], [x], cond, ConjoinNegation);
      Truth(r["x"], map[0 := -1]) && !Truth(prev, map[0 := -1]) && !Truth(fixed["x"], map[0 := -1])
  {
    var x := Ref(1, 0, "x", Domain("int", true));
    var prev := GTExpr(ValExpr(VarRef(x)), ValExpr(Scalar(Num(0))));
    var cond := LTExpr(ValExpr(VarRef(x)), ValExpr(Scalar(Num(5))));
    UpdateOne(map["x" := prev], x, cond, NegateAsWritten);
    UpdateOne(map["x" := prev], x, cond, ConjoinNegation);
  }

  /** With two ref objects of one unconstrained variable (as the chain of
      `x > 0 && x < 5` lists them), the negative update as written yields
      `~((~P) ∧ P)`, which every value meets. */
  lemma NegationAsWrittenDuplicateRefs(p: Expr, env: map<nat, int>)
    ensures var x, y := Ref(1, 0, "x", Domain("int", true)), Ref(2, 0, "x", Domain("int", true));
      Truth(UpdateEach(map["x" := TrueExpr], [x, y], p, NegateAsWritten)["x"], env)
  {
    var x, y := Ref(1, 0, "x", Domain("int", true)), Ref(2, 0, "x", Domain("int", true));
    var start := map["x" := TrueExpr];
    UpdateOne(start, x, p, NegateAsWritten);
    assert [x, y][..1] == [x];
    var twice := UpdateEach(start, [x, y], p, NegateAsWritten);
    assert twice["x"] == NegExpr(AndExpr(NegExpr(p), p));
  }

  /** The record of constraints threaded along a chain, keyed by variable
      name. */
  class ConstraintTable {
    var vals: map<string, Expr>

    constructor(initial: map<string, Expr>)
      ensures vals == initial
    {
      vals := initial;
    }

    /** Each variable `pred` mentions gets `f(its constraint, composeExpr(pred))`.
        The condition is composed at the first variable, so a condition with
        an empty slot throws only when it mentions a variable, and then
        before any entry changes. */
    method ApplyCondition(pred: Block, f: (Expr, Expr) -> Expr) returns (thrown: Option<string>)
      requires Named(vals, ChainRefs(pred, []))
      modifies this
      ensures var refs, p := ChainRefs(pred, []), ComposeExpr(Some(pred));
        if refs == [] then vals == old(vals) && thrown.None?
        else if p.Err? then vals == old(vals) && thrown == Some(p.message)
        else vals == UpdateEach(old(vals), refs, p.value, f) && thrown.None?
    {
      var refs := ChainRefs(pred, []);
      if refs == [] {
        return None;
      }
      var p := ComposeExpr(Some(pred));
      if p.Err? {
        return Some(p.message);
      }
      UpdateAll(refs, p.value, f);
      return None;
    }

    /** The `forEach` over the mentioned refs: each one's entry becomes `f`
        of its current constraint and the condition, in turn. */
    method UpdateAll(refs: seq<Ref>, p: Expr, f: (Expr, Expr) -> Expr)
      requires Named(vals, refs)
      modifies this
      ensures vals == UpdateEach(old(vals), refs, p, f)
    {
      var i := 0;
      while i < |refs|
        invariant 0 <= i <= |refs|
        invariant vals == UpdateEach(old(vals), refs[..i], p, f)
      {
        assert refs[..i + 1][..i] == refs[..i];
        assert Named(old(vals), refs[..i + 1]);
        UpdateEachLast(old(vals), refs[..i + 1], p, f);
        var k := refs[i].name;
        vals := vals[k := f(vals[k], p)];
        i := i + 1;
      }
      assert refs[..i] == refs;
    }

    /** `applyAffCondition(pred, vals)`. */
    method ApplyAffCondition(pred: Block) returns (thrown: Option<string>)
      requires Named(vals, ChainRefs(pred, []))
      modifies this
      ensures var refs, p := ChainRefs(pred, []), ComposeExpr(Some(pred));
        if refs == [] then vals == old(vals) && thrown.None?
        else if p.Err? then vals == old(vals) && thrown == Some(p.message)
        else vals == UpdateEach(old(vals), refs, p.value, Conjoin) && thrown.None?
    {
      thrown := ApplyCondition(pred, Conjoin);
    }

    /** `applyNegCondition(pred, vals)`, conjoining the negated condition
        with the old constraint rather than negating both. */
    method ApplyNegCondition(pred: Block) returns (thrown: Option<string>)
      requires Named(vals, ChainRefs(pred, []))
      modifies this
      ensures var refs, p := ChainRefs(pred, []), ComposeExpr(Some(pred));
        if refs == [] then vals == old(vals) && thrown.None?
        else if p.Err? then vals == old(vals) && thrown == Some(p.message)
        else vals == UpdateEach(old(vals), refs, p.value, ConjoinNegation) && thrown.None?
    {
      thrown := ApplyCondition(pred, ConjoinNegation);
    }
  }
}
