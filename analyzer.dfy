/** The constraint analyzer: tree rewriting (`replace`), the variable search
    (`findVar`), spine flattening (`collate`), evaluation of variable-free
    arithmetic to sets (`simplify`), comparison-to-interval reduction
    (`reduceExpr`), set reduction (`reduceSet`) and the printer (`serialize`). */
module Analyzer {

  import opened Wrappers
  import opened MathExpr
  import opened MathSets
  import TextUtils

  type Expr = MExpr<MSet>

  // ---------------------------------------------------------------------
  // a reference meaning for constraints over integer variables

  /** The value of an arithmetic tree when each variable (keyed by the
      identity of its declaring block) holds the integer `env` gives it;
      anything non-numeric counts as 0.  Division and remainder are not
      interpreted. */
  ghost function NumVal(e: Expr, env: map<nat, int>): int
  {
    match e
    case ValExpr(p) =>
      if p.Scalar? && p.e.Num? then p.e.n
      else if p.VarRef? && p.ref.master in env then env[p.ref.master]
      else 0
    case AddExpr(l, r) => NumVal(l, env) + NumVal(r, env)
    case SubExpr(l, r) => NumVal(l, env) - NumVal(r, env)
    case MultExpr(l, r) => NumVal(l, env) * NumVal(r, env)
    case _ => 0
  }

  /** Whether a constraint holds under `env`. */
  ghost predicate Truth(e: Expr, env: map<nat, int>)
  {
    match e
    case TrueExpr => true
    case FalseExpr => false
    case ValExpr(p) => p.Scalar? && p.e.Bool? && p.e.b
    case NegExpr(x) => !Truth(x, env)
    case AndExpr(l, r) => Truth(l, env) && Truth(r, env)
    case OrExpr(l, r) => Truth(l, env) || Truth(r, env)
    case EQExpr(l, r) => NumVal(l, env) == NumVal(r, env)
    case LTExpr(l, r) => NumVal(l, env) < NumVal(r, env)
    case GTExpr(l, r) => NumVal(l, env) > NumVal(r, env)
    case _ => false
  }

  // ---------------------------------------------------------------------
  // replace

  /** `replace(expr, op)`: children are rewritten first, then `op` is applied
      to the rebuilt node.  `TrueExpr` and `FalseExpr` are `ValExpr`s, so the
      first branch hands them to `op` as well. */
  function Replace(e: Expr, op: Expr -> Expr): Expr
  {
    if e.IsVal() then op(e)
    else if e.NegExpr? then op(NegExpr(Replace(e.expr, op)))
    else op(Bin(KindOf(e), Replace(e.left, op), Replace(e.right, op)))
  }

  /** With an identity operation `replace` rebuilds the same tree, which is
      therefore `eq` to its input. */
  lemma {:induction false} ReplaceIdentity(e: Expr, op: Expr -> Expr)
    requires forall x :: op(x) == x
    ensures Replace(e, op) == e
    ensures Eq(Replace(e, op), e)
  {
    if e.NegExpr? {
      ReplaceIdentity(e.expr, op);
    } else if e.IsBinary() {
      ReplaceIdentity(e.left, op);
      ReplaceIdentity(e.right, op);
    }
    EqReflexive(e);
  }

  /** `op` sees the `TrueExpr`/`FalseExpr` leaves: an operation that rewrites
      them rewrites them inside any tree. */
  lemma ReplaceReachesBoolLeaves(op: Expr -> Expr, x: Expr)
    requires forall y :: op(y) == (if y.TrueExpr? then FalseExpr else y)
    ensures Replace(TrueExpr, op) == FalseExpr
    ensures Replace(AndExpr(TrueExpr, x), op) == AndExpr(FalseExpr, Replace(x, op))
  {
  }

  /** Substituting every variable leaf by a variable-free leaf, and leaving
      every other node as it is, removes all variables. */
  lemma {:induction false} ReplaceSubstitutesVariables(e: Expr, op: Expr -> Expr)
    requires forall y :: !IsVarLeaf(y) ==> op(y) == y
    requires forall y :: IsVarLeaf(y) ==> op(y).IsVal() && FindVar(op(y)).None?
    ensures FindVar(Replace(e, op)).None?
  {
    if e.NegExpr? {
      ReplaceSubstitutesVariables(e.expr, op);
    } else if e.IsBinary() {
      ReplaceSubstitutesVariables(e.left, op);
      ReplaceSubstitutesVariables(e.right, op);
    }
  }

  // ---------------------------------------------------------------------
  // findVar

  /** A `ValExpr` holding a `VariableRefValue` or `ForIndexRefValue`. */
  predicate IsVarLeaf(e: Expr)
  {
    e.ValExpr? && e.val.VarRef?
  }

  /** `findVar(expr)`: the first variable leaf, left operand before right. */
  function FindVar(e: Expr): (r: Option<Expr>)
    ensures r.Some? ==> IsVarLeaf(r.value)
  {
    match e
    case ValExpr(p) => if p.VarRef? then Some(e) else None
    case TrueExpr => None
    case FalseExpr => None
    case NegExpr(x) => FindVar(x)
    case _ =>
      var l := FindVar(e.left);
      if l.Some? then l else FindVar(e.right)
  }

  /** The variable refs of a tree in left-to-right pre-order. */
  function RefsOf(e: Expr): seq<Ref>
  {
    match e
    case ValExpr(p) => if p.VarRef? then [p.ref] else []
    case TrueExpr => []
    case FalseExpr => []
    case NegExpr(x) => RefsOf(x)
    case _ => RefsOf(e.left) + RefsOf(e.right)
  }

  /** `findVar` is null exactly when the tree has no variable, and otherwise
      it is the leaf of the first variable in pre-order. */
  lemma {:induction false} FindVarIsFirstRef(e: Expr)
    ensures FindVar(e).None? <==> RefsOf(e) == []
    ensures FindVar(e).Some? ==> FindVar(e).value == ValExpr(VarRef(RefsOf(e)[0]))
  {
    if e.NegExpr? {
      FindVarIsFirstRef(e.expr);
    } else if e.IsBinary() {
      FindVarIsFirstRef(e.left);
      FindVarIsFirstRef(e.right);
      var refs := RefsOf(e.left) + RefsOf(e.right);
      assert RefsOf(e) == refs;
      assert RefsOf(e.left) != [] ==> refs[0] == RefsOf(e.left)[0];
      assert RefsOf(e.left) == [] ==> refs == RefsOf(e.right);
    }
  }

  // ---------------------------------------------------------------------
  // collate

  /** `expr instanceof Expr` for `Expr` one of `AndExpr`, `OrExpr`. */
  predicate IsKind(e: Expr, k: BinKind)
  {
    e.IsBinary() && KindOf(e) == k
  }

  /** `collate(expr, Expr)`: the operands of the `k`-spine, left to right. */
  function Collate(e: Expr, k: BinKind): (r: seq<Expr>)
    requires k == And || k == Or
    ensures |r| >= 1
    ensures forall x :: x in r ==> !IsKind(x, k)
  {
    if IsKind(e, k) then Collate(e.left, k) + Collate(e.right, k) else [e]
  }

  /** A conjunction holds exactly when every operand `collate` returns holds. */
  lemma {:induction false} CollateAndMeaning(e: Expr, env: map<nat, int>)
    ensures Truth(e, env) <==> forall x :: x in Collate(e, And) ==> Truth(x, env)
  {
    if IsKind(e, And) {
      CollateAndMeaning(e.left, env);
      CollateAndMeaning(e.right, env);
    }
  }

  /** A disjunction holds exactly when some operand `collate` returns holds. */
  lemma {:induction false} CollateOrMeaning(e: Expr, env: map<nat, int>)
    ensures Truth(e, env) <==> exists x :: x in Collate(e, Or) && Truth(x, env)
  {
    if IsKind(e, Or) {
      CollateOrMeaning(e.left, env);
      CollateOrMeaning(e.right, env);
    }
  }

  // ---------------------------------------------------------------------
  // simplify

  /** JavaScript's `Number(x)` on the scalars that are not strings.  A
      string coerces to `NaN` unless it is a numeral; the model never lets a
      string reach a numeric operation (`SubSides`, `ValuesAbove` and
      `ValuesBelow` give `Unmodelled` first), so the 0 given here is never
      observed. */
  function ToNumber(x: Elem): int
  {
    match x
    case Num(n) => n
    case Bool(b) => if b then 1 else 0
    case Null => 0
    case Str(_) => 0
  }

  /** `(a, b) => a + b`: a string on either side turns it into the
      concatenation of the two printed values, otherwise both are added as
      numbers. */
  function JsAdd(a: Elem, b: Elem): Elem
  {
    if a.Str? || b.Str? then Str(ElemText(a) + ElemText(b)) else Num(ToNumber(a) + ToNumber(b))
  }

  /** `(a, b) => a - b` on scalars that are not strings. */
  function JsSub(a: Elem, b: Elem): Elem { Num(ToNumber(a) - ToNumber(b)) }

  /** Some value of `vals` is a string. */
  predicate HasStr(vals: seq<Elem>)
  {
    exists i :: 0 <= i < |vals| && vals[i].Str?
  }

  /** `MSet.cross(left, right, (a, b) => a - b, DOUBLE)`: when a string is
      paired with a value the difference is `NaN`, which is not modelled. */
  function SubSides(left: Result<MSet>, right: Result<MSet>): (r: Result<MSet>)
    ensures r.Ok? ==> r == CrossSides(left, right, JsSub)
    ensures !CrossSides(left, right, JsSub).Ok? ==> r == CrossSides(left, right, JsSub)
  {
    var c := CrossSides(left, right, JsSub);
    if !c.Ok? then c
    else
      var xs := left.value.Enumerate(DOUBLE).value;
      if xs == [] then c
      else
        var ys := right.value.Enumerate(DOUBLE).value;
        if ys != [] && (HasStr(xs) || HasStr(ys)) then Unmodelled else c
  }

  /** `MSet.cross(left, right, op, DOUBLE)` after both sides were simplified,
      the left one first. */
  function CrossSides(left: Result<MSet>, right: Result<MSet>, op: (Elem, Elem) -> Elem): Result<MSet>
  {
    if !left.Ok? then left
    else if !right.Ok? then right
    else CrossOf(left.value, right.value, op, DOUBLE)
  }

  /** `simplify(expr)` for a tree without variables.  A `±Infinity` scalar
      and the `GTExpr` branch are not modelled. */
  function Simplify(e: Expr): (r: Result<MSet>)
    requires FindVar(e).None?
    ensures r.Ok? && (e.AddExpr? || e.SubExpr?) ==> r.value.ValSet? && NoDuplicates(r.value.vals)
  {
    match e
    case ValExpr(p) =>
      if p.SetVal? then Ok(p.members)
      else if p.Scalar? then Ok(ValSet([p.e]))
      else Unmodelled
    case TrueExpr => Ok(ValSet([Bool(true)]))
    case FalseExpr => Ok(ValSet([Bool(false)]))
    case AddExpr(l, r) => CrossSides(Simplify(l), Simplify(r), JsAdd)
    case SubExpr(l, r) => SubSides(Simplify(l), Simplify(r))
    case GTExpr(_, _) => Unmodelled
    case _ => Err("Unrecognized expr type when simplifying")
  }

  /** A tree of integer literals joined by `+` and `-`. */
  predicate IsConstArith(e: Expr)
  {
    match e
    case ValExpr(p) => p.Scalar? && p.e.Num?
    case AddExpr(l, r) => IsConstArith(l) && IsConstArith(r)
    case SubExpr(l, r) => IsConstArith(l) && IsConstArith(r)
    case _ => false
  }

  /** `cross` of two singletons is the singleton of the combined value. */
  lemma CrossSingletons(x: Elem, y: Elem, op: (Elem, Elem) -> Elem)
    ensures CrossOf(ValSet([x]), ValSet([y]), op, DOUBLE) == Ok(ValSet([op(x, y)]))
  {
    assert Pairs([x], [y], op) == Row(x, [y], op) + Pairs([], [y], op);
    assert Pairs([x], [y], op) == [op(x, y)];
    assert AddAll([], [op(x, y)]) == AddAll([op(x, y)], []);
  }

  lemma {:induction false} ConstArithHasNoVar(e: Expr)
    requires IsConstArith(e)
    ensures FindVar(e).None?
  {
    match e
    case ValExpr(p) =>
    case AddExpr(l, r) => ConstArithHasNoVar(l); ConstArithHasNoVar(r);
    case SubExpr(l, r) => ConstArithHasNoVar(l); ConstArithHasNoVar(r);
  }

  /** Two singleton sides combine into the singleton of the combined value. */
  lemma CrossSidesSingletons(x: Elem, y: Elem, op: (Elem, Elem) -> Elem)
    ensures CrossSides(Ok(ValSet([x])), Ok(ValSet([y])), op) == Ok(ValSet([op(x, y)]))
  {
    CrossSingletons(x, y, op);
  }

  /** Simplifying integer arithmetic folds it to the singleton of its value. */
  lemma {:induction false} SimplifyFoldsConstants(e: Expr, env: map<nat, int>)
    requires IsConstArith(e)
    ensures FindVar(e).None?
    ensures Simplify(e) == Ok(ValSet([Num(NumVal(e, env))]))
  {
    ConstArithHasNoVar(e);
    match e
    case ValExpr(p) =>
    case AddExpr(l, r) =>
      SimplifyFoldsConstants(l, env);
      SimplifyFoldsConstants(r, env);
      FoldAdd(e, env);
    case SubExpr(l, r) =>
      SimplifyFoldsConstants(l, env);
      SimplifyFoldsConstants(r, env);
      FoldSub(e, env);
  }

  /** The `+` step of the folding: two folded sides give their sum. */
  lemma FoldAdd(e: Expr, env: map<nat, int>)
    requires e.AddExpr? && FindVar(e.left).None? && FindVar(e.right).None?
    requires Simplify(e.left) == Ok(ValSet([Num(NumVal(e.left, env))]))
    requires Simplify(e.right) == Ok(ValSet([Num(NumVal(e.right, env))]))
    ensures FindVar(e).None? && Simplify(e) == Ok(ValSet([Num(NumVal(e, env))]))
  {
    CrossSidesSingletons(Num(NumVal(e.left, env)), Num(NumVal(e.right, env)), JsAdd);
  }

  /** The `-` step of the folding: two folded sides give their difference. */
  lemma FoldSub(e: Expr, env: map<nat, int>)
    requires e.SubExpr? && FindVar(e.left).None? && FindVar(e.right).None?
    requires Simplify(e.left) == Ok(ValSet([Num(NumVal(e.left, env))]))
    requires Simplify(e.right) == Ok(ValSet([Num(NumVal(e.right, env))]))
    ensures FindVar(e).None? && Simplify(e) == Ok(ValSet([Num(NumVal(e, env))]))
  {
    SubSidesSingletons(Num(NumVal(e.left, env)), Num(NumVal(e.right, env)));
  }

  /** Two singleton sides without strings give the singleton of their
      difference. */
  lemma SubSidesSingletons(x: Elem, y: Elem)
    requires !x.Str? && !y.Str?
    ensures SubSides(Ok(ValSet([x])), Ok(ValSet([y]))) == Ok(ValSet([JsSub(x, y)]))
  {
    CrossSidesSingletons(x, y, JsSub);
    assert !HasStr([x]) && !HasStr([y]);
  }

  /** A sum of two finite sets holds exactly the pairwise sums. */
  lemma SimplifyAddMembers(l: Expr, r: Expr, v: Elem)
    requires FindVar(AddExpr(l, r)).None?
    requires Simplify(l).Ok? && Simplify(r).Ok?
    requires Simplify(l).value.Finite(DOUBLE) && Simplify(r).value.Finite(DOUBLE)
    ensures Simplify(AddExpr(l, r)).Ok?
    ensures var xs, ys := Simplify(l).value.Enumerate(DOUBLE).value, Simplify(r).value.Enumerate(DOUBLE).value;
      v in Simplify(AddExpr(l, r)).value.vals <==>
      exists i, j :: 0 <= i < |xs| && 0 <= j < |ys| && v == JsAdd(xs[i], ys[j])
  {
    CrossMembers(Simplify(l).value, Simplify(r).value, JsAdd, DOUBLE, v);
  }

  /** A string literal on either side of `+` turns the sum into the
      concatenation of the printed values. */
  lemma SimplifyConcatenates(t: string, y: Elem)
    ensures Simplify(AddExpr(ValExpr(Scalar(Str(t))), ValExpr(Scalar(y)))) == Ok(ValSet([Str(t + ElemText(y))]))
    ensures Simplify(AddExpr(ValExpr(Scalar(y)), ValExpr(Scalar(Str(t))))) == Ok(ValSet([Str(ElemText(y) + t)]))
  {
    CrossSidesSingletons(Str(t), y, JsAdd);
    CrossSidesSingletons(y, Str(t), JsAdd);
  }

  /** A string literal on either side of `-` makes the difference `NaN`,
      which the model does not carry. */
  lemma SimplifySubString(t: string, y: Elem)
    ensures Simplify(SubExpr(ValExpr(Scalar(Str(t))), ValExpr(Scalar(y)))).Unmodelled?
    ensures Simplify(SubExpr(ValExpr(Scalar(y)), ValExpr(Scalar(Str(t))))).Unmodelled?
  {
    CrossSidesSingletons(Str(t), y, JsSub);
    CrossSidesSingletons(y, Str(t), JsSub);
    assert HasStr([Str(t)]) by { assert [Str(t)][0].Str?; }
  }

  /** Comparisons, logic and the operators without a set meaning throw. */
  lemma SimplifyRejects(l: Expr, r: Expr)
    requires FindVar(l).None? && FindVar(r).None?
    ensures Simplify(AndExpr(l, r)).Err? && Simplify(MultExpr(l, r)).Err?
    ensures Simplify(NegExpr(l)).Err? && Simplify(EQExpr(l, r)).Err?
  {
    assert FindVar(AndExpr(l, r)).None? && FindVar(MultExpr(l, r)).None?;
    assert FindVar(NegExpr(l)).None? && FindVar(EQExpr(l, r)).None?;
    assert Simplify(AndExpr(l, r)) == Err("Unrecognized expr type when simplifying");
    assert Simplify(MultExpr(l, r)) == Err("Unrecognized expr type when simplifying");
    assert Simplify(NegExpr(l)) == Err("Unrecognized expr type when simplifying");
  }

  // ---------------------------------------------------------------------
  // reduceExpr

  /** `Math.max(...vals)` on the numbers of `vals`; no values give `-Infinity`. */
  function MaxOf(vals: seq<Elem>): (m: ExtInt)
    ensures vals == [] <==> m == NegInf
    ensures forall i :: 0 <= i < |vals| ==> !Below(m, Fin(ToNumber(vals[i])))
    ensures vals != [] ==> exists i :: 0 <= i < |vals| && m == Fin(ToNumber(vals[i]))
  {
    if vals == [] then NegInf
    else
      var rest := MaxOf(vals[1..]);
      assert forall i :: 1 <= i < |vals| ==> vals[i] == vals[1..][i - 1];
      if rest.Fin? && rest.n > ToNumber(vals[0]) then rest else Fin(ToNumber(vals[0]))
  }

  /** `Math.min(...vals)`; no values give `Infinity`. */
  function MinOf(vals: seq<Elem>): (m: ExtInt)
    ensures vals == [] <==> m == PosInf
    ensures forall i :: 0 <= i < |vals| ==> !Below(Fin(ToNumber(vals[i])), m)
    ensures vals != [] ==> exists i :: 0 <= i < |vals| && m == Fin(ToNumber(vals[i]))
  {
    if vals == [] then PosInf
    else
      var rest := MinOf(vals[1..]);
      assert forall i :: 1 <= i < |vals| ==> vals[i] == vals[1..][i - 1];
      if rest.Fin? && rest.n < ToNumber(vals[0]) then rest else Fin(ToNumber(vals[0]))
  }

  /** The bound an `IntervalSet` receives from a scalar payload: integers and
      `±Infinity`; other scalars are compared by JavaScript coercion, which is
      not modelled. */
  function ScalarBound(p: Payload<MSet>): Result<ExtInt>
  {
    match p
    case Scalar(x) => if x.Num? then Ok(Fin(x.n)) else Unmodelled
    case Infinity(positive) => Ok(if positive then PosInf else NegInf)
    case _ => Unmodelled
  }

  /** The values strictly above the other side of the comparison: above the
      largest value of a finite set, or above a scalar; everything when the
      other side is not a value or is an infinite set. */
  function ValuesAbove(side: Expr, domain: Domain): Result<MSet>
  {
    if !side.IsVal() then Ok(UniversalSet(domain))
    else
      var p := ValOf(side);
      if p.SetVal? then
        if p.members.Finite(domain) then
          if HasStr(p.members.Enumerate(domain).value) then Unmodelled
          else Ok(NewInterval(MaxOf(p.members.Enumerate(domain).value), PosInf))
        else Ok(UniversalSet(domain))
      else
        var b := ScalarBound(p);
        if b.Ok? then Ok(NewInterval(b.value, PosInf)) else Unmodelled
  }

  /** The values strictly below the other side of the comparison. */
  function ValuesBelow(side: Expr, domain: Domain): Result<MSet>
  {
    if !side.IsVal() then Ok(UniversalSet(domain))
    else
      var p := ValOf(side);
      if p.SetVal? then
        if p.members.Finite(domain) then
          if HasStr(p.members.Enumerate(domain).value) then Unmodelled
          else Ok(NewInterval(NegInf, MinOf(p.members.Enumerate(domain).value)))
        else Ok(UniversalSet(domain))
      else
        var b := ScalarBound(p);
        if b.Ok? then Ok(NewInterval(NegInf, b.value)) else Unmodelled
  }

  /** `reduceExpr(expr)`: a comparison between the first variable and the
      other side becomes the set of values the variable may take, in the
      variable's own data type. */
  function ReduceExpr(e: Expr): (r: Result<MSet>)
    ensures r.Ok? ==> r.value.UniversalSet? || (r.value.IntervalSet? && r.value.lox && r.value.hix)
  {
    var v := FindVar(e);
    if v.None? then Err("Cannot read properties of null (reading 'val')")
    else
      var domain := v.value.val.ref.domain;
      if e.GTExpr? then
        if IsVarLeaf(e.left) then ValuesAbove(e.right, domain) else ValuesBelow(e.left, domain)
      else if e.LTExpr? then
        if IsVarLeaf(e.left) then ValuesBelow(e.right, domain) else ValuesAbove(e.left, domain)
      else Err("Unrecognized expr type when reducing")
  }

  /** `x > c` reduces to the open interval above `c`, which holds exactly the
      integers greater than `c`; `x < c` to the one below it. */
  lemma ReduceExprConstant(x: Ref, c: int, y: int)
    ensures ReduceExpr(GTExpr(ValExpr(VarRef(x)), ValExpr(Scalar(Num(c))))) == Ok(IntervalSet(Fin(c), PosInf, true, true))
    ensures ReduceExpr(LTExpr(ValExpr(VarRef(x)), ValExpr(Scalar(Num(c))))) == Ok(IntervalSet(NegInf, Fin(c), true, true))
    ensures InInterval(y, IntervalSet(Fin(c), PosInf, true, true)) <==> y > c
    ensures InInterval(y, IntervalSet(NegInf, Fin(c), true, true)) <==> y < c
  {
    var v := ValExpr(VarRef(x));
    assert FindVar(GTExpr(v, ValExpr(Scalar(Num(c))))) == Some(v);
    assert FindVar(LTExpr(v, ValExpr(Scalar(Num(c))))) == Some(v);
  }

  /** The largest value is below `y` exactly when every value is. */
  lemma MaxOfBelow(vals: seq<Elem>, y: int)
    ensures Below(MaxOf(vals), Fin(y)) <==> forall i :: 0 <= i < |vals| ==> ToNumber(vals[i]) < y
  {
    if vals != [] {
      var i :| 0 <= i < |vals| && MaxOf(vals) == Fin(ToNumber(vals[i]));
    }
  }

  /** The smallest value is above `y` exactly when every value is. */
  lemma MinOfAbove(vals: seq<Elem>, y: int)
    ensures Below(Fin(y), MinOf(vals)) <==> forall i :: 0 <= i < |vals| ==> y < ToNumber(vals[i])
  {
    if vals != [] {
      var i :| 0 <= i < |vals| && MinOf(vals) == Fin(ToNumber(vals[i]));
    }
  }

  /** `x > S` for a finite set `S` holds exactly the integers above every
      value of `S`; a string among them makes the bound `NaN`, which is not
      modelled. */
  lemma ReduceExprAboveSet(x: Ref, tag: nat, s: MSet, y: int)
    requires s.Finite(x.domain)
    ensures HasStr(s.Enumerate(x.domain).value) <==> ReduceExpr(GTExpr(ValExpr(VarRef(x)), ValExpr(SetVal(tag, s)))).Unmodelled?
    ensures !HasStr(s.Enumerate(x.domain).value) ==> ReduceExpr(GTExpr(ValExpr(VarRef(x)), ValExpr(SetVal(tag, s)))).Ok?
    ensures ReduceExpr(GTExpr(ValExpr(VarRef(x)), ValExpr(SetVal(tag, s)))).Ok? ==> ReduceExpr(GTExpr(ValExpr(VarRef(x)), ValExpr(SetVal(tag, s)))).value.IntervalSet?
    ensures ReduceExpr(GTExpr(ValExpr(VarRef(x)), ValExpr(SetVal(tag, s)))).Ok? ==> (InInterval(y, ReduceExpr(GTExpr(ValExpr(VarRef(x)), ValExpr(SetVal(tag, s)))).value) <==>
      forall v :: v in s.Enumerate(x.domain).value ==> ToNumber(v) < y)
  {
    var v := ValExpr(VarRef(x));
    assert FindVar(GTExpr(v, ValExpr(SetVal(tag, s)))) == Some(v);
    var vals := s.Enumerate(x.domain).value;
    var r := ReduceExpr(GTExpr(v, ValExpr(SetVal(tag, s))));
    if HasStr(vals) {
      assert r == Unmodelled;
    } else {
      MaxOfBelow(vals, y);
      var iv := NewInterval(MaxOf(vals), PosInf);
      assert r == Ok(iv);
      assert InInterval(y, r.value) <==> Below(MaxOf(vals), Fin(y));
    }
  }

  /** `S > x` for a finite set `S` holds exactly the integers below every
      value of `S`; a string among them is not modelled. */
  lemma ReduceExprBelowSet(x: Ref, tag: nat, s: MSet, y: int)
    requires s.Finite(x.domain)
    ensures HasStr(s.Enumerate(x.domain).value) <==> ReduceExpr(GTExpr(ValExpr(SetVal(tag, s)), ValExpr(VarRef(x)))).Unmodelled?
    ensures !HasStr(s.Enumerate(x.domain).value) ==> ReduceExpr(GTExpr(ValExpr(SetVal(tag, s)), ValExpr(VarRef(x)))).Ok?
    ensures ReduceExpr(GTExpr(ValExpr(SetVal(tag, s)), ValExpr(VarRef(x)))).Ok? ==> ReduceExpr(GTExpr(ValExpr(SetVal(tag, s)), ValExpr(VarRef(x)))).value.IntervalSet?
    ensures ReduceExpr(GTExpr(ValExpr(SetVal(tag, s)), ValExpr(VarRef(x)))).Ok? ==> (InInterval(y, ReduceExpr(GTExpr(ValExpr(SetVal(tag, s)), ValExpr(VarRef(x)))).value) <==>
      forall v :: v in s.Enumerate(x.domain).value ==> y < ToNumber(v))
  {
    var v := ValExpr(VarRef(x));
    assert FindVar(GTExpr(ValExpr(SetVal(tag, s)), v)) == Some(v);
    var vals := s.Enumerate(x.domain).value;
    var r := ReduceExpr(GTExpr(ValExpr(SetVal(tag, s)), v));
    if HasStr(vals) {
      assert r == Unmodelled;
    } else {
      MinOfAbove(vals, y);
      var iv := NewInterval(NegInf, MinOf(vals));
      assert r == Ok(iv);
      assert InInterval(y, r.value) <==> Below(Fin(y), MinOf(vals));
    }
  }

  /** When the other side is not a value, or is an infinite set, nothing is
      excluded: the result is the variable's universal set. */
  lemma ReduceExprUnconstrained(x: Ref, other: Expr, tag: nat, s: MSet)
    requires !other.IsVal() && FindVar(other).None?
    requires !s.Finite(x.domain)
    ensures ReduceExpr(GTExpr(ValExpr(VarRef(x)), other)) == Ok(UniversalSet(x.domain))
    ensures ReduceExpr(LTExpr(other, ValExpr(VarRef(x)))) == Ok(UniversalSet(x.domain))
    ensures ReduceExpr(GTExpr(ValExpr(VarRef(x)), ValExpr(SetVal(tag, s)))) == Ok(UniversalSet(x.domain))
  {
    var v := ValExpr(VarRef(x));
    assert FindVar(GTExpr(v, other)) == Some(v);
    assert FindVar(LTExpr(other, v)) == Some(v);
    assert FindVar(GTExpr(v, ValExpr(SetVal(tag, s)))) == Some(v);
  }

  /** `a > b` and `b < a` reduce to the same set when exactly one side is
      the variable and the other side has none. */
  lemma ReduceExprMirror(a: Expr, b: Expr)
    requires (IsVarLeaf(a) && FindVar(b).None?) || (IsVarLeaf(b) && FindVar(a).None?)
    ensures ReduceExpr(GTExpr(a, b)) == ReduceExpr(LTExpr(b, a))
  {
    if IsVarLeaf(a) && FindVar(b).None? {
      assert FindVar(GTExpr(a, b)) == FindVar(a) == FindVar(LTExpr(b, a)) == Some(a);
      var d := a.val.ref.domain;
      assert ReduceExpr(GTExpr(a, b)) == ValuesAbove(b, d) == ReduceExpr(LTExpr(b, a));
    } else {
      assert FindVar(GTExpr(a, b)) == FindVar(b) == FindVar(LTExpr(b, a)) == Some(b);
      var d := b.val.ref.domain;
      assert !IsVarLeaf(a);
      assert ReduceExpr(GTExpr(a, b)) == ValuesBelow(a, d) == ReduceExpr(LTExpr(b, a));
    }
  }

  /** Only `>` and `<` reduce; a tree without a variable throws. */
  lemma ReduceExprRejects(x: Ref, l: Expr, r: Expr)
    ensures ReduceExpr(EQExpr(ValExpr(VarRef(x)), r)) == Err("Unrecognized expr type when reducing")
    ensures FindVar(l).None? && FindVar(r).None? ==> ReduceExpr(GTExpr(l, r)).Err?
  {
    var v := ValExpr(VarRef(x));
    assert FindVar(EQExpr(v, r)) == Some(v);
  }

  // ---------------------------------------------------------------------
  // reduceSet

  /** The running bounds of the interval intersection in `reduceSet`. */
  datatype Bounds = Bounds(lo: ExtInt, hi: ExtInt, lox: bool, hix: bool)

  /** The initial bounds: `(-Infinity, Infinity)`. */
  const Unbounded := Bounds(NegInf, PosInf, true, true)

  function ToInterval(b: Bounds): (s: MSet)
    ensures s.IntervalSet?
  {
    IntervalSet(b.lo, b.hi, b.lox, b.hix)
  }

  /** One step of the `forEach` as written: a strictly larger lower bound (a
      strictly smaller upper bound) replaces the running one together with its
      flag, and an equal bound changes nothing. */
  function StepAsWritten(b: Bounds, s: MSet): (r: Bounds)
    requires s.IntervalSet?
    ensures !Below(r.lo, b.lo) && !Below(r.lo, s.lo) && !Below(b.hi, r.hi) && !Below(s.hi, r.hi)
    ensures (r.lo == b.lo && r.lox == b.lox) || (r.lo == s.lo && r.lox == s.lox)
    ensures (r.hi == b.hi && r.hix == b.hix) || (r.hi == s.hi && r.hix == s.hix)
    ensures b.lo == s.lo ==> r.lox == b.lox
    ensures b.hi == s.hi ==> r.hix == b.hix
  {
    Bounds(if Below(b.lo, s.lo) then s.lo else b.lo,
           if Below(s.hi, b.hi) then s.hi else b.hi,
           if Below(b.lo, s.lo) then s.lox else b.lox,
           if Below(s.hi, b.hi) then s.hix else b.hix)
  }

  /** The step with ties resolved: on an equal bound the end becomes
      exclusive if either interval excludes it. */
  function Step(b: Bounds, s: MSet): Bounds
    requires s.IntervalSet?
  {
    Bounds(if Below(b.lo, s.lo) then s.lo else b.lo,
           if Below(s.hi, b.hi) then s.hi else b.hi,
           if Below(b.lo, s.lo) then s.lox else if b.lo == s.lo then b.lox || s.lox else b.lox,
           if Below(s.hi, b.hi) then s.hix else if b.hi == s.hi then b.hix || s.hix else b.hix)
  }

  predicate AllIntervals(sets: seq<MSet>)
  {
    forall i :: 0 <= i < |sets| ==> sets[i].IntervalSet?
  }

  function FoldAsWritten(sets: seq<MSet>): Bounds
    requires AllIntervals(sets)
  {
    if sets == [] then Unbounded
    else StepAsWritten(FoldAsWritten(sets[..|sets| - 1]), sets[|sets| - 1])
  }

  function Fold(sets: seq<MSet>): Bounds
    requires AllIntervals(sets)
  {
    if sets == [] then Unbounded
    else Step(Fold(sets[..|sets| - 1]), sets[|sets| - 1])
  }

  /** The intersection as written keeps the first member's flag on a tie, so
      `[1, ∞) ∩ (1, ∞)` comes out as `[1, ∞)`, which holds 1. */
  lemma IntersectionFlagCounterexample()
    ensures var sets := [IntervalSet(Fin(1), PosInf, false, true), IntervalSet(Fin(1), PosInf, true, true)];
      AllIntervals(sets) &&
      FoldAsWritten(sets) == Bounds(Fin(1), PosInf, false, true) &&
      InInterval(1, ToInterval(FoldAsWritten(sets))) && !InInterval(1, sets[1])
  {
    var sets := [IntervalSet(Fin(1), PosInf, false, true), IntervalSet(Fin(1), PosInf, true, true)];
    assert sets[..1][..0] == [];
    assert FoldAsWritten(sets[..1]) == Bounds(Fin(1), PosInf, false, true);
  }

  /** One corrected step intersects the running bounds with the member. */
  lemma StepIsIntersection(b: Bounds, s: MSet, x: int)
    requires s.IntervalSet?
    ensures InInterval(x, ToInterval(Step(b, s))) <==> InInterval(x, ToInterval(b)) && InInterval(x, s)
  {
  }

  /** The corrected fold holds exactly the integers every member holds. */
  lemma {:induction false} FoldIsIntersection(sets: seq<MSet>, x: int)
    requires AllIntervals(sets)
    ensures InInterval(x, ToInterval(Fold(sets))) <==> forall i :: 0 <= i < |sets| ==> InInterval(x, sets[i])
  {
    if sets != [] {
      var init := sets[..|sets| - 1];
      FoldIsIntersection(init, x);
      StepIsIntersection(Fold(init), sets[|sets| - 1], x);
      assert forall i :: 0 <= i < |init| ==> init[i] == sets[i];
    }
  }

  /** `sets.filter((set) => !(set instanceof UniversalSet))`. */
  function WithoutUniversal(sets: seq<MSet>): (r: seq<MSet>)
    ensures forall s :: s in r <==> s in sets && !s.UniversalSet?
  {
    if sets == [] then []
    else (if sets[0].UniversalSet? then [] else [sets[0]]) + WithoutUniversal(sets[1..])
  }

  /** Members whose bounds tie carry the same flag on that bound, as the
      open intervals the expression reducer builds do. */
  predicate TiesAgree(sets: seq<MSet>)
  {
    forall i, j :: 0 <= i < |sets| && 0 <= j < |sets| && sets[i].IntervalSet? && sets[j].IntervalSet? ==>
      (sets[i].lo == sets[j].lo ==> sets[i].lox == sets[j].lox) &&
      (sets[i].hi == sets[j].hi ==> sets[i].hix == sets[j].hix)
  }

  /** Intervals built with both ends exclusive, as `new IntervalSet(lo, hi)`
      builds them, always agree on tied bounds. */
  lemma OpenIntervalsTiesAgree(sets: seq<MSet>)
    requires forall i :: 0 <= i < |sets| && sets[i].IntervalSet? ==> sets[i].lox && sets[i].hix
    ensures TiesAgree(sets)
  {
  }

  /** Every running bound of the fold as written is the initial infinite one
      or some member's bound, with that member's flag. */
  lemma {:induction false} FoldOrigin(sets: seq<MSet>)
    requires AllIntervals(sets)
    ensures var b := FoldAsWritten(sets);
      ((b.lo == NegInf && b.lox) || exists k :: 0 <= k < |sets| && sets[k].lo == b.lo && sets[k].lox == b.lox) &&
      ((b.hi == PosInf && b.hix) || exists k :: 0 <= k < |sets| && sets[k].hi == b.hi && sets[k].hix == b.hix)
  {
    if sets != [] {
      var init := sets[..|sets| - 1];
      var last := |sets| - 1;
      FoldOrigin(init);
      var b := FoldAsWritten(init);
      if !Below(b.lo, sets[last].lo) && !(b.lo == NegInf && b.lox) {
        var k :| 0 <= k < |init| && init[k].lo == b.lo && init[k].lox == b.lox;
        assert sets[k] == init[k];
      }
      if !Below(sets[last].hi, b.hi) && !(b.hi == PosInf && b.hix) {
        var k :| 0 <= k < |init| && init[k].hi == b.hi && init[k].hix == b.hix;
        assert sets[k] == init[k];
      }
    }
  }

  /** The two steps differ only on a tie whose member excludes a bound the
      running interval includes. */
  lemma StepsAgree(b: Bounds, s: MSet)
    requires s.IntervalSet?
    requires b.lo == s.lo && s.lox ==> b.lox
    requires b.hi == s.hi && s.hix ==> b.hix
    ensures StepAsWritten(b, s) == Step(b, s)
  {
  }

  /** When tied bounds agree on their flags, the fold as written is the
      corrected one. */
  lemma {:induction false} FoldsAgree(sets: seq<MSet>)
    requires AllIntervals(sets) && TiesAgree(sets)
    ensures FoldAsWritten(sets) == Fold(sets)
  {
    if sets != [] {
      var init := sets[..|sets| - 1];
      var last := |sets| - 1;
      assert forall k :: 0 <= k < |init| ==> init[k] == sets[k];
      FoldsAgree(init);
      FoldOrigin(init);
      var b := FoldAsWritten(init);
      if b.lo == sets[last].lo && !(b.lo == NegInf && b.lox) {
        var k :| 0 <= k < |init| && init[k].lo == b.lo && init[k].lox == b.lox;
        assert sets[k].lox == sets[last].lox;
      }
      if b.hi == sets[last].hi && !(b.hi == PosInf && b.hix) {
        var k :| 0 <= k < |init| && init[k].hi == b.hi && init[k].hix == b.hix;
        assert sets[k].hix == sets[last].hix;
      }
      StepsAgree(b, sets[last]);
    }
  }

  /** `reduceSet(new IntervalSet(...), domain)`: enumerate when finite. */
  function ReduceInterval(s: MSet, domain: Domain): (r: Result<MSet>)
    requires s.IntervalSet?
    ensures r.Ok?
  {
    if s.Finite(domain) then Ok(ValSet(s.Enumerate(domain).value)) else Ok(s)
  }

  /** `reduceSet(set, domain)`, with the interval intersection folded as
      written. */
  function ReduceSetOf(s: MSet, domain: Domain): (r: Result<MSet>)
  {
    if s.ValSet? then Ok(s)
    else if s.IntersectionSet? && s.Finite(domain) then Ok(ValSet(s.Enumerate(domain).value))
    else if s.IntersectionSet? && AllIntervals(WithoutUniversal(s.sets)) then
      ReduceInterval(ToInterval(FoldAsWritten(WithoutUniversal(s.sets))), domain)
    else if s.UnionSet? && s.Finite(domain) then Ok(ValSet(s.Enumerate(domain).value))
    else if s.IntervalSet? then ReduceInterval(s, domain)
    else if s.ExprSet? then Ok(s)
    else Err("Reducing unknown set")
  }

  /** `reduceSet`; the `forEach` updates the running bounds in place over
      the non-universal members, keeping the running flag on a tie. */
  method ReduceSet(s: MSet, domain: Domain) returns (r: Result<MSet>)
    ensures r == ReduceSetOf(s, domain)
  {
    if s.ValSet? {
      return Ok(s);
    }
    if s.IntersectionSet? {
      if s.Finite(domain) {
        return Ok(ValSet(s.Enumerate(domain).value));
      }
      var sets := WithoutUniversal(s.sets);
      if forall i :: 0 <= i < |sets| ==> sets[i].IntervalSet? {
        var b := Unbounded;
        var i := 0;
        while i < |sets|
          invariant 0 <= i <= |sets|
          invariant b == FoldAsWritten(sets[..i])
        {
          assert sets[..i + 1][..i] == sets[..i];
          b := StepAsWritten(b, sets[i]);
          i := i + 1;
        }
        assert sets[..i] == sets;
        return ReduceInterval(ToInterval(b), domain);
      }
    }
    if s.UnionSet? && s.Finite(domain) {
      return Ok(ValSet(s.Enumerate(domain).value));
    }
    if s.IntervalSet? {
      return ReduceInterval(s, domain);
    }
    if s.ExprSet? {
      return Ok(s);
    }
    return Err("Reducing unknown set");
  }

  /** An infinite intersection of intervals and universal sets whose tied
      bounds agree on their flags reduces to the interval holding exactly the
      integers every non-universal member holds, or to its enumeration when
      that is finite. */
  lemma ReduceSetIntersection(s: MSet, domain: Domain, x: int)
    requires s.IntersectionSet? && !s.Finite(domain)
    requires forall i :: 0 <= i < |s.sets| && !s.sets[i].UniversalSet? ==> s.sets[i].IntervalSet?
    requires TiesAgree(s.sets)
    ensures var r := ReduceSetOf(s, domain);
      var all := forall i :: 0 <= i < |s.sets| && !s.sets[i].UniversalSet? ==> InInterval(x, s.sets[i]);
      r.Ok? &&
      (r.value.IntervalSet? ==> (InInterval(x, r.value) <==> all)) &&
      (r.value.ValSet? ==> (Num(x) in r.value.vals <==> all))
  {
    var sets := WithoutUniversal(s.sets);
    assert AllIntervals(sets) by {
      forall i | 0 <= i < |sets| ensures sets[i].IntervalSet? {
        assert sets[i] in sets;
      }
    }
    assert TiesAgree(sets) by {
      forall i, j | 0 <= i < |sets| && 0 <= j < |sets| && sets[i].IntervalSet? && sets[j].IntervalSet?
        ensures (sets[i].lo == sets[j].lo ==> sets[i].lox == sets[j].lox) &&
                (sets[i].hi == sets[j].hi ==> sets[i].hix == sets[j].hix)
      {
        assert sets[i] in sets && sets[j] in sets;
        var i' :| 0 <= i' < |s.sets| && s.sets[i'] == sets[i];
        var j' :| 0 <= j' < |s.sets| && s.sets[j'] == sets[j];
      }
    }
    FoldsAgree(sets);
    var iv := ToInterval(Fold(sets));
    FoldIsIntersection(sets, x);
    if iv.Finite(domain) {
      IntervalEnumeration(iv, domain, x);
    }
    var all := forall i :: 0 <= i < |s.sets| && !s.sets[i].UniversalSet? ==> InInterval(x, s.sets[i]);
    assert all <==> forall i :: 0 <= i < |sets| ==> InInterval(x, sets[i]) by {
      if all {
        forall i | 0 <= i < |sets| ensures InInterval(x, sets[i]) {
          assert sets[i] in sets;
          var j :| 0 <= j < |s.sets| && s.sets[j] == sets[i];
        }
      }
      if forall i :: 0 <= i < |sets| ==> InInterval(x, sets[i]) {
        forall i | 0 <= i < |s.sets| && !s.sets[i].UniversalSet? ensures InInterval(x, s.sets[i]) {
          assert s.sets[i] in sets;
          var j :| 0 <= j < |sets| && sets[j] == s.sets[i];
        }
      }
    }
  }

  /** The empty and the universal set, an infinite union and an infinite
      intersection with a member that is neither an interval nor universal
      cannot be reduced. */
  lemma ReduceSetRejects(d: Domain, domain: Domain, e: Expr)
    ensures ReduceSetOf(EmptySet, domain) == Err("Reducing unknown set")
    ensures ReduceSetOf(UniversalSet(d), domain) == Err("Reducing unknown set")
    ensures ReduceSetOf(UnionSet([UniversalSet(d)]), domain) == Err("Reducing unknown set")
    ensures ReduceSetOf(IntersectionSet([UniversalSet(d), ExprSet(e, None)]), domain) == Err("Reducing unknown set")
  {
    var mixed := [UniversalSet(d), ExprSet(e, None)];
    assert ExprSet(e, None) in WithoutUniversal(mixed);
    assert !IntersectionSet(mixed).Finite(domain) by {
      assert forall i :: 0 <= i < |mixed| ==> !mixed[i].Finite(domain);
    }
    assert !UnionSet([UniversalSet(d)]).Finite(domain) by {
      assert !UnionSet([UniversalSet(d)]).sets[0].Finite(domain);
    }
  }

  // ---------------------------------------------------------------------
  // serialize

  /** `${v}` for a scalar. */
  function ElemText(x: Elem): string
  {
    match x
    case Num(n) => TextUtils.IntToString(n)
    case Bool(b) => if b then "true" else "false"
    case Null => "null"
    case Str(t) => t
  }

  /** `vals.join(', ')`: `null` is printed as the empty string. */
  function JoinElems(vals: seq<Elem>): string
  {
    if vals == [] then ""
    else
      var head := if vals[0].Null? then "" else ElemText(vals[0]);
      if |vals| == 1 then head else head + ", " + JoinElems(vals[1..])
  }

  /** `${bound}` for an interval bound. */
  function BoundText(x: ExtInt): string
  {
    match x
    case NegInf => "-Infinity"
    case Fin(n) => TextUtils.IntToString(n)
    case PosInf => "Infinity"
  }

  /** The separator `serialize` puts between conjuncts and disjuncts alike. */
  const Separator := " \U{2277} "

  /** `serialize(set)`. */
  function SerializeSet(s: MSet): Result<string>
    decreases s, 1
  {
    if s.Finite(DOUBLE) then
      var vals := s.Enumerate(DOUBLE).value;
      if |vals| == 1 then Ok(ElemText(vals[0])) else Ok("{" + JoinElems(vals) + "}")
    else if s.IntervalSet? then
      Ok((if s.lox then "(" else "[") + BoundText(s.lo) + ", " + BoundText(s.hi) + (if s.hix then ")" else "]"))
    else if s.ExprSet? then
      var v := FindVar(s.expr);
      if v.None? then Err("Cannot read properties of null (reading 'val')")
      else
        var body := SerializeExpr(s.expr);
        if body.Ok? then Ok("{ " + v.value.val.ref.name + " | " + body.value + " }") else body
    else Ok("Unrecognized Set")
  }

  /** `(${serialize(l)} op ${serialize(r)})`, the left side printed first. */
  function Infix(l: Result<string>, op: string, r: Result<string>): Result<string>
  {
    if !l.Ok? then l else if !r.Ok? then r else Ok("(" + l.value + " " + op + " " + r.value + ")")
  }

  /** `serialize(expr)`.  A scalar payload (and so `TrueExpr` and
      `FalseExpr`) reaches the final `else` and throws. */
  function SerializeExpr(e: Expr): Result<string>
    decreases e, 1
  {
    match e
    case ValExpr(p) =>
      if p.VarRef? then Ok(p.ref.name)
      else if p.SetVal? then SerializeSet(p.members)
      else Err("Unrecognized expr type when serializing")
    case TrueExpr => Err("Unrecognized expr type when serializing")
    case FalseExpr => Err("Unrecognized expr type when serializing")
    case NegExpr(x) =>
      var inner := SerializeExpr(x);
      if inner.Ok? then Ok("~(" + inner.value + ")") else inner
    case AndExpr(_, _) =>
      var joined := JoinSpine(e, And);
      if joined.Ok? then Ok("(" + joined.value + ")") else joined
    case OrExpr(_, _) =>
      var joined := JoinSpine(e, Or);
      if joined.Ok? then Ok("(" + joined.value + ")") else joined
    case EQExpr(l, r) => Infix(SerializeExpr(l), "=", SerializeExpr(r))
    case LTExpr(l, r) => Infix(SerializeExpr(l), "<", SerializeExpr(r))
    case GTExpr(l, r) => Infix(SerializeExpr(l), ">", SerializeExpr(r))
    case AddExpr(l, r) => Infix(SerializeExpr(l), "+", SerializeExpr(r))
    case SubExpr(l, r) => Infix(SerializeExpr(l), "-", SerializeExpr(r))
    case MultExpr(l, r) => Infix(SerializeExpr(l), "\U{D7}", SerializeExpr(r))
    case DivExpr(l, r) => Infix(SerializeExpr(l), "\U{F7}", SerializeExpr(r))
    case RemExpr(l, r) => Infix(SerializeExpr(l), "%", SerializeExpr(r))
  }

  /** The printed operands of a `k`-spine joined by the separator: what
      `collate(expr, Expr).map(serialize).join(' ≷ ')` computes. */
  function JoinSpine(e: Expr, k: BinKind): Result<string>
    requires IsKind(e, k)
    decreases e, 0
  {
    var l := if IsKind(e.left, k) then JoinSpine(e.left, k) else SerializeExpr(e.left);
    if !l.Ok? then l
    else
      var r := if IsKind(e.right, k) then JoinSpine(e.right, k) else SerializeExpr(e.right);
      if !r.Ok? then r else Ok(l.value + Separator + r.value)
  }

  /** `xs.map(serialize)`: the first failure is the one thrown. */
  function SerializeAll(xs: seq<Expr>): (r: Result<seq<string>>)
    ensures r.Ok? ==> |r.value| == |xs|
  {
    if xs == [] then Ok([])
    else
      var h := SerializeExpr(xs[0]);
      if h.Err? then Err(h.message) else if h.Unmodelled? then Unmodelled
      else
        var t := SerializeAll(xs[1..]);
        if t.Ok? then Ok([h.value] + t.value) else t
  }

  function Join(parts: seq<string>, sep: string): string
  {
    if parts == [] then "" else if |parts| == 1 then parts[0] else parts[0] + sep + Join(parts[1..], sep)
  }

  /** `.join(' ≷ ')` of the printed operands, or the failure thrown first. */
  function JoinOf(r: Result<seq<string>>): Result<string>
  {
    match r
    case Ok(parts) => Ok(Join(parts, Separator))
    case Err(m) => Err(m)
    case Unmodelled => Unmodelled
  }

  lemma {:induction false} SerializeAllAppend(a: seq<Expr>, b: seq<Expr>)
    ensures SerializeAll(a + b) ==
      (var ra := SerializeAll(a);
       if !ra.Ok? then ra
       else var rb := SerializeAll(b); if !rb.Ok? then rb else Ok(ra.value + rb.value))
  {
    if a == [] {
      assert a + b == b;
      if SerializeAll(b).Ok? {
        assert [] + SerializeAll(b).value == SerializeAll(b).value;
      }
    } else {
      assert (a + b)[0] == a[0] && (a + b)[1..] == a[1..] + b;
      SerializeAllAppend(a[1..], b);
      var h, ra, rb := SerializeExpr(a[0]), SerializeAll(a[1..]), SerializeAll(b);
      if h.Ok? && ra.Ok? && rb.Ok? {
        assert [h.value] + (ra.value + rb.value) == ([h.value] + ra.value) + rb.value;
      }
    }
  }

  lemma {:induction false} JoinAppend(a: seq<string>, b: seq<string>, sep: string)
    requires a != [] && b != []
    ensures Join(a + b, sep) == Join(a, sep) + sep + Join(b, sep)
  {
    if |a| == 1 {
      assert (a + b)[0] == a[0] && (a + b)[1..] == b;
    } else {
      assert (a + b)[0] == a[0] && (a + b)[1..] == a[1..] + b;
      JoinAppend(a[1..], b, sep);
    }
  }

  /** Printing an `And` (`Or`) spine is printing the operands `collate`
      returns, in order, joined by the separator; the first operand that
      cannot be printed decides the failure. */
  lemma {:induction false} JoinSpineIsCollateJoin(e: Expr, k: BinKind)
    requires k == And || k == Or
    ensures JoinOf(SerializeAll(Collate(e, k))) == (if IsKind(e, k) then JoinSpine(e, k) else SerializeExpr(e))
  {
    if IsKind(e, k) {
      JoinSpineIsCollateJoin(e.left, k);
      JoinSpineIsCollateJoin(e.right, k);
      var a, b := Collate(e.left, k), Collate(e.right, k);
      SerializeAllAppend(a, b);
      if SerializeAll(a).Ok? && SerializeAll(b).Ok? {
        JoinAppend(SerializeAll(a).value, SerializeAll(b).value, Separator);
      }
    } else {
      assert [e][1..] == [];
    }
  }

  /** A finite set with one value prints that value bare; any other finite
      set prints its values in braces. */
  lemma SerializeFiniteSet(s: MSet)
    requires s.Finite(DOUBLE)
    ensures var vals := s.Enumerate(DOUBLE).value;
      var r := SerializeSet(s);
      r.Ok? &&
      (|vals| == 1 ==> r.value == ElemText(vals[0])) &&
      (|vals| != 1 ==> r.value[0] == '{' && r.value[|r.value| - 1] == '}')
  {
  }

  /** An interval opens with `(` exactly when its lower end is exclusive and
      closes with `)` exactly when its upper end is. */
  lemma SerializeIntervalBrackets(lo: ExtInt, hi: ExtInt, lox: bool, hix: bool)
    ensures var r := SerializeSet(IntervalSet(lo, hi, lox, hix));
      r.Ok? && |r.value| >= 2 &&
      (r.value[0] == '(' <==> lox) && (r.value[0] == '[' <==> !lox) &&
      (r.value[|r.value| - 1] == ')' <==> hix) && (r.value[|r.value| - 1] == ']' <==> !hix)
  {
  }

  /** Conjunction and disjunction print the same separator, so a conjunction
      and a disjunction of the same operands print alike. */
  lemma SerializeAndOrAlike(a: Expr, b: Expr)
    requires !IsKind(a, And) && !IsKind(a, Or) && !IsKind(b, And) && !IsKind(b, Or)
    ensures SerializeExpr(AndExpr(a, b)) == SerializeExpr(OrExpr(a, b))
  {
    assert IsKind(AndExpr(a, b), And) && IsKind(OrExpr(a, b), Or);
  }

  /** `TrueExpr`, `FalseExpr` and scalar leaves cannot be printed: their
      payload reaches the last branch and throws. */
  lemma SerializeScalarsThrow(x: Elem)
    ensures SerializeExpr(TrueExpr) == Err("Unrecognized expr type when serializing")
    ensures SerializeExpr(FalseExpr) == Err("Unrecognized expr type when serializing")
    ensures SerializeExpr(ValExpr(Scalar(x))) == Err("Unrecognized expr type when serializing")
  {
  }
}
