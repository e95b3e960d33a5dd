/** The immutable expression trees of the constraint analyzer, and their
    structural `eq`.

    The expression classes are generic here in `S`, the type of a set-valued
    payload, so that the set algebra can hold expressions and expressions can
    hold sets without the two modules depending on each other. */
module MathExpr {

  /** A compiler `DataType` as the analyzer consults it: its identity (the
      name) and whether it is integral. */
  datatype Domain = Domain(name: string, integral: bool)

  /** `DataType.PRIMITIVES.DOUBLE`, the domain the analyzer simplifies in. */
  const DOUBLE := Domain("double", false)

  /** A `VariableRefValue` or `ForIndexRefValue`: `block` is the identity of
      the ref object itself, `master` that of its declaring block, `name` the
      master's name and `domain` its data type. */
  datatype Ref = Ref(block: nat, master: nat, name: string, domain: Domain)

  /** A scalar JavaScript value held by a `ValExpr` or a `ValSet`: the
      primitives a literal block may carry. */
  datatype Elem = Num(n: int) | Bool(b: bool) | Null | Str(s: string)

  /** What a `ValExpr` may carry: a scalar, `±Infinity`, a variable ref, or a
      set object (whose identity is `tag`). */
  datatype Payload<S> =
    | Scalar(e: Elem)
    | Infinity(positive: bool)
    | VarRef(ref: Ref)
    | SetVal(tag: nat, members: S)

  datatype MExpr<S> =
    | ValExpr(val: Payload<S>)
    | TrueExpr
    | FalseExpr
    | NegExpr(expr: MExpr<S>)
    | AndExpr(left: MExpr<S>, right: MExpr<S>)
    | OrExpr(left: MExpr<S>, right: MExpr<S>)
    | EQExpr(left: MExpr<S>, right: MExpr<S>)
    | LTExpr(left: MExpr<S>, right: MExpr<S>)
    | GTExpr(left: MExpr<S>, right: MExpr<S>)
    | AddExpr(left: MExpr<S>, right: MExpr<S>)
    | SubExpr(left: MExpr<S>, right: MExpr<S>)
    | MultExpr(left: MExpr<S>, right: MExpr<S>)
    | DivExpr(left: MExpr<S>, right: MExpr<S>)
    | RemExpr(left: MExpr<S>, right: MExpr<S>)
  {
    /** `instanceof ValExpr`: `TrueExpr` and `FalseExpr` extend `ValExpr`. */
    predicate IsVal() { ValExpr? || TrueExpr? || FalseExpr? }

    predicate IsBinary() { !IsVal() && !NegExpr? }
  }

  /** The `val` field of a `ValExpr` instance, including the two subclasses. */
  function ValOf<S>(e: MExpr<S>): (p: Payload<S>)
    requires e.IsVal()
    ensures e.ValExpr? ==> p == e.val
    ensures e.TrueExpr? ==> p == Scalar(Bool(true))
    ensures e.FalseExpr? ==> p == Scalar(Bool(false))
  {
    match e
    case ValExpr(p) => p
    case TrueExpr => Scalar(Bool(true))
    case FalseExpr => Scalar(Bool(false))
  }

  /** `===` on payloads: scalars by value, objects (refs, sets) by identity. */
  predicate StrictEquals<S>(p: Payload<S>, q: Payload<S>)
  {
    match (p, q)
    case (Scalar(a), Scalar(b)) => a == b
    case (Infinity(a), Infinity(b)) => a == b
    case (VarRef(a), VarRef(b)) => a.block == b.block
    case (SetVal(a, _), SetVal(b, _)) => a == b
    case _ => false
  }

  /** `this.eq(other)` for every node class. */
  predicate Eq<S>(a: MExpr<S>, b: MExpr<S>)
  {
    match a
    case ValExpr(p) => b.IsVal() && StrictEquals(p, ValOf(b))
    case TrueExpr => b.TrueExpr?
    case FalseExpr => b.FalseExpr?
    case NegExpr(x) => b.NegExpr? && Eq(x, b.expr)
    case AndExpr(l, r) => b.AndExpr? && Eq(l, b.left) && Eq(r, b.right)
    case OrExpr(l, r) => b.OrExpr? && Eq(l, b.left) && Eq(r, b.right)
    case EQExpr(l, r) => b.EQExpr? && Eq(l, b.left) && Eq(r, b.right)
    case LTExpr(l, r) => b.LTExpr? && Eq(l, b.left) && Eq(r, b.right)
    case GTExpr(l, r) => b.GTExpr? && Eq(l, b.left) && Eq(r, b.right)
    case AddExpr(l, r) => b.AddExpr? && Eq(l, b.left) && Eq(r, b.right)
    case SubExpr(l, r) => b.SubExpr? && Eq(l, b.left) && Eq(r, b.right)
    case MultExpr(l, r) => b.MultExpr? && Eq(l, b.left) && Eq(r, b.right)
    case DivExpr(l, r) => b.DivExpr? && Eq(l, b.left) && Eq(r, b.right)
    case RemExpr(l, r) => b.RemExpr? && Eq(l, b.left) && Eq(r, b.right)
  }

  // ---------------------------------------------------------------------
  // binary nodes, uniformly

  datatype BinKind = And | Or | EQ | LT | GT | Add | Sub | Mult | Div | Rem

  /** The node class `k` applied to two children. */
  function Bin<S>(k: BinKind, l: MExpr<S>, r: MExpr<S>): (e: MExpr<S>)
    ensures e.IsBinary() && e.left == l && e.right == r
  {
    match k
    case And => AndExpr(l, r)
    case Or => OrExpr(l, r)
    case EQ => EQExpr(l, r)
    case LT => LTExpr(l, r)
    case GT => GTExpr(l, r)
    case Add => AddExpr(l, r)
    case Sub => SubExpr(l, r)
    case Mult => MultExpr(l, r)
    case Div => DivExpr(l, r)
    case Rem => RemExpr(l, r)
  }

  /** The class of a binary node. */
  function KindOf<S>(e: MExpr<S>): (k: BinKind)
    requires e.IsBinary()
    ensures Bin(k, e.left, e.right) == e
  {
    match e
    case AndExpr(_, _) => And
    case OrExpr(_, _) => Or
    case EQExpr(_, _) => EQ
    case LTExpr(_, _) => LT
    case GTExpr(_, _) => GT
    case AddExpr(_, _) => Add
    case SubExpr(_, _) => Sub
    case MultExpr(_, _) => Mult
    case DivExpr(_, _) => Div
    case RemExpr(_, _) => Rem
  }

  lemma KindOfBin<S>(k: BinKind, l: MExpr<S>, r: MExpr<S>)
    ensures KindOf(Bin(k, l, r)) == k
  {
  }

  // ---------------------------------------------------------------------
  // properties of eq

  /** A binary node is `eq` to another exactly when the other is a node of the
      same class whose children are pairwise `eq` to its own. */
  lemma BinaryEqIff<S>(k: BinKind, l: MExpr<S>, r: MExpr<S>, other: MExpr<S>)
    ensures Eq(Bin(k, l, r), other) <==>
      other.IsBinary() && KindOf(other) == k && Eq(l, other.left) && Eq(r, other.right)
  {
    match k
    case And =>
    case Or =>
    case EQ =>
    case LT =>
    case GT =>
    case Add =>
    case Sub =>
    case Mult =>
    case Div =>
    case Rem =>
  }

  /** `NegExpr.eq` holds iff the other is a `NegExpr` with an `eq` operand. */
  lemma NegEqIff<S>(x: MExpr<S>, other: MExpr<S>)
    ensures Eq(NegExpr(x), other) <==> other.NegExpr? && Eq(x, other.expr)
  {
  }

  /** `ValExpr.eq` compares payloads with `===`, and accepts the `TrueExpr` and
      `FalseExpr` subclasses as the other side. */
  lemma ValEqIff<S>(p: Payload<S>, other: MExpr<S>)
    ensures Eq(ValExpr(p), other) <==> other.IsVal() && StrictEquals(p, ValOf(other))
    ensures Eq(ValExpr(p), TrueExpr) <==> p == Scalar(Bool(true))
  {
  }

  /** `TrueExpr` and `FalseExpr` are `eq` only to their own class, not even to
      the `ValExpr` carrying the same boolean. */
  lemma TrueFalseEqOwnClass<S>(other: MExpr<S>)
    ensures Eq(TrueExpr, other) <==> other == TrueExpr
    ensures Eq(FalseExpr, other) <==> other == FalseExpr
    ensures !Eq<S>(TrueExpr, ValExpr(Scalar(Bool(true)))) && !Eq<S>(FalseExpr, ValExpr(Scalar(Bool(false))))
  {
  }

  /** `eq` is not symmetric: `new ValExpr(true).eq(new TrueExpr())` holds but
      the converse does not. */
  lemma EqNotSymmetric<S>()
    ensures Eq<S>(ValExpr(Scalar(Bool(true))), TrueExpr)
    ensures !Eq<S>(TrueExpr, ValExpr(Scalar(Bool(true))))
  {
  }

  /** Every tree is `eq` to itself. */
  lemma {:induction false} EqReflexive<S>(e: MExpr<S>)
    ensures Eq(e, e)
  {
    match e
    case ValExpr(p) =>
      assert StrictEquals(p, p);
    case TrueExpr =>
    case FalseExpr =>
    case NegExpr(x) =>
      EqReflexive(x);
    case _ =>
      EqReflexive(e.left);
      EqReflexive(e.right);
      KindOfBin(KindOf(e), e.left, e.right);
      BinaryEqIff(KindOf(e), e.left, e.right, e);
  }

  /** No `TrueExpr` or `FalseExpr` node occurs in the tree. */
  predicate NoBoolNodes<S>(e: MExpr<S>)
  {
    match e
    case ValExpr(_) => true
    case TrueExpr => false
    case FalseExpr => false
    case NegExpr(x) => NoBoolNodes(x)
    case _ => NoBoolNodes(e.left) && NoBoolNodes(e.right)
  }

  /** Away from the `TrueExpr`/`FalseExpr` subclasses, `eq` is symmetric. */
  lemma {:induction false} EqSymmetricWithoutBoolNodes<S>(a: MExpr<S>, b: MExpr<S>)
    requires NoBoolNodes(a) && NoBoolNodes(b)
    requires Eq(a, b)
    ensures Eq(b, a)
  {
    if a.NegExpr? {
      EqSymmetricWithoutBoolNodes(a.expr, b.expr);
    } else if a.IsBinary() {
      BinaryEqIff(KindOf(a), a.left, a.right, b);
      EqSymmetricWithoutBoolNodes(a.left, b.left);
      EqSymmetricWithoutBoolNodes(a.right, b.right);
      BinaryEqIff(KindOf(b), b.left, b.right, a);
    }
  }
}
