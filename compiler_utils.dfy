/** C++ operator precedence and associativity tables, and set union, as the
    compiler's helper module defines them. */
module CompilerUtils {

  import opened Wrappers

  datatype Associativity = LTR | RTL

  /** The C++ operators the compiler names, with their precedence level. */
  datatype Operator =
    | ScopeResolution
    | PostfixInc | PostfixDec | FuncCast | FuncCall | Subscript | MemberAccess
    | PrefixInc | PrefixDec | UnPlus | UnMinus | BoolNot | BitNot | CCast | PtrDeref
    | AddrOf | SizeOf | New | Delete
    | PtrToMember
    | Mult | Div | Mod
    | Add | Sub
    | LShift | RShift
    | Spaceship
    | LT | LTE | GTE | GT
    | EQ | NEQ
    | BitAnd
    | BitXor
    | BitOr
    | BoolAnd
    | BoolOr
    | TernaryCond | Throw | Assignment | AddAssign | SubAssign | MultAssign | DivAssign
    | ModAssign | LShiftAssign | RShiftAssign | BitAndAssign | BitXorAssign | BitOrAssign
    | Comma

  /** `OperatorPrecedence`: a smaller number binds tighter. */
  function Precedence(op: Operator): (p: nat)
    ensures 1 <= p <= 17
  {
    match op
    case ScopeResolution => 1
    case PostfixInc | PostfixDec | FuncCast | FuncCall | Subscript | MemberAccess => 2
    case PrefixInc | PrefixDec | UnPlus | UnMinus | BoolNot | BitNot | CCast | PtrDeref
      | AddrOf | SizeOf | New | Delete => 3
    case PtrToMember => 4
    case Mult | Div | Mod => 5
    case Add | Sub => 6
    case LShift | RShift => 7
    case Spaceship => 8
    case LT | LTE | GTE | GT => 9
    case EQ | NEQ => 10
    case BitAnd => 11
    case BitXor => 12
    case BitOr => 13
    case BoolAnd => 14
    case BoolOr => 15
    case TernaryCond | Throw | Assignment | AddAssign | SubAssign | MultAssign | DivAssign
      | ModAssign | LShiftAssign | RShiftAssign | BitAndAssign | BitXorAssign | BitOrAssign => 16
    case Comma => 17
  }

  /** `OPERATOR_ASSOCIATIVITY`: entry 0 is `null`. */
  const AssociativityTable: seq<Option<Associativity>> := [
    None,
    Some(LTR), Some(LTR), Some(RTL), Some(LTR), Some(LTR), Some(LTR), Some(LTR), Some(LTR),
    Some(LTR), Some(LTR), Some(LTR), Some(LTR), Some(LTR), Some(LTR), Some(LTR), Some(RTL),
    Some(LTR)
  ]

  /** `OPERATOR_ASSOCIATIVITY[level]`; an index past the table reads as `undefined`. */
  function AssociativityAt(level: int): Option<Associativity>
  {
    if 0 <= level < |AssociativityTable| then AssociativityTable[level] else None
  }

  /** Only the unary/prefix level 3 and the assignment level 16 group right to
      left; every other level from 1 to 17 groups left to right. */
  lemma AssociativityLevels(level: int)
    requires 1 <= level <= 17
    ensures AssociativityAt(level) == Some(RTL) <==> level == 3 || level == 16
    ensures AssociativityAt(level) != Some(RTL) ==> AssociativityAt(level) == Some(LTR)
  {
  }

  /** Multiplicative operators share level 5 and additive ones level 6. */
  lemma ArithmeticPrecedence()
    ensures Precedence(Mult) == Precedence(Div) == Precedence(Mod) == 5
    ensures Precedence(Add) == Precedence(Sub) == 6
  {
  }

  /** The relational operators share one level, between the shifts and equality. */
  lemma RelationalPrecedence()
    ensures Precedence(LT) == Precedence(LTE) == Precedence(GTE) == Precedence(GT) == 9
    ensures Precedence(LShift) == 7 && Precedence(EQ) == 10
  {
  }

  /** Logical operators bind looser than equality and tighter than assignment. */
  lemma LogicalPrecedence()
    ensures Precedence(BoolAnd) == 14 && Precedence(BoolOr) == 15 && Precedence(Assignment) == 16
  {
  }

  /** The precedence numbers order the operators the editor emits: MULT/DIV/MOD
      bind tighter than ADD/SUB, then LSHIFT, the comparisons, EQ, BOOL_AND,
      BOOL_OR and finally ASSIGNMENT. */
  lemma PrecedenceOrder()
    ensures Precedence(Mod) < Precedence(Add) < Precedence(LShift) < Precedence(LT)
    ensures Precedence(LT) < Precedence(EQ) < Precedence(BoolAnd) < Precedence(BoolOr) < Precedence(Assignment)
  {
    ArithmeticPrecedence();
    RelationalPrecedence();
    LogicalPrecedence();
  }

  // ---------------------------------------------------------------------
  // union

  /** Everything that occurs in some argument. */
  ghost function UnionOf<T>(sets: seq<seq<T>>): set<T>
  {
    set i, x | 0 <= i < |sets| && x in sets[i] :: x
  }

  /** `union(...sets)`: each argument is walked in its `forEach` order and every
      element is added to a fresh set. */
  method Union<T>(sets: seq<seq<T>>) returns (out: set<T>)
    ensures out == UnionOf(sets)
    ensures forall x :: x in out <==> exists i :: 0 <= i < |sets| && x in sets[i]
  {
    out := {};
    var i := 0;
    while i < |sets|
      invariant 0 <= i <= |sets|
      invariant out == UnionOf(sets[..i])
    {
      var j := 0;
      while j < |sets[i]|
        invariant 0 <= j <= |sets[i]|
        invariant out == UnionOf(sets[..i]) + set x | x in sets[i][..j]
      {
        out := out + {sets[i][j]};
        j := j + 1;
      }
      assert sets[i][..j] == sets[i];
      UnionOfSnoc(sets[..i], sets[i]);
      assert sets[..i + 1] == sets[..i] + [sets[i]];
      i := i + 1;
    }
    assert sets[..i] == sets;
  }

  lemma UnionOfSnoc<T>(sets: seq<seq<T>>, s: seq<T>)
    ensures UnionOf(sets + [s]) == UnionOf(sets) + set x | x in s
  {
    var all := sets + [s];
    forall x | x in UnionOf(all)
      ensures x in UnionOf(sets) || x in s
    {
      var i :| 0 <= i < |all| && x in all[i];
      if i < |sets| { assert x in sets[i]; }
    }
    forall x | x in UnionOf(sets)
      ensures x in UnionOf(all)
    {
      var i :| 0 <= i < |sets| && x in sets[i];
      assert all[i] == sets[i];
    }
    forall x | x in s
      ensures x in UnionOf(all)
    {
      assert all[|sets|] == s;
    }
  }

  /** The union of no arguments is empty. */
  lemma UnionOfNothing<T>()
    ensures UnionOf<T>([]) == {}
  {
  }

  /** The union depends only on which arguments occur: reordering or repeating
      arguments does not change it. */
  lemma UnionOfIgnoresOrderAndRepeats<T>(a: seq<seq<T>>, b: seq<seq<T>>)
    requires forall s :: s in a <==> s in b
    ensures UnionOf(a) == UnionOf(b)
  {
    forall x | x in UnionOf(a)
      ensures x in UnionOf(b)
    {
      var i :| 0 <= i < |a| && x in a[i];
      assert a[i] in b;
      var j :| 0 <= j < |b| && b[j] == a[i];
    }
    forall x | x in UnionOf(b)
      ensures x in UnionOf(a)
    {
      var j :| 0 <= j < |b| && x in b[j];
      assert b[j] in a;
      var i :| 0 <= i < |a| && a[i] == b[j];
    }
  }
}
