/** Compilation of the binary arithmetic value blocks: the shared
    `BinOpValue.compile`, and the overflow and zero-divisor guards that
    `AdditionValue`, `SubtractionValue` and `DivisionValue` append to its
    checks. */
module ArithValues {

  import opened Wrappers
  import opened CompilerUtils
  import opened RangeChecks
  import TextUtils

  /** What the compiler knows of a `DataType`: the C++ text its `compile()`
      yields, its `numeric` and `integral` flags, and whether it is the
      `BYTE` primitive. */
  datatype TypeInfo = TypeInfo(code: string, numeric: bool, integral: bool, isByte: bool)

  /** An entry of `meta.checks`: the guard's lines and the headers it needs. */
  datatype Check = Check(lines: seq<string>, includes: set<string>)

  /** `ExprCompileResult`: the code, its headers, its operator precedence
      (`null` for atoms), the checks to run first, and its attributes. */
  datatype ExprResult = ExprResult(
    code: string,
    includes: set<string>,
    precedence: Option<Operator>,
    checks: seq<Check>,
    lvalue: bool,
    resolvedType: Option<TypeInfo>)

  /** The value of a literal block as the guards read it: an integer, or
      any other primitive (a string such as the default `'string'`, a
      boolean, `null`) by its `${val}` text and the outcome of `val < 0` on
      it, which JavaScript decides after converting it to a number. */
  datatype Literal = IntLit(n: int) | OtherLit(text: string, belowZero: bool)
  {
    /** `val < 0`. */
    predicate Negative()
    {
      if IntLit? then n < 0 else belowZero
    }

    /** `${val}`. */
    function Text(): string
    {
      if IntLit? then TextUtils.IntToString(n) else text
    }
  }

  /** An operand in a slot, as the guard selection sees it: a variable ref
      with the fields of its master it reads, a literal, or any other value;
      each carries the result of its own `compile(scope)`. */
  datatype Operand =
    | VarOperand(name: string, checked: bool, dataType: TypeInfo, compiled: Result<ExprResult>)
    | LiteralOperand(value: Literal, compiled: Result<ExprResult>)
    | OtherOperand(compiled: Result<ExprResult>)

  const NullCompile := "Cannot read properties of null (reading 'compile')"

  // ---------------------------------------------------------------------
  // BinOpValue.compile

  /** The checks of both operands, in evaluation order for the precedence
      level's associativity. */
  function OrderChecks(op: Operator, l: seq<Check>, r: seq<Check>): seq<Check>
  {
    if AssociativityAt(Precedence(op)) == Some(LTR) then l + r else r + l
  }

  /** `BinOpValue.compile(scope)`: compile the left operand, then the right
      one, and combine them around `codeOp`.  `paren` is `parenthesize` and
      `resolve` is `resolveNumerics`. */
  function BinOpCompile(op: Operator, codeOp: string, left: Option<Operand>, right: Option<Operand>,
                        paren: (ExprResult, Operator) -> string,
                        resolve: (Option<TypeInfo>, Option<TypeInfo>) -> Option<TypeInfo>): (r: Result<ExprResult>)
    ensures r.Ok? <==> left.Some? && left.value.compiled.Ok? && right.Some? && right.value.compiled.Ok?
    ensures r.Ok? ==>
      var (lr, rr) := (left.value.compiled.value, right.value.compiled.value);
      r.value.code == paren(lr, op) + " " + codeOp + " " + paren(rr, op) &&
      r.value.includes == lr.includes + rr.includes &&
      multiset(r.value.checks) == multiset(lr.checks) + multiset(rr.checks) &&
      r.value.precedence == Some(op) && !r.value.lvalue
  {
    if left.None? then Err(NullCompile)
    else if !left.value.compiled.Ok? then left.value.compiled
    else if right.None? then Err(NullCompile)
    else if !right.value.compiled.Ok? then right.value.compiled
    else
      var (lr, rr) := (left.value.compiled.value, right.value.compiled.value);
      Ok(ExprResult(
        paren(lr, op) + " " + codeOp + " " + paren(rr, op),
        lr.includes + rr.includes,
        Some(op),
        OrderChecks(op, lr.checks, rr.checks),
        false,
        resolve(lr.resolvedType, rr.resolvedType)))
  }

  /** Checks keep left-to-right order at every left-to-right level, which
      covers the arithmetic operators, and are reversed at levels 3 and 16. */
  lemma OrderChecksByAssociativity(op: Operator, l: seq<Check>, r: seq<Check>)
    ensures Precedence(op) != 3 && Precedence(op) != 16 ==> OrderChecks(op, l, r) == l + r
    ensures Precedence(op) == 3 || Precedence(op) == 16 ==> OrderChecks(op, l, r) == r + l
    ensures op == Add || op == Sub || op == Div ==> OrderChecks(op, l, r) == l + r
  {
    AssociativityLevels(Precedence(op));
  }

  // ---------------------------------------------------------------------
  // guards

  /** The condition a guard tests at run time on the variable `x` and, for
      two-variable guards, the other variable `y`. */
  datatype Guard =
    | AddLiteral(v: Literal)   // x < minNegative<v>() if v < 0, else x > maxPositive<v>()
    | AddVariable              // !addition::safe(x, y)
    | SubLiteral(v: Literal)   // x > maxNegative<v>() if v < 0, else x < minPositive<v>()
    | SubVariable              // !subtraction::safe(x, y)
    | ZeroDivisor              // y == 0
  {
    /** A guard whose template argument is a number; one on a string,
        boolean or `null` literal names no number, and no run-time meaning
        is given to it. */
    predicate Numeric()
    {
      (AddLiteral? || SubLiteral?) ==> v.IntLit?
    }
  }

  /** Whether the emitted `if` takes its error branch for type `t`. */
  function Fires(g: Guard, t: IntType, x: int, y: int): bool
    requires g.Numeric()
  {
    match g
    case AddLiteral(v) =>
      if v.n < 0 then x < MinNegative(t, Unbounded, v.n) else x > MaxPositive(t, Unbounded, v.n)
    case AddVariable => !AdditionSafe(t, x, y)
    case SubLiteral(v) => if v.n < 0 then x > MaxNegative(t, v.n) else x < MinPositive(t, v.n)
    case SubVariable => !SubtractionSafe(t, x, y)
    case ZeroDivisor => y == 0
  }

  /** The mathematical result the guarded expression computes. */
  function Guarded(g: Guard, x: int, y: int): int
    requires g.Numeric()
  {
    match g
    case AddLiteral(v) => x + v.n
    case AddVariable => x + y
    case SubLiteral(v) => x - v.n
    case SubVariable => x - y
    case ZeroDivisor => y
  }

  /** Every overflow guard fires exactly when the unbounded result of the
      guarded addition or subtraction leaves the range of `T`; the division
      guard fires exactly on a zero divisor. */
  lemma GuardFiresIffOutOfRange(g: Guard, t: IntType, x: int, y: int)
    requires g.Numeric() && t.Holds(x) && t.Holds(y)
    ensures !g.ZeroDivisor? ==> (Fires(g, t, x, y) <==> !t.Holds(Guarded(g, x, y)))
    ensures g.ZeroDivisor? ==> (Fires(g, t, x, y) <==> y == 0)
  {
    match g
    case AddLiteral(v) =>
    case AddVariable => AdditionSafeIff(t, x, y);
    case SubLiteral(v) =>
    case SubVariable => SubtractionSafeIff(t, x, y);
    case ZeroDivisor =>
  }

  /** The `std::cerr` operand that prints a variable: bytes are cast to `int`. */
  function Printed(code: string, t: TypeInfo): string
  {
    (if t.isByte then "(int)" else "") + code
  }

  /** The condition text of a guard on the variable `x` of type `t`. */
  function GuardText(g: Guard, t: TypeInfo, x: string, y: string): string
  {
    var add := "lellib::addition<" + t.code + ">";
    var sub := "lellib::subtraction<" + t.code + ">";
    match g
    case AddLiteral(v) =>
      x + " " + (if v.Negative() then "< " + add + "::minNegative<" + v.Text() + ">()"
                 else "> " + add + "::maxPositive<" + v.Text() + ">()")
    case AddVariable => "!" + add + "::safe(" + x + ", " + y + ")"
    case SubLiteral(v) =>
      x + " " + (if v.Negative() then "> " + sub + "::maxNegative<" + v.Text() + ">()"
                 else "< " + sub + "::minPositive<" + v.Text() + ">()")
    case SubVariable => "!" + sub + "::safe(" + x + ", " + y + ")"
    case ZeroDivisor => y + " == 0"
  }

  /** `lns([cond line, [message, 'return 1;'], '}'])`. */
  function CheckLines(cond: string, message: string): seq<string>
  {
    TextUtils.Lns([TextUtils.Line("if (" + cond + ") {"),
                   TextUtils.Nested([TextUtils.Line(message), TextUtils.Line("return 1;")]),
                   TextUtils.Line("}")], 0)
  }

  /** A guard is four lines: the `if`, the indented message, the indented
      `return 1;`, and the closing brace. */
  lemma CheckLinesShape(cond: string, message: string)
    ensures CheckLines(cond, message) == ["if (" + cond + ") {", "    " + message, "    return 1;", "}"]
  {
    var a, b, c := "if (" + cond + ") {", message, "return 1;";
    var src := [TextUtils.Line(a), TextUtils.Nested([TextUtils.Line(b), TextUtils.Line(c)]), TextUtils.Line("}")];
    TextUtils.LnsMatchesLeaves(src, 0);
    var inner := [TextUtils.Line(b), TextUtils.Line(c)];
    assert TextUtils.Leaves([]) == [];
    assert TextUtils.Leaves([TextUtils.Line(c)]) == [(c, 0)];
    assert TextUtils.Leaves(inner) == [(b, 0), (c, 0)];
    assert TextUtils.Leaves([TextUtils.Line("}")]) == [("}", 0)];
    assert src[1..] == [TextUtils.Nested(inner), TextUtils.Line("}")];
    assert TextUtils.Leaves(src[1..]) == [(b, 1), (c, 1), ("}", 0)];
    assert TextUtils.Leaves(src) == [(a, 0), (b, 1), (c, 1), ("}", 0)];
    assert TextUtils.Pad(1, 0) == 4;
    assert TextUtils.Spaces(4) == "    ";
    assert TextUtils.Spaces(0) == "";
    var e := TextUtils.Expected(TextUtils.Leaves(src), 0);
    assert e[0] == TextUtils.Spaces(0) + a == a;
    assert e[1] == TextUtils.Spaces(4) + b;
    assert e[2] == TextUtils.Spaces(4) + c;
    assert e[3] == TextUtils.Spaces(0) + "}" == "}";
    assert e == [a, "    " + b, "    " + c, "}"];
    assert CheckLines(cond, message) == TextUtils.Lns(src, 0);
    assert "    " + c == "    return 1;";
  }

  const RangeRequires: set<string> := {"$lib:RangeChecks", "iostream"}

  /** The overflow check for the variable `x` and the other operand `y`
      (`y` is the literal for literal guards). */
  function OverflowCheck(g: Guard, xName: string, xType: TypeInfo, xCode: string,
                         yName: string, yType: TypeInfo, yCode: string): Check
    requires !g.ZeroDivisor?
  {
    Check(CheckLines(GuardText(g, xType, xCode, yCode), OverflowMessage(g, xName, xType, xCode, yName, yType, yCode)),
          RangeRequires)
  }

  /** The `std::cerr` line of an overflow check: the literal is named by its
      text, a variable by its name and value. */
  function OverflowMessage(g: Guard, xName: string, xType: TypeInfo, xCode: string,
                           yName: string, yType: TypeInfo, yCode: string): string
    requires !g.ZeroDivisor?
  {
    var verb := if g.AddLiteral? || g.AddVariable? then "adding" else "subtracting";
    var head := "std::cerr << \"Variable '" + xName + "' (value \" << " + Printed(xCode, xType) + " << \") would overflow upon " + verb + " ";
    if g.AddLiteral? || g.SubLiteral? then
      head + g.v.Text() + "\" << std::endl;"
    else
      head + "'" + yName + "' (value \" << " + Printed(yCode, yType) + " << \")\" << std::endl;"
  }

  /** The zero-divisor check on the variable divisor `y`. */
  function ZeroCheck(yName: string, yCode: string): Check
  {
    Check(CheckLines(GuardText(ZeroDivisor, TypeInfo("", false, false, false), "", yCode),
                     "std::cerr << \"Illegal division by variable '" + yName + "' with value 0\" << std::endl;"),
          {"iostream"})
  }

  /** Every overflow check needs the range-check library and `iostream`,
      and ends its body with `return 1;`; the zero check needs `iostream`. */
  lemma ChecksEndWithReturn(g: Guard, xName: string, xType: TypeInfo, xCode: string,
                            yName: string, yType: TypeInfo, yCode: string)
    requires !g.ZeroDivisor?
    ensures var c := OverflowCheck(g, xName, xType, xCode, yName, yType, yCode);
      c.includes == {"$lib:RangeChecks", "iostream"} &&
      |c.lines| == 4 && c.lines[2] == "    return 1;" && c.lines[3] == "}"
    ensures var z := ZeroCheck(yName, yCode);
      z.includes == {"iostream"} && |z.lines| == 4 && z.lines[0] == "if (" + yCode + " == 0) {" &&
      z.lines[2] == "    return 1;"
  {
    CheckLinesShape(GuardText(g, xType, xCode, yCode), OverflowMessage(g, xName, xType, xCode, yName, yType, yCode));
    CheckLinesShape(yCode + " == 0", "std::cerr << \"Illegal division by variable '" + yName + "' with value 0\" << std::endl;");
  }

  // ---------------------------------------------------------------------
  // AdditionValue.compile

  /** The first operand, left before right, that is a ref to a checked
      variable; the guard then depends on the other operand. */
  function AdditionGuard(left: Operand, right: Operand): (r: Option<(Guard, bool)>)
    ensures r.Some? ==> (if r.value.1 then left else right).VarOperand?
    ensures r.Some? ==> (if r.value.1 then left else right).checked
    ensures r.Some? && !r.value.1 ==> !(left.VarOperand? && left.checked)
  {
    var leftWins := left.VarOperand? && left.checked;
    if !leftWins && !(right.VarOperand? && right.checked) then None
    else
      var other := if leftWins then right else left;
      match other
      case LiteralOperand(v, _) => Some((AddLiteral(v), leftWins))
      case VarOperand(_, _, _, _) => Some((AddVariable, leftWins))
      case OtherOperand(_) => None
  }

  /** `AdditionValue.compile(scope)`. */
  function AdditionCompile(left: Option<Operand>, right: Option<Operand>,
                           paren: (ExprResult, Operator) -> string,
                           resolve: (Option<TypeInfo>, Option<TypeInfo>) -> Option<TypeInfo>): (r: Result<ExprResult>)
  {
    var base := BinOpCompile(Add, "+", left, right, paren, resolve);
    if !base.Ok? then base
    else
      match AdditionGuard(left.value, right.value)
      case None => base
      case Some((g, leftWins)) =>
        var (x, y) := if leftWins then (left.value, right.value) else (right.value, left.value);
        var yName := if y.VarOperand? then y.name else "";
        var yType := if y.VarOperand? then y.dataType else x.dataType;
        var c := OverflowCheck(g, x.name, x.dataType, x.compiled.value.code, yName, yType, y.compiled.value.code);
        Ok(base.value.(checks := base.value.checks + [c]))
  }

  /** A ref to a variable whose `checked` flag is set. */
  predicate CheckedVar(o: Operand)
  {
    o.VarOperand? && o.checked
  }

  /** Addition adds at most one check, after the inherited ones, and only
      when an operand is a checked variable and the other is a literal or a
      variable; the left operand is the guarded one when both qualify. */
  lemma AdditionChecks(left: Option<Operand>, right: Option<Operand>,
                       paren: (ExprResult, Operator) -> string,
                       resolve: (Option<TypeInfo>, Option<TypeInfo>) -> Option<TypeInfo>)
    ensures var base := BinOpCompile(Add, "+", left, right, paren, resolve);
      var r := AdditionCompile(left, right, paren, resolve);
      (!base.Ok? ==> r == base) &&
      (base.Ok? ==>
         r.Ok? && r.value.(checks := base.value.checks) == base.value &&
         base.value.checks <= r.value.checks && |r.value.checks| <= |base.value.checks| + 1 &&
         (|r.value.checks| == |base.value.checks| + 1 <==>
            (CheckedVar(left.value) && !right.value.OtherOperand?) ||
            (!CheckedVar(left.value) && CheckedVar(right.value) && !left.value.OtherOperand?)) &&
         (CheckedVar(left.value) ==> AdditionGuard(left.value, right.value).None? || AdditionGuard(left.value, right.value).value.1) &&
         (|r.value.checks| > |base.value.checks| ==> r.value.checks[|base.value.checks|].includes == RangeRequires))
  {
  }

  /** With a checked variable `x` on one side and the literal `v` on the
      other, the emitted test is `x < minNegative<v>()` for negative `v` and
      `x > maxPositive<v>()` otherwise, and it fires iff `x + v` overflows. */
  lemma AdditionLiteralGuard(name: string, t: TypeInfo, xr: Result<ExprResult>, v: int, vr: Result<ExprResult>,
                             it: IntType, x: int)
    requires it.Holds(x)
    ensures var (l, r) := (VarOperand(name, true, t, xr), LiteralOperand(IntLit(v), vr));
      AdditionGuard(l, r) == Some((AddLiteral(IntLit(v)), true)) &&
      AdditionGuard(r, l) == Some((AddLiteral(IntLit(v)), false))
    ensures Fires(AddLiteral(IntLit(v)), it, x, 0) <==> !it.Holds(x + v)
  {
    GuardFiresIffOutOfRange(AddLiteral(IntLit(v)), it, x, x);
  }

  /** A literal that is not a number is guarded too: `val < 0` is false for
      it (the default literal `'string'` among them), so the check tests
      `x > maxPositive<text>()` with the literal's text as template argument. */
  lemma AdditionOtherLiteralCheck(name: string, t: TypeInfo, xr: Result<ExprResult>, text: string,
                                  vr: Result<ExprResult>, x: string, y: string)
    ensures var (l, r) := (VarOperand(name, true, t, xr), LiteralOperand(OtherLit(text, false), vr));
      AdditionGuard(l, r) == Some((AddLiteral(OtherLit(text, false)), true)) &&
      AdditionGuard(r, l) == Some((AddLiteral(OtherLit(text, false)), false))
    ensures GuardText(AddLiteral(OtherLit(text, false)), t, x, y)
              == x + " " + "> " + "lellib::addition<" + t.code + ">" + "::maxPositive<" + text + ">()"
  {
  }

  // ---------------------------------------------------------------------
  // SubtractionValue.compile

  /** Only a variable ref on the left is guarded, checked or not. */
  function SubtractionGuard(left: Operand, right: Operand): (r: Option<Guard>)
    ensures r.Some? ==> left.VarOperand?
    ensures r.Some? <==> left.VarOperand? && !right.OtherOperand?
  {
    if !left.VarOperand? then None
    else
      match right
      case LiteralOperand(v, _) => Some(SubLiteral(v))
      case VarOperand(_, _, _, _) => Some(SubVariable)
      case OtherOperand(_) => None
  }

  /** `SubtractionValue.compile(scope)`. */
  function SubtractionCompile(left: Option<Operand>, right: Option<Operand>,
                              paren: (ExprResult, Operator) -> string,
                              resolve: (Option<TypeInfo>, Option<TypeInfo>) -> Option<TypeInfo>): (r: Result<ExprResult>)
  {
    var base := BinOpCompile(Sub, "-", left, right, paren, resolve);
    if !base.Ok? then base
    else
      match SubtractionGuard(left.value, right.value)
      case None => base
      case Some(g) =>
        var (x, y) := (left.value, right.value);
        var yName := if y.VarOperand? then y.name else "";
        var yType := if y.VarOperand? then y.dataType else x.dataType;
        var c := OverflowCheck(g, x.name, x.dataType, x.compiled.value.code, yName, yType, y.compiled.value.code);
        Ok(base.value.(checks := base.value.checks + [c]))
  }

  /** Subtraction appends one check exactly when the left operand is a
      variable ref and the right one a literal or variable; a variable only
      on the right adds nothing, and `checked` is never consulted. */
  lemma SubtractionChecks(left: Option<Operand>, right: Option<Operand>,
                          paren: (ExprResult, Operator) -> string,
                          resolve: (Option<TypeInfo>, Option<TypeInfo>) -> Option<TypeInfo>)
    ensures var base := BinOpCompile(Sub, "-", left, right, paren, resolve);
      var r := SubtractionCompile(left, right, paren, resolve);
      (!base.Ok? ==> r == base) &&
      (base.Ok? ==>
         r.Ok? && r.value.(checks := base.value.checks) == base.value &&
         base.value.checks <= r.value.checks &&
         (|r.value.checks| == |base.value.checks| + 1 <==> left.value.VarOperand? && !right.value.OtherOperand?) &&
         (!left.value.VarOperand? ==> r == base) &&
         (|r.value.checks| > |base.value.checks| ==> r.value.checks[|base.value.checks|].includes == RangeRequires))
  {
  }

  /** With the variable `x` on the left and the literal `v` on the right, the
      test is `x > maxNegative<v>()` for negative `v` and `x < minPositive<v>()`
      otherwise, and it fires iff `x - v` overflows. */
  lemma SubtractionLiteralGuard(name: string, checked: bool, t: TypeInfo, xr: Result<ExprResult>, v: int, vr: Result<ExprResult>,
                                it: IntType, x: int)
    requires it.Holds(x)
    ensures var (l, r) := (VarOperand(name, checked, t, xr), LiteralOperand(IntLit(v), vr));
      SubtractionGuard(l, r) == Some(SubLiteral(IntLit(v))) && SubtractionGuard(r, l).None?
    ensures Fires(SubLiteral(IntLit(v)), it, x, 0) <==> !it.Holds(x - v)
  {
    GuardFiresIffOutOfRange(SubLiteral(IntLit(v)), it, x, x);
  }

  /** Subtracting a literal that is not a number, such as the default
      `'string'`, still emits the check, testing `x < minPositive<text>()`. */
  lemma SubtractionOtherLiteralCheck(name: string, checked: bool, t: TypeInfo, xr: Result<ExprResult>, text: string,
                                     vr: Result<ExprResult>, x: string, y: string)
    ensures SubtractionGuard(VarOperand(name, checked, t, xr), LiteralOperand(OtherLit(text, false), vr))
              == Some(SubLiteral(OtherLit(text, false)))
    ensures GuardText(SubLiteral(OtherLit(text, false)), t, x, y)
              == x + " " + "< " + "lellib::subtraction<" + t.code + ">" + "::minPositive<" + text + ">()"
  {
  }

  // ---------------------------------------------------------------------
  // DivisionValue.compile

  const DivNumeric := "Operator '\U{F7}' requires both operands to be numeric"

  /** `validateTypes(left, right)`; a `null` type fails on the property read. */
  function ValidateTypes(left: Option<TypeInfo>, right: Option<TypeInfo>): (r: Option<string>)
    ensures r.None? <==> left.Some? && left.value.numeric && right.Some? && right.value.numeric
    ensures left.Some? && right.Some? && r.Some? ==> r == Some(DivNumeric)
  {
    if left.None? then Some("Cannot read properties of null (reading 'numeric')")
    else if !left.value.numeric then Some(DivNumeric)
    else if right.None? then Some("Cannot read properties of null (reading 'numeric')")
    else if !right.value.numeric then Some(DivNumeric)
    else None
  }

  /** `DivisionValue.compile(scope)`.  Both types passed to `validateTypes` are
      the left operand's. */
  function DivisionCompile(left: Option<Operand>, right: Option<Operand>,
                           paren: (ExprResult, Operator) -> string,
                           resolve: (Option<TypeInfo>, Option<TypeInfo>) -> Option<TypeInfo>): (r: Result<ExprResult>)
  {
    if left.None? then Err("Operator '\U{F7}' missing left operand")
    else if right.None? then Err("Operator '\U{F7}' missing right operand")
    else if !left.value.compiled.Ok? then left.value.compiled
    else if !right.value.compiled.Ok? then right.value.compiled
    else DivideResults(left.value.compiled.value, right.value.compiled.value, right.value, paren, resolve)
  }

  /** The rest of `DivisionValue.compile` once both operands compiled to `lr`
      and `rr`; `divisor` is the right operand. */
  function DivideResults(lr: ExprResult, rr: ExprResult, divisor: Operand,
                         paren: (ExprResult, Operator) -> string,
                         resolve: (Option<TypeInfo>, Option<TypeInfo>) -> Option<TypeInfo>): (r: Result<ExprResult>)
  {
    var invalid := ValidateTypes(lr.resolvedType, lr.resolvedType);
    if invalid.Some? then Err(invalid.value)
    else if lr.resolvedType.value.integral && rr.resolvedType.None? then
      Err("Cannot read properties of null (reading 'integral')")
    else
      var integral := lr.resolvedType.value.integral && rr.resolvedType.value.integral;
      var base := ExprResult(
        (if integral then "static_cast<double>(" + lr.code + ")" else paren(lr, Div)) + " / " + paren(rr, Div),
        lr.includes + rr.includes,
        Some(Div),
        OrderChecks(Div, lr.checks, rr.checks),
        false,
        resolve(lr.resolvedType, rr.resolvedType));
      if divisor.VarOperand? && divisor.checked then
        Ok(base.(checks := base.checks + [ZeroCheck(divisor.name, rr.code)]))
      else Ok(base)
  }

  /** Division throws on a missing operand before compiling anything, casts
      the left side to `double` when both types are integral, keeps the
      operands' checks left to right, and appends the zero check exactly when
      the divisor is a checked variable. */
  lemma DivisionShape(left: Option<Operand>, right: Option<Operand>,
                      paren: (ExprResult, Operator) -> string,
                      resolve: (Option<TypeInfo>, Option<TypeInfo>) -> Option<TypeInfo>)
    ensures left.None? ==> DivisionCompile(left, right, paren, resolve) == Err("Operator '\U{F7}' missing left operand")
    ensures left.Some? && right.None? ==> DivisionCompile(left, right, paren, resolve) == Err("Operator '\U{F7}' missing right operand")
    ensures var r := DivisionCompile(left, right, paren, resolve);
      r.Ok? ==>
        var (lr, rr) := (left.value.compiled.value, right.value.compiled.value);
        lr.resolvedType.Some? && lr.resolvedType.value.numeric &&
        r.value.includes == lr.includes + rr.includes && !r.value.lvalue && r.value.precedence == Some(Div) &&
        (lr.resolvedType.value.integral && rr.resolvedType.value.integral ==>
           r.value.code == "static_cast<double>(" + lr.code + ") / " + paren(rr, Div)) &&
        r.value.checks[..|lr.checks| + |rr.checks|] == lr.checks + rr.checks &&
        (|r.value.checks| == |lr.checks| + |rr.checks| + 1 <==> right.value.VarOperand? && right.value.checked) &&
        (|r.value.checks| != |lr.checks| + |rr.checks| + 1 ==> |r.value.checks| == |lr.checks| + |rr.checks|)
  {
    if left.Some? && right.Some? && left.value.compiled.Ok? && right.value.compiled.Ok? {
      DivideResultsShape(left.value.compiled.value, right.value.compiled.value, right.value, paren, resolve);
    }
  }

  /** What `DivideResults` builds: the numeric left type it demands, the
      cast, the operands' checks left to right, then the zero check exactly
      when the divisor is a checked variable. */
  lemma DivideResultsShape(lr: ExprResult, rr: ExprResult, divisor: Operand,
                           paren: (ExprResult, Operator) -> string,
                           resolve: (Option<TypeInfo>, Option<TypeInfo>) -> Option<TypeInfo>)
    ensures var r := DivideResults(lr, rr, divisor, paren, resolve);
      r.Ok? ==>
        lr.resolvedType.Some? && lr.resolvedType.value.numeric &&
        r.value.includes == lr.includes + rr.includes && !r.value.lvalue && r.value.precedence == Some(Div) &&
        (lr.resolvedType.value.integral && rr.resolvedType.value.integral ==>
           r.value.code == "static_cast<double>(" + lr.code + ") / " + paren(rr, Div)) &&
        r.value.checks[..|lr.checks| + |rr.checks|] == lr.checks + rr.checks &&
        (|r.value.checks| == |lr.checks| + |rr.checks| + 1 <==> divisor.VarOperand? && divisor.checked) &&
        (|r.value.checks| != |lr.checks| + |rr.checks| + 1 ==> |r.value.checks| == |lr.checks| + |rr.checks|)
  {
    OrderChecksByAssociativity(Div, lr.checks, rr.checks);
    var r := DivideResults(lr, rr, divisor, paren, resolve);
    if r.Ok? {
      var both := lr.checks + rr.checks;
      if divisor.VarOperand? && divisor.checked {
        assert r.value.checks == both + [ZeroCheck(divisor.name, rr.code)];
      } else {
        assert r.value.checks == both;
      }
      assert r.value.checks[..|both|] == both;
    }
  }

  /** Only the left operand's type is validated: a non-numeric divisor type
      is accepted. */
  lemma DivisionIgnoresRightType(lr: ExprResult, rr: ExprResult,
                                 paren: (ExprResult, Operator) -> string,
                                 resolve: (Option<TypeInfo>, Option<TypeInfo>) -> Option<TypeInfo>)
    requires lr.resolvedType == Some(TypeInfo("double", true, false, false))
    requires rr.resolvedType == Some(TypeInfo("std::string", false, false, false))
    ensures DivisionCompile(Some(OtherOperand(Ok(lr))), Some(OtherOperand(Ok(rr))), paren, resolve).Ok?
  {
  }
}
