# lel-max compiler core, in Dafny

lel-max is a visual block editor. Programs are built from blocks on a canvas and
compiled to C++. This project models the compiler side of the editor and proves
properties of the model. It covers:

- **Overflow guards** (`RangeChecks`, `ArithValues`). The C++ helper library
  `lib/RangeChecks.h` computes compile-time bounds and runtime `safe` predicates
  for addition and subtraction. The addition, subtraction and division value
  blocks decide which guard to emit, and `BinOpValue.compile` assembles the
  checks. An integer type `T` is modelled as a range `[min, max]` with
  `min <= 0 <= max`. The central theorem, `ArithValues.GuardFiresIffOutOfRange`,
  says that every guard on an integer literal or a variable fires exactly when
  the unbounded result leaves `[min, max]`. Each guard is written as the
  compiler prints it, including the guard on a string, boolean or `null`
  literal.
- **The constraint analyzer** (`MathExpr`, `MathSets`, `Analyzer`,
  `Constraints`). This part covers:
  - the immutable expression tree and its structural `eq`;
  - the set algebra: universal, empty, intersection, union, expression, value
    and interval sets, with `eq`, `finite`, `enumerate` and `cross`;
  - tree rewriting, the variable search, spine flattening and evaluation to
    sets;
  - comparison-to-interval reduction and interval intersection;
  - constraint accumulation along `if` chains, and the printer.

  JavaScript's `±Infinity` bounds are an extended integer (`ExtInt`). Variable
  refs are opaque identities.
- **Compiler bookkeeping** (`CompilerUtils`, `TextUtils`, `Scopes`,
  `ArrayTypes`, `Variables`). This part covers:
  - the operator precedence and associativity tables, and `union`;
  - `indent` and `lns` line flattening;
  - the parent-linked `LexicalScope` symbol table;
  - the recursive `ArrayDataType` with its memoising factory;
  - the `Var` block, which declares a variable, and the refs that read it back.
- **The `For` block** (`ForLoops`, `Chains`, `Naming`). This part covers:
  - the slots each iteration configuration exposes;
  - the ejection of slot values when the configuration changes;
  - the rule that renames a duplicated block;
  - the chain reduction and the compiled loop.
- **Source-tree flattening** (`AppService`). The server validates a nested
  directory object, flattens it into `/`-joined paths, checks include names and
  appends the files to a tar archive.
- **Gradient checkpoints** (`Gradients`). `GradientBuilder` keeps its
  checkpoints sorted by offset and inherits a colour on insert.

Code that changes state in place is modelled as classes with `modifies`
clauses. This covers the symbol table, the array-type cache, the `Var` and
`For` blocks, the constraint record, the tar archive and the gradient builder.
Code that works by expressions and recursion is modelled as datatypes and
functions. Loops in the source are methods with loop invariants, each proved
equal to a specification function. These are `union`, `cross`, the union and
interval enumerations, the `reduceSet` fold, `traverseDir` and the gradient
sort.

`DivisionValue.compile` passes the left operand's type to `validateTypes`
twice. The model keeps this, and `ArithValues.DivisionIgnoresRightType` shows
that a non-numeric divisor type is accepted.

## Model

| member | source | states |
|---|---|---|
| RangeChecks.UpperLimit | lib/RangeChecks.h:22-59 | the upper limit is the policy's `max` for the upper- and range-bounded policies, and the type's `max` otherwise |
| RangeChecks.LowerLimit | lib/RangeChecks.h:22-59 | the lower limit is the policy's `min` for the lower- and range-bounded policies, and the type's `min` otherwise |
| RangeChecks.MaxPositive | lib/RangeChecks.h:9-12 | `maxPositive<v>()` is the largest `a` whose sum with `v` stays within the upper limit |
| RangeChecks.MinNegative | lib/RangeChecks.h:14-17 | `minNegative<v>()` is the smallest `a` whose sum with `v` stays within the lower limit |
| RangeChecks.AdditionSafeIff | lib/RangeChecks.h:19 | `addition<T>::safe(a, b)` holds iff `min <= a + b <= max` for the unbounded sum |
| RangeChecks.AdditionSafeIntermediate | lib/RangeChecks.h:19 | the intermediate `safe` computes (`min - b` for negative `b`, `max - b` otherwise) is a value of `T` |
| RangeChecks.AdditionBoundsRepresentable | lib/RangeChecks.h:9-17 | `maxPositive<v>()` is representable for `v >= 0`, and `minNegative<v>()` for `v < 0` |
| RangeChecks.AdditionBoundsAgreeWithSafe | lib/RangeChecks.h:9-19 | for `b >= 0`, `a > maxPositive<b>()` iff `!safe(a, b)`; for `b < 0`, `a < minNegative<b>()` iff `!safe(a, b)` |
| RangeChecks.PoliciesReplaceOneLimit | lib/RangeChecks.h:22-59 | `ubound` replaces only the upper limit, `lbound` only the lower one, and `rbound` both |
| RangeChecks.MinPositive | lib/RangeChecks.h:63-66 | `minPositive<v>()` is the smallest `a` with `a - v >= min` |
| RangeChecks.MaxNegative | lib/RangeChecks.h:68-71 | `maxNegative<v>()` is the largest `a` with `a - v <= max` |
| RangeChecks.SubtractionSafeIff | lib/RangeChecks.h:73 | `subtraction<T>::safe(a, b)` holds iff `min <= a - b <= max` |
| RangeChecks.SubtractionSafeIntermediate | lib/RangeChecks.h:73 | the intermediate `max + b` (for `b < 0`) or `min + b` (otherwise) is a value of `T` |
| RangeChecks.SubtractionBoundsRepresentable | lib/RangeChecks.h:63-71 | `minPositive<v>()` is representable for `v >= 0`, and `maxNegative<v>()` for `v < 0` |
| RangeChecks.SafeBoundaryCases | lib/RangeChecks.h:19-73 | `addition::safe(max, 0)` holds, and `safe(max, 1)` and `safe(min, -1)` fail; `subtraction::safe(min, 0)` holds, and `safe(min, 1)` and `safe(max, -1)` fail |
| ArithValues.BinOpCompile | src/client/lib/editor/blocks/classes/BinOpValue.ts:185-205 | a result exists iff both operands compile; the code is `paren(L) op paren(R)`, the headers are the union of both sides, the checks are both sides' checks, and the result carries the operator's precedence and is not an lvalue |
| ArithValues.OrderChecksByAssociativity | src/client/lib/editor/blocks/classes/BinOpValue.ts:194-197 | the checks are left then right at a left-to-right level, right then left at levels 3 and 16, and left then right for `+`, `-` and `÷` |
| ArithValues.GuardFiresIffOutOfRange | src/client/lib/editor/blocks/data/Addition.value.ts:28-65 | every overflow guard (an addition or subtraction with an integer literal or a variable) fires iff the unbounded result leaves `T`'s range; the zero guard fires iff the divisor is 0 |
| ArithValues.CheckLinesShape | src/client/lib/editor/blocks/data/Addition.value.ts:29-40 | a check is four lines: the `if`, the indented message, an indented `return 1;` and the closing brace |
| ArithValues.ChecksEndWithReturn | src/client/lib/editor/blocks/data/Addition.value.ts:33-43 | every overflow check needs `$lib:RangeChecks` and `iostream` and ends with `return 1;`; the zero check needs `iostream` and tests `== 0` |
| ArithValues.AdditionGuard | src/client/lib/editor/blocks/data/Addition.value.ts:17-20 | a guard is chosen only for a ref to a checked variable, and the left operand wins when both qualify |
| ArithValues.AdditionCompile | src/client/lib/editor/blocks/data/Addition.value.ts:12-70 | `AdditionValue.compile`: the base result with the selected check appended; its properties are `AdditionChecks` and the guard lemmas |
| ArithValues.AdditionChecks | src/client/lib/editor/blocks/data/Addition.value.ts:12-70 | addition returns the base result with at most one check appended after the inherited ones; a check is added iff a checked variable faces a literal or a variable; the check needs the range library |
| ArithValues.AdditionOtherLiteralCheck | src/client/lib/editor/blocks/data/Addition.value.ts:23-32 | a literal that is not a number, such as the default `'string'`, is guarded too: `val < 0` is false, so the test is `x > maxPositive<text>()` with the literal's text |
| ArithValues.AdditionLiteralGuard | src/client/lib/editor/blocks/data/Addition.value.ts:23-31 | a checked variable next to the literal `v` gets the literal guard on either side, and that guard fires iff `x + v` overflows |
| ArithValues.SubtractionGuard | src/client/lib/editor/blocks/data/Subtraction.value.ts:15-19 | only a variable on the left is guarded, whatever its `checked` flag, and only when the right operand is a literal or a variable |
| ArithValues.SubtractionCompile | src/client/lib/editor/blocks/data/Subtraction.value.ts:11-73 | `SubtractionValue.compile`: the base result with the selected check appended; its properties are `SubtractionChecks` and `SubtractionLiteralGuard` |
| ArithValues.SubtractionChecks | src/client/lib/editor/blocks/data/Subtraction.value.ts:11-73 | subtraction appends one check iff the left operand is a variable ref and the right one a literal or variable; a variable only on the right adds nothing |
| ArithValues.SubtractionOtherLiteralCheck | src/client/lib/editor/blocks/data/Subtraction.value.ts:19-29 | subtracting a literal that is not a number from a variable still emits the check, testing `x < minPositive<text>()` |
| ArithValues.SubtractionLiteralGuard | src/client/lib/editor/blocks/data/Subtraction.value.ts:19-30 | a variable on the left of the literal `v` is guarded and one on the right is not; the guard fires iff `x - v` overflows |
| ArithValues.DivisionShape | src/client/lib/editor/blocks/data/Division.value.ts:12-57 | a missing operand throws before anything compiles; both-integral operands cast the left side to `double`; the checks are left then right; the zero check is appended iff the divisor is a checked variable |
| ArithValues.DivisionCompile | src/client/lib/editor/blocks/data/Division.value.ts:12-57 | `DivisionValue.compile`: missing operands throw first, then the operands compile, then `DivideResults`; its properties are `DivisionShape` and `DivisionIgnoresRightType` |
| ArithValues.ValidateTypes | src/client/lib/editor/blocks/data/Division.value.ts:60-62 | no error iff both types are present and numeric; with both present the error is the "requires both operands to be numeric" message |
| ArithValues.DivideResultsShape | src/client/lib/editor/blocks/data/Division.value.ts:16-57 | once both operands compiled: the left type is numeric, both-integral operands cast the left side, the checks are left then right, and the zero check is appended iff the divisor is a checked variable |
| ArithValues.DivisionIgnoresRightType | src/client/lib/editor/blocks/data/Division.value.ts:19 | a non-numeric divisor type passes validation, because only the left type is checked |
| CompilerUtils.Precedence | src/client/lib/compiler/utils.ts:2-72 | every operator has a precedence level from 1 to 17 |
| CompilerUtils.AssociativityLevels | src/client/lib/compiler/utils.ts:79-98 | the associativity is right-to-left exactly at levels 3 and 16, and left-to-right at every other level from 1 to 17 |
| CompilerUtils.ArithmeticPrecedence | src/client/lib/compiler/utils.ts:27-32 | the multiplicative operators share level 5 and the additive ones level 6 |
| CompilerUtils.RelationalPrecedence | src/client/lib/compiler/utils.ts:34-45 | the relational operators share level 9, between the shift (7) and equality (10) |
| CompilerUtils.LogicalPrecedence | src/client/lib/compiler/utils.ts:53-59 | `&&` is at 14, `\|\|` at 15 and assignment at 16 |
| CompilerUtils.PrecedenceOrder | src/client/lib/compiler/utils.ts:27-59 | MULT < ADD < LSHIFT < comparisons < EQ < BOOL_AND < BOOL_OR < ASSIGNMENT |
| CompilerUtils.Union | src/client/lib/compiler/utils.ts:102-108 | the nested loops collect exactly the elements that occur in some argument |
| CompilerUtils.UnionOf | src/client/lib/compiler/utils.ts:102-108 | the elements occurring in some argument, the reference `Union` is proved against |
| CompilerUtils.UnionOfNothing | src/client/lib/compiler/utils.ts:102-108 | the union of no arguments is empty |
| CompilerUtils.UnionOfIgnoresOrderAndRepeats | src/client/lib/compiler/utils.ts:102-108 | the elements of the union depend only on which arguments occur, not on their order or repeats |
| TextUtils.IndentIsSpaces | src/client/lib/utils/utils.ts:3-5 | `indent(level)` is `4 * level` spaces, so `indent(0)` is empty |
| TextUtils.Indent | src/client/lib/utils/utils.ts:3-5 | `indent(level)`; `IndentIsSpaces` states it is `4 * level` spaces |
| TextUtils.Lns | src/client/lib/utils/utils.ts:7-9 | `lns(src, level)`; `LnsMatchesLeaves` states its lines are the indented leaves in depth-first order |
| TextUtils.LnsMatchesLeaves | src/client/lib/utils/utils.ts:7-9 | `lns` emits exactly one line per string leaf, in depth-first order, each being spaces followed by the leaf |
| TextUtils.FlatPartsMatchesLeaves | src/client/lib/utils/utils.ts:7-9 | the `flatMap` step yields one line per leaf, padded by what the enclosing calls add |
| TextUtils.PadFromTopLevel | src/client/lib/utils/utils.ts:7-9 | the indentation accumulates: a leaf `d` arrays deep in `lns(src, 0)` gets `2 d (d + 1)` spaces |
| TextUtils.TopLevelLine | src/client/lib/utils/utils.ts:7-9 | a top-level string gets exactly the `indent(level)` prefix |
| TextUtils.NestedOnceLine | src/client/lib/utils/utils.ts:7-9 | a string one array deep in `lns(src, 0)` gains four spaces |
| TextUtils.FlatPartsOfLines | src/client/lib/utils/utils.ts:7-9 | flattening plain lines leaves them unchanged |
| TextUtils.BlockLines | src/client/lib/utils/utils.ts:7-9 | a head, a flat body, a foot and a flat tail print as the head, the body indented once, the foot and the tail |
| TextUtils.NatToStringValue | src/client/lib/editor/blocks/data/Variable.block.ts:172-174 | the decimal text of a natural number reads back as that number |
| TextUtils.IntToStringRoundTrip | src/client/lib/editor/blocks/data/Variable.block.ts:172-174 | printing an integer and parsing the text gives the integer back |
| MathExpr.ValOf | src/client/lib/compiler/math/expr.ts:5-33 | the payload of `TrueExpr` is `true` and that of `FalseExpr` is `false` |
| MathExpr.BinaryEqIff | src/client/lib/compiler/math/expr.ts:45-143 | a binary node is `eq` to another iff it is of the same kind and both children are pairwise `eq` |
| MathExpr.NegEqIff | src/client/lib/compiler/math/expr.ts:35-43 | `NegExpr.eq` holds iff the other node is a `NegExpr` with an `eq` child |
| MathExpr.ValEqIff | src/client/lib/compiler/math/expr.ts:5-13 | `ValExpr.eq` holds iff the other node is a value node with a `===` payload |
| MathExpr.TrueFalseEqOwnClass | src/client/lib/compiler/math/expr.ts:15-33 | `TrueExpr` and `FalseExpr` are each `eq` only to their own class |
| MathExpr.EqNotSymmetric | src/client/lib/compiler/math/expr.ts:10-22 | `ValExpr(true).eq(TrueExpr)` holds, but `TrueExpr.eq(ValExpr(true))` does not |
| MathExpr.EqReflexive | src/client/lib/compiler/math/expr.ts:1-143 | every tree is `eq` to itself |
| MathExpr.EqSymmetricWithoutBoolNodes | src/client/lib/compiler/math/expr.ts:1-143 | without `TrueExpr`/`FalseExpr` nodes, `eq` is symmetric |
| MathSets.BoundPayload | src/client/lib/compiler/math/sets.ts:165-173 | an interval bound is a scalar payload iff it is finite |
| MathSets.MSet.Enumerate | src/client/lib/compiler/math/sets.ts:35-189 | `enumerate` succeeds iff the set is `finite`; the empty set gives `[]` and a value set its values |
| MathSets.NewInterval | src/client/lib/compiler/math/sets.ts:164-174 | a new interval is exclusive at both ends: it holds exactly the integers strictly between its bounds |
| MathSets.AddAllProps | src/client/lib/compiler/math/sets.ts:116-121 | pushing values not yet present keeps the prefix, adds exactly the missing values, and adds none twice |
| MathSets.CrossOf | src/client/lib/compiler/math/sets.ts:21-33 | `cross` succeeds iff `a` is finite and either enumerates to nothing or `b` is finite; the result is a duplicate-free `ValSet` |
| MathSets.Cross | src/client/lib/compiler/math/sets.ts:21-33 | the loop version of `cross` equals `CrossOf` |
| MathSets.CrossValues | src/client/lib/compiler/math/sets.ts:24-30 | the two nested loops push each new `op(x, y)` in `a`-major order |
| MathSets.CrossMembers | src/client/lib/compiler/math/sets.ts:21-33 | for finite sets, `cross` holds `op(x, y)` for every pair and nothing else, with no value twice |
| MathSets.CrossOfFinite | src/client/lib/compiler/math/sets.ts:21-33 | for finite sets, `cross` is the duplicate-free list of all pair results |
| MathSets.CrossValuesMembers | src/client/lib/compiler/math/sets.ts:24-30 | the pushed values are duplicate-free and are exactly the pair results |
| MathSets.AddAllFirstOccurrenceOrder | src/client/lib/compiler/math/sets.ts:28 | new values are appended in the order of their first occurrence |
| MathSets.CrossOrder | src/client/lib/compiler/math/sets.ts:21-33 | `cross` lists its values in the order they are first computed, `a` in the outer loop |
| MathSets.CrossOfEmptyLeft | src/client/lib/compiler/math/sets.ts:24-25 | an empty `a` gives the empty `ValSet` without enumerating `b`, even an infinite `b` |
| MathSets.EnumerateUnion | src/client/lib/compiler/math/sets.ts:113-124 | the loop version of `UnionSet.enumerate` equals `enumerate` |
| MathSets.EnumerateInterval | src/client/lib/compiler/math/sets.ts:180-189 | the loop version of `IntervalSet.enumerate` equals `enumerate` |
| MathSets.EmptyAndUniversal | src/client/lib/compiler/math/sets.ts:42-76 | `EmptySet` is finite and enumerates to `[]`; `UniversalSet` is never finite and enumerating it throws |
| MathSets.ValSetEqIff | src/client/lib/compiler/math/sets.ts:151-153 | `ValSet.eq` holds iff both hold the same values in the same order |
| MathSets.UnionEqIsPositional | src/client/lib/compiler/math/sets.ts:83-107 | union and intersection `eq` compare members position by position, so reordering breaks it |
| MathSets.IntervalEqIff | src/client/lib/compiler/math/sets.ts:127-174 | two intervals are `eq` iff they have the same bounds and flags |
| MathSets.IntervalEqExprSet | src/client/lib/compiler/math/sets.ts:127-174 | an interval and an `ExprSet` with the same predicate are `eq`, both ways |
| MathSets.IntersectionEnumeration | src/client/lib/compiler/math/sets.ts:91-97 | a value is enumerated iff it is a value of the first finite member and of every later finite member; infinite members are ignored |
| MathSets.FirstFinite | src/client/lib/compiler/math/sets.ts:94-96 | the member whose values are filtered is finite and no earlier member is |
| MathSets.UnionEnumeration | src/client/lib/compiler/math/sets.ts:109-124 | a finite union lists every value of every member exactly once |
| MathSets.IntervalEnumeration | src/client/lib/compiler/math/sets.ts:176-189 | a finite interval enumerates to consecutive integers, exactly those within its bounds and flags |
| Analyzer.ReplaceIdentity | src/client/lib/compiler/analyzer.ts:355-373 | with the identity operation, `replace` rebuilds a tree equal and `eq` to its input |
| Analyzer.Replace | src/client/lib/compiler/analyzer.ts:355-373 | `replace(expr, op)`: rebuilds the tree bottom-up, applying `op` to each rebuilt node; `ReplaceIdentity`, `ReplaceReachesBoolLeaves` and `ReplaceSubstitutesVariables` state its properties |
| Analyzer.ReplaceReachesBoolLeaves | src/client/lib/compiler/analyzer.ts:355-357 | the operation is applied to `TrueExpr`/`FalseExpr` leaves too, because the value branch comes first |
| Analyzer.ReplaceSubstitutesVariables | src/client/lib/compiler/analyzer.ts:355-373 | replacing every variable leaf by a variable-free leaf leaves no variable |
| Analyzer.FindVar | src/client/lib/compiler/analyzer.ts:375-393 | a result is always a variable leaf |
| Analyzer.FindVarIsFirstRef | src/client/lib/compiler/analyzer.ts:375-393 | `findVar` is null iff the tree has no variable, and otherwise it is the first ref in left-to-right pre-order |
| Analyzer.Collate | src/client/lib/compiler/analyzer.ts:556-562 | `collate` returns at least one operand, and none of them is of the spine's kind |
| Analyzer.CollateAndMeaning | src/client/lib/compiler/analyzer.ts:556-562 | a conjunction holds iff every collated operand holds |
| Analyzer.CollateOrMeaning | src/client/lib/compiler/analyzer.ts:556-562 | a disjunction holds iff some collated operand holds |
| Analyzer.Simplify | src/client/lib/compiler/analyzer.ts:396-440 | a sum or difference simplifies to a duplicate-free value set |
| Analyzer.SubSides | src/client/lib/compiler/analyzer.ts:405-409 | a difference is the `cross` of both sides under `-` whenever it is modelled, and any error of the sides is passed on |
| Analyzer.SimplifyConcatenates | src/client/lib/compiler/analyzer.ts:400-404 | a string on either side of `+` turns the sum into the concatenation of the printed values, in operand order |
| Analyzer.SimplifySubString | src/client/lib/compiler/analyzer.ts:405-409 | a string on either side of `-` gives `NaN`, which is not modelled |
| Analyzer.CrossSingletons | src/client/lib/compiler/analyzer.ts:400-409 | `cross` of two singletons is the singleton of the combined value |
| Analyzer.SimplifyFoldsConstants | src/client/lib/compiler/analyzer.ts:396-409 | integer `+`/`-` arithmetic simplifies to the singleton of its value |
| Analyzer.SimplifyAddMembers | src/client/lib/compiler/analyzer.ts:400-404 | a sum of two finite sets holds exactly the pairwise sums |
| Analyzer.SimplifyRejects | src/client/lib/compiler/analyzer.ts:436-439 | comparisons, logic and operators without a set meaning throw |
| Analyzer.MaxOf | src/client/lib/compiler/analyzer.ts:454 | `Math.max` of no values is `-Infinity`; otherwise it is one of the values and no value exceeds it |
| Analyzer.MaxOfBelow | src/client/lib/compiler/analyzer.ts:454 | the maximum is below `y` iff every value is |
| Analyzer.MinOf | src/client/lib/compiler/analyzer.ts:468 | `Math.min` of no values is `Infinity`; otherwise it is one of the values and no value is below it |
| Analyzer.MinOfAbove | src/client/lib/compiler/analyzer.ts:468 | the minimum is above `y` iff every value is |
| Analyzer.ReduceExpr | src/client/lib/compiler/analyzer.ts:443-513 | a reduction is the universal set or an interval open at both ends |
| Analyzer.ReduceExprConstant | src/client/lib/compiler/analyzer.ts:449-489 | `x > c` reduces to `(c, Infinity)` and `x < c` to `(-Infinity, c)`, which hold exactly the integers above (below) `c` |
| Analyzer.ReduceExprAboveSet | src/client/lib/compiler/analyzer.ts:451-455 | `x > S` for a finite `S` without strings holds exactly the integers above every member of `S`; a string among them is not modelled, and only then |
| Analyzer.ReduceExprBelowSet | src/client/lib/compiler/analyzer.ts:465-469 | `S > x` for a finite `S` without strings holds exactly the integers below every member of `S`; a string among them is not modelled, and only then |
| Analyzer.ReduceExprUnconstrained | src/client/lib/compiler/analyzer.ts:449-508 | a non-value or infinite other side gives the universal set |
| Analyzer.ReduceExprMirror | src/client/lib/compiler/analyzer.ts:449-508 | `a > b` and `b < a` reduce to the same set |
| Analyzer.ReduceExprRejects | src/client/lib/compiler/analyzer.ts:509-512 | kinds other than `>` and `<` throw, and so does a tree without a variable |
| Analyzer.ToInterval | src/client/lib/compiler/analyzer.ts:523-540 | the running bounds always form an interval |
| Analyzer.IntersectionFlagCounterexample | src/client/lib/compiler/analyzer.ts:528-538 | on tied bounds the fold as written keeps the first member's flag, so its interval admits a value one member excludes |
| Analyzer.StepAsWritten | src/client/lib/compiler/analyzer.ts:528-538 | one step of the `forEach`: the new lower bound is the greater of the two and the upper the smaller, each with the flag of the interval it came from; on a tie the running flag is kept |
| Analyzer.FoldAsWritten | src/client/lib/compiler/analyzer.ts:520-538 | the `forEach` over all members from `(-Infinity, Infinity)`; `FoldOrigin` and `FoldsAgree` state its properties, `IntersectionFlagCounterexample` its defect |
| Analyzer.StepIsIntersection | src/client/lib/compiler/analyzer.ts:528-538 | one corrected step intersects the running interval with the member |
| Analyzer.FoldIsIntersection | src/client/lib/compiler/analyzer.ts:520-540 | the corrected fold holds exactly the integers every member holds |
| Analyzer.WithoutUniversal | src/client/lib/compiler/analyzer.ts:520 | the filter keeps exactly the members that are not universal |
| Analyzer.ReduceInterval | src/client/lib/compiler/analyzer.ts:546-549 | reducing an interval always succeeds |
| Analyzer.ReduceSetOf | src/client/lib/compiler/analyzer.ts:515-554 | `reduceSet(set, domain)` as written, the specification of `ReduceSet`; `ReduceSetIntersection` and `ReduceSetRejects` state its properties |
| Analyzer.FoldOrigin | src/client/lib/compiler/analyzer.ts:520-538 | each running bound of the fold as written is the initial infinite one or some member's bound, with that member's flag |
| Analyzer.FoldsAgree | src/client/lib/compiler/analyzer.ts:520-538 | when tied bounds carry equal flags, the fold as written equals the corrected fold |
| Analyzer.OpenIntervalsTiesAgree | src/client/lib/compiler/math/sets.ts:164-165 | intervals built with both ends exclusive, the constructor's default, always agree on tied bounds |
| Analyzer.ReduceSet | src/client/lib/compiler/analyzer.ts:515-554 | the loop that updates the bounds in place with the as-written step equals the specification `ReduceSetOf` |
| Analyzer.ReduceSetIntersection | src/client/lib/compiler/analyzer.ts:517-541 | when tied bounds carry equal flags, an infinite intersection of intervals and universal sets reduces to an interval holding exactly the integers every non-universal member holds |
| Analyzer.ReduceSetRejects | src/client/lib/compiler/analyzer.ts:543-554 | the empty set, the universal set, an infinite union and a mixed infinite intersection throw |
| Analyzer.SerializeAll | src/client/lib/compiler/analyzer.ts:592 | printing a list of operands yields one text per operand |
| Analyzer.SerializeExpr | src/client/lib/compiler/analyzer.ts:585-606 | `serialize` on an expression: a variable's name, `~(…)`, the collated spine joined, or a parenthesised binary node; `SerializeAll`, `JoinSpineIsCollateJoin`, `SerializeAndOrAlike` and `SerializeScalarsThrow` state its properties |
| Analyzer.SerializeSet | src/client/lib/compiler/analyzer.ts:564-584 | `serialize` on a set: the values of a finite set, brackets of an interval, or `{ name \| expr }`; `SerializeFiniteSet` and `SerializeIntervalBrackets` state its properties |
| Analyzer.JoinSpineIsCollateJoin | src/client/lib/compiler/analyzer.ts:592-593 | printing an `And`/`Or` spine is printing the collated operands joined by the separator |
| Analyzer.SerializeAndOrAlike | src/client/lib/compiler/analyzer.ts:592-593 | a conjunction and a disjunction of the same operands print the same text |
| Analyzer.SerializeFiniteSet | src/client/lib/compiler/analyzer.ts:568-572 | a one-value finite set prints that value bare, and any other finite set prints in braces |
| Analyzer.SerializeIntervalBrackets | src/client/lib/compiler/analyzer.ts:574-575 | an interval opens with `(` iff its lower end is exclusive and closes with `)` iff its upper end is |
| Analyzer.SerializeScalarsThrow | src/client/lib/compiler/analyzer.ts:588-590 | `TrueExpr`, `FalseExpr` and scalar leaves cannot be printed |
| Constraints.ComposeExpr | src/client/lib/compiler/analyzer.ts:295-353 | composing succeeds iff every operand slot is filled; a literal of any primitive, a string included, becomes a value leaf |
| Constraints.ComposeStringSum | src/client/lib/compiler/analyzer.ts:327-346 | a string literal added to a number composes to a sum, which simplifies to the concatenated text |
| Constraints.ComposeValueMeaning | src/client/lib/compiler/analyzer.ts:327-348 | a composed value has the value of its blocks |
| Constraints.ComposeMeaning | src/client/lib/compiler/analyzer.ts:295-326 | a composed condition holds iff the blocks do; `>=` and `<=` become `>`/`<` or `==` |
| Constraints.PredNodeTruth | src/client/lib/compiler/analyzer.ts:300-313 | the node a predicate block composes to holds iff the block's relation holds of its operands |
| Constraints.ChainRefsCollects | src/client/lib/compiler/analyzer.ts:270-273 | the collection extends the accumulator and lists no ref object twice; for a complete condition it lists exactly the refs the tree holds |
| Constraints.EmptyLeftSlotSkipsRight | src/client/lib/editor/blocks/classes/BinOpValue.ts:168-183 | an empty left slot hides the right operand from the chain reduction |
| Constraints.AffirmMeaning | src/client/lib/compiler/analyzer.ts:275-279 | on the branch where the condition holds, each variable it mentions keeps exactly the values meeting its old constraint and the condition; other entries are unchanged |
| Constraints.NegationMeaning | src/client/lib/compiler/analyzer.ts:288-292 | with the corrected update, on the branch where the condition fails each mentioned variable keeps exactly the values meeting its old constraint and failing the condition |
| Constraints.NegationAsWrittenLosesConstraint | src/client/lib/compiler/analyzer.ts:288-292 | the update as written turns `x > 0` into a constraint that admits `x = -1` where `x < 5` fails; the corrected update rejects it |
| Constraints.NegationAsWrittenDuplicateRefs | src/client/lib/compiler/analyzer.ts:282-292 | with two refs to one variable, the update as written yields a constraint every value meets |
| Constraints.ConstraintTable.constructor | src/client/lib/compiler/analyzer.ts:269 | the record starts as given |
| Constraints.ConstraintTable.ApplyCondition | src/client/lib/compiler/analyzer.ts:269-293 | the loop updates each mentioned variable in turn; a condition without a variable changes nothing, and a condition with an empty slot throws before any entry changes |
| Constraints.ConstraintTable.UpdateAll | src/client/lib/compiler/analyzer.ts:275-279 | the `forEach` sets each mentioned variable's entry to `f` of its current constraint and the condition, in order; the record becomes `UpdateEach` of the old one |
| Constraints.ConstraintTable.ApplyAffCondition | src/client/lib/compiler/analyzer.ts:269-280 | each mentioned variable's constraint becomes `P` when it was `TrueExpr`, and `And(old, P)` otherwise |
| Constraints.ConstraintTable.ApplyNegCondition | src/client/lib/compiler/analyzer.ts:282-293 | each mentioned variable's constraint becomes `Neg(P)` when it was `TrueExpr`, and `And(old, Neg(P))` otherwise (corrected) |
| Scopes.LexicalScope.constructor | src/client/lib/compiler/LexicalScope.ts:20-25 | a new scope has an empty registry and no children, and is appended to its parent's children |
| Scopes.LexicalScope.Declare | src/client/lib/compiler/LexicalScope.ts:27-31 | the block maps to `{block, scope: this}`, overwriting any entry; the scope itself is returned; the parent's view is unchanged |
| Scopes.LexicalScope.Visible | src/client/lib/compiler/LexicalScope.ts:33-41 | the merged view holds at least this scope's declarations |
| Scopes.LookupFindsNearest | src/client/lib/compiler/LexicalScope.ts:33-41 | `lookup` finds nothing iff no scope on the chain declared the master, and otherwise it returns the nearest declaration |
| Scopes.LexicalScope.Lookup | src/client/lib/compiler/LexicalScope.ts:33-41 | `lookup(ref)` walks the parent chain from this scope; `LookupFindsNearest` and `LookupIsVisible` state what it finds |
| Scopes.LookupIsVisible | src/client/lib/compiler/LexicalScope.ts:33-41 | `lookup` agrees with the merged view of the chain, nearer scopes shadowing farther ones |
| Scopes.AboveIsDeeper | src/client/lib/compiler/LexicalScope.ts:16-25 | every scope above a scope is nearer the root, so the parent chain is finite and acyclic |
| ArrayTypes.ArrayDataType.constructor | src/client/lib/utils/ArrayDataType.ts:8 | a new array type holds its element type and starts with one element |
| ArrayTypes.ArrayDataType.Dimensions | src/client/lib/utils/ArrayDataType.ts:20-22 | `dimensions` is the number of nested array layers, at least 1 |
| ArrayTypes.ArrayDataType.RootScalar | src/client/lib/utils/ArrayDataType.ts:12-18 | `rootScalar` is the element type of the innermost layer, the only layer whose element type is not an array |
| ArrayTypes.ArrayDataType.Shape | src/client/lib/utils/ArrayDataType.ts:24-32 | the element counts of all layers, outermost first; the first is `elems` |
| ArrayTypes.ArrayDataType.GetDimension | src/client/lib/utils/ArrayDataType.ts:24-32 | `getDimension(d)` succeeds iff `1 <= d <= dimensions`, giving layer `d`'s count, and throws otherwise |
| ArrayTypes.ArrayDataType.SetDimension | src/client/lib/utils/ArrayDataType.ts:34-42 | `setDimension(d, s)` changes layer `d`'s count to `s` and no other; out of range, it throws and changes nothing |
| ArrayTypes.ArrayDataType.Compile | src/client/lib/utils/ArrayDataType.ts:44-58 | the code nests `std::array<..., elems>` around the root type, and the headers are the root's plus `array` |
| ArrayTypes.InnerIsDeeper | src/client/lib/utils/ArrayDataType.ts:12-22 | the element-type chain is finite and acyclic |
| ArrayTypes.CacheEntry | src/client/lib/utils/ArrayDataType.ts:61-85 | caching an entry that fits keeps the cache consistent and keeps every existing entry |
| ArrayTypes.ArrayRegistry.constructor | src/client/lib/utils/ArrayDataType.ts:6 | the cache starts empty |
| ArrayTypes.ArrayRegistry.For | src/client/lib/utils/ArrayDataType.ts:61-85 | `for(t, n)` returns the cached instance when there is one, and otherwise a fresh one-element array that it caches; the instance has `n` layers over the cached `for(t, n - 1)` |
| ArrayTypes.ArrayRegistry.Make | src/client/lib/utils/ArrayDataType.ts:65-83 | on a cache miss, `for` builds a fresh array over the cached lower dimension and caches it, adding only entries for `t` |
| ArrayTypes.ArrayRegistry.MakeBottom | src/client/lib/utils/ArrayDataType.ts:65-76 | for one dimension, a fresh one-element array over `t` is cached as `for(t, 1)`, and nothing else changes |
| ArrayTypes.ArrayRegistry.MakeNested | src/client/lib/utils/ArrayDataType.ts:77-82 | for more dimensions, `for(t, dims - 1)` is made first and the fresh array over it is cached as `for(t, dims)`; only entries for `t` up to `dims` are added |
| ArrayTypes.ArrayRegistry.MakeOver | src/client/lib/utils/ArrayDataType.ts:78-82 | the fresh array over the cached lower dimension is cached as `for(t, dims)`, keeping every earlier entry |
| Naming.LastDigit | src/client/lib/editor/blocks/data/Variable.block.ts:169 | the scan finds the last digit after the line's first character, which is the greedy split of `(.+)(\d+)` |
| Naming.MatchAt | src/client/lib/editor/blocks/data/Variable.block.ts:169 | the match at a start position exists iff the pattern can match there, and takes the longest `.+` |
| Naming.Exec | src/client/lib/editor/blocks/data/Variable.block.ts:169 | `exec` finds the leftmost start that matches, with the longest `.+` |
| Naming.DuplicateName | src/client/lib/editor/blocks/data/Variable.block.ts:168-177 | with no match the copy is named `name + "2"`; otherwise it is the match's prefix followed by the matched digit plus one |
| Naming.OneLineNoDigit | src/client/lib/editor/blocks/data/Variable.block.ts:175-177 | a one-line name with no digit after its first character gets `2` appended |
| Naming.OneLineLastDigit | src/client/lib/editor/blocks/data/Variable.block.ts:171-174 | in a one-line name, the last digit after the first character is incremented and what follows it is dropped |
| Naming.RenameExamples | src/client/lib/editor/blocks/data/Variable.block.ts:168-177 | `var_name` becomes `var_name2`, `v9` becomes `v10` and `v19` becomes `v110` |
| Naming.RenameNine | src/client/lib/editor/blocks/data/Variable.block.ts:168-177 | `v9` becomes `v10` |
| Naming.RenameNineteen | src/client/lib/editor/blocks/data/Variable.block.ts:168-177 | only the last digit is incremented: `v19` becomes `v110` |
| Naming.SingleCharacterRename | src/client/lib/editor/blocks/data/Variable.block.ts:168-177 | a one-character name, even a digit, gets `2` appended |
| Naming.LaterLineRename | src/client/lib/editor/blocks/data/Variable.block.ts:168-177 | a match on a later line drops the earlier lines: `a\nb1` becomes `b2` |
| Variables.VariableBlock.constructor | src/client/lib/editor/blocks/data/Variable.block.ts:46-53 | a new block is named `var_name`, is an `int`, is unchecked and has no refs |
| Variables.RunChild | src/client/lib/editor/blocks/data/Variable.block.ts:238 | an absent child chain compiles to no lines and declares nothing |
| Variables.DeclareAll | src/client/lib/compiler/LexicalScope.ts:27-31 | declaring each block in turn adds exactly their entries to the registry, leaves the scopes above unchanged, and makes them visible on top of what was visible |
| Variables.VariableBlock.Compile | src/client/lib/editor/blocks/data/Variable.block.ts:233-244 | the block is declared in the scope before the child chain compiles against that same scope, so every ref to it resolves; the child's declarations are added to the scope too; the first line is `<type> <name>;` followed by the child's lines, and an error the child throws is thrown on |
| Variables.VariableBlock.Duplicate | src/client/lib/editor/blocks/data/Variable.block.ts:166-180 | the copy is a fresh default block named by the renaming rule |
| Variables.VariableBlock.RefDetached | src/client/lib/editor/blocks/data/Variable.block.ts:195-203 | a fresh attached ref to this block is added to `refs`, and nothing else changes |
| Variables.VariableRefValue.constructor | src/client/lib/editor/blocks/data/Variable.block.ts:255-260 | a new ref points at its master and is attached |
| Variables.VariableRefValue.DataType | src/client/lib/editor/blocks/data/Variable.block.ts:304-306 | a ref's type is its master's type |
| Variables.VariableRefValue.SetDataType | src/client/lib/editor/blocks/data/Variable.block.ts:308-310 | setting a ref's type writes through to the master, so every ref of that master sees it |
| Variables.VariableRefValue.Delete | src/client/lib/editor/blocks/data/Variable.block.ts:333-338 | only a detached ref is removed from its master's `refs` |
| Variables.VariableRefValue.Compile | src/client/lib/editor/blocks/data/Variable.block.ts:387-396 | a ref compiles iff its master is declared on the scope chain, to the variable's name as an lvalue of the master's type; otherwise it throws "Variable <name> not declared in current scope!" |
| Variables.RefsOfOneMasterAgree | src/client/lib/editor/blocks/data/Variable.block.ts:387-396 | all refs of one master compile alike in any scope |
| Variables.RefCompilesIffDeclared | src/client/lib/editor/blocks/data/Variable.block.ts:387-396 | a ref compiles iff some scope on the chain declared its master |
| ForLoops.ValueSlots | src/client/lib/editor/blocks/control/For.block.ts:410-420 | an iterable configuration shows only the iterable slot; otherwise `from`, `to` and `step` are shown, in that order, each iff the configuration leaves it open |
| ForLoops.PredicateSlots | src/client/lib/editor/blocks/control/For.block.ts:422-428 | the `end` slot is shown exactly for generators |
| ForLoops.DefaultExposesNothing | src/client/lib/editor/blocks/control/For.block.ts:189-195 | the default interval from 1 to 10 by 1 shows no slot |
| ForLoops.EjectsIffHidden | src/client/lib/editor/blocks/control/For.block.ts:331-408 | for a slot the old configuration shows, the setter ejects its value iff the new configuration does not show the slot |
| ForLoops.ExposedIffShows | src/client/lib/editor/blocks/control/For.block.ts:410-428 | a slot is among `valueSlots` and `predicateSlots` iff the configuration shows it, slot by slot |
| ForLoops.ForBlock.constructor | src/client/lib/editor/blocks/control/For.block.ts:189-195 | a new block is named `i`, has the default configuration and empty slots |
| ForLoops.ForBlock.SetConfig | src/client/lib/editor/blocks/control/For.block.ts:331-408 | the setter ejects exactly the occupied slots its case clears, switches the configuration, and keeps "only shown slots hold values" |
| ForLoops.ForBlock.LeaveInterval | src/client/lib/editor/blocks/control/For.block.ts:333-364 | leaving `interval`, each of `from`, `to` and `step` is cleared iff it is occupied and `next` hides it, and is reported |
| ForLoops.ForBlock.LeaveIterable | src/client/lib/editor/blocks/control/For.block.ts:365-372 | leaving `iterable`, the iterable slot is cleared iff it is occupied and `next` is not iterable, and is reported |
| ForLoops.ForBlock.LeaveGenerator | src/client/lib/editor/blocks/control/For.block.ts:373-404 | leaving `generator`, each of `from`, `end` and `step` is cleared iff it is occupied and `next` hides it, and is reported |
| ForLoops.ForBlock.Duplicate | src/client/lib/editor/blocks/control/For.block.ts:758-779 | the copy is a fresh default block named by the renaming rule |
| ForLoops.ForBlock.Compile | src/client/lib/editor/blocks/control/For.block.ts:847-859 | the loop chain compiles first, into the block's own scope; an error it throws ends the compile before the after chain runs; otherwise the after chain compiles into the same scope and sees what the loop chain declared; the scope gains both chains' declarations and nothing else; with no error the result is `LoopResult` of both, whatever the configuration |
| ForLoops.LoopResult | src/client/lib/editor/blocks/control/For.block.ts:851-858 | `for (;true;) {`, the loop chain's lines indented one level, `}`, then the after chain's lines; the headers of both chains |
| ForLoops.ForIndexRefValue.constructor | src/client/lib/editor/blocks/control/For.block.ts:869 | a new index ref points at its `For` block |
| ForLoops.ForIndexRefValue.Compile | src/client/lib/editor/blocks/control/For.block.ts:996-1002 | the index ref compiles to the index name iff the `For` block is declared on the scope chain, and throws otherwise |
| ForLoops.IndexRefNeedsDeclaration | src/client/lib/editor/blocks/control/For.block.ts:996-1002 | the index ref resolves iff some scope on the chain declared the `For` block |
| Chains.Order | src/client/lib/editor/blocks/control/For.block.ts:811-816 | the traversal visits the block first |
| Chains.ReduceAsWritten | src/client/lib/editor/blocks/control/For.block.ts:830-845 | `reduceChain` as written: the callback on the block, then, unless pruned, the child chain of a `Var` block, or for a `For` block the loop chain and the after chain only when there is an after chain; its properties are the lemmas below |
| Chains.Reduce | src/client/lib/editor/blocks/data/Variable.block.ts:218-231 | `reduceChain` with the loop chain always folded, as `Var.reduceChain` treats its child; proved against the traversal order by `ReduceFollowsTraversal` |
| Chains.AsWrittenIsReduce | src/client/lib/editor/blocks/control/For.block.ts:830-845 | when every loop chain is followed by an after chain, the reduction as written equals the corrected one, pruning included |
| Chains.ReduceAsWrittenFollowsTraversal | src/client/lib/editor/blocks/control/For.block.ts:830-845 | without pruning and with every loop chain followed by an after chain, the reduction as written folds the callback over the blocks in traversal order |
| Chains.NoAfterStopsAtBlock | src/client/lib/editor/blocks/control/For.block.ts:840-842 | a `For` block without an after chain reduces, as written, to the callback on the block alone, whatever its loop chain holds |
| Chains.ReduceFollowsTraversal | src/client/lib/editor/blocks/control/For.block.ts:830-845 | without pruning, the corrected reduction folds over the blocks in traversal order |
| Chains.PruneStopsBelow | src/client/lib/editor/blocks/data/Variable.block.ts:218-231 | a block that prunes stops the reduction from descending below it |
| Chains.LoopSkippedWithoutAfter | src/client/lib/editor/blocks/control/For.block.ts:830-845 | a `For` block with a loop chain and no after chain counts one block as written, where the traversal and the corrected reduction count two |
| AppService.ValidateDirObj | src/app.service.ts:10-15 | arrays are invalid, `null` throws the `TypeError`, and an object is checked entry by entry |
| AppService.EveryEntry | src/app.service.ts:13 | the entries are checked in order and the check stops at the first failure |
| AppService.ValidateIffDirShape | src/app.service.ts:10-15 | validation succeeds iff the object is not an array and every value is a string or a valid directory |
| AppService.ValidationStopsAtFirstFailure | src/app.service.ts:13 | a bad entry before a `null` returns false, and a `null` before it throws |
| AppService.TraverseDir | src/app.service.ts:33-41 | the archive gains exactly the string leaves, depth first in entry order, at their joined paths |
| AppService.TraverseEntries | src/app.service.ts:34-40 | the entries are walked in order, each appending its own leaves after those of the earlier entries |
| AppService.TraverseEntry | src/app.service.ts:35-39 | a string entry is one file at the joined path; a directory entry appends the leaves below that path |
| AppService.LeavesAreKeyPaths | src/app.service.ts:33-41 | each leaf's path is its directory path joined with its key |
| AppService.Leaves | src/app.service.ts:33-41 | the files a directory object holds, as (path, text) pairs in entry order; `LeavesAreKeyPaths` and `TraverseDir` state its properties |
| AppService.TopLevelPathIsSlashJoin | src/app.service.ts:36-38 | from the top level, a path is its keys joined by `/`, with no leading `/` |
| AppService.EmptyTopKeyDropped | src/app.service.ts:36-38 | an empty top-level key leaves no trace in the path |
| AppService.Tar.Append | src/app.service.ts:23-24 | appending adds the file at the end of the archive |
| AppService.Tar.constructor | src/app.service.ts:21 | a new archive holds no files |
| AppService.Admission | src/app.service.ts:18-19 | a bundle is admitted iff the sources are a valid directory and every include matches `^\w+$`; otherwise the matching exception is thrown |
| AppService.LibPathStaysInLib | src/app.service.ts:19-24 | an accepted include's path is `lib/<name>.h`, with no `/` or `.` in the name |
| AppService.LibFiles | src/app.service.ts:24 | each include is appended, in order, at `lib/<name>.h` |
| AppService.Bundle | src/app.service.ts:17-24 | a refused request throws before anything is appended; an admitted one yields a fresh archive with the sources' leaves and then the library headers |
| Gradients.GradientBuilder.constructor | src/client/lib/engine/GradientBuilder.ts:11-13 | a new builder has a single checkpoint of its colour at offset 0 |
| Gradients.GradientBuilder.Add | src/client/lib/engine/GradientBuilder.ts:15-22 | the new checkpoint, coloured like the last one when no colour is given, is inserted after every offset not larger and before every larger one; the list grows by one and stays sorted; the builder is returned |
| Gradients.InsertedStablySorted | src/client/lib/engine/GradientBuilder.ts:15-19 | a stable insertion into a sorted list keeps it sorted and adds exactly the new checkpoint |
| Gradients.GradientBuilder.Build | src/client/lib/engine/GradientBuilder.ts:24-26 | the gradient gets the builder's own list, not a copy |
| Gradients.MovableGradient.constructor | src/client/lib/engine/MovableGradient.ts:4 | the gradient holds the list it was given |

## Left out

- Canvas, layout, drag and drop, rendering and the DOM are not modelled. Slot geometry, the `update` click handler of refs, `duplicateChain` and `mergeLayers` are among them.
- Refs are not placed in the editor context on creation. `VariableBlock.RefDetached` does not position the ref or add it to the editor context.
- `DataType.ts` is not part of this model. A type is its `compile()` text and headers, with its `numeric`, `integral` and byte flags as plain fields.
- `parenthesize` and `resolveNumerics` are not part of this model. They are function parameters of the compile functions.
- The operands' own `compile` calls are inputs. An operand is given with its compiled result, or the error it throws.
- The value blocks create a child `LexicalScope` for the checks; that side effect on `scope.children` is left out.
- The value blocks append their check in place with `push`. The model appends to a fresh result record, which nothing else holds.
- The child chains of the `Var` and `For` blocks are compiled by function parameters. A chain reports the blocks it declares into the shared scope and the error it throws; it sees the declarations visible when it starts.
- `Analyzer.SubSides`: a string paired with a value under `-` gives `NaN` in JavaScript. The model returns `Unmodelled` there, because it carries no `NaN`.
- `Analyzer.ReduceExprAboveSet`: a finite set holding a string gives `Math.max` a `NaN` bound in JavaScript. The model returns `Unmodelled` there, because it carries no `NaN`.
- `Analyzer.ReduceExprBelowSet`: a finite set holding a string gives `Math.min` a `NaN` bound in JavaScript. The model returns `Unmodelled` there, for the same reason.
- `duplicate()` returns a constructor-fresh block. The model does not copy the other fields the editor copies.
- JavaScript numbers are integers in the model, with `±Infinity` only where an interval bound can be infinite. Floating point and `NaN` are not modelled.
- Gradient offsets are reals. The JavaScript sort is modelled as a stable insertion, which is what a stable sort does to a list that was sorted before the push.
- `Gradients.GradientBuilder.Add` stores a copy of the checkpoint. The source pushes the caller's object, which the caller may still alias.
- Strings are sequences of characters. UTF-16 surrogate pairs are not modelled.
- `Object.keys`/`Object.entries` enumerate integer-like keys first. JSON objects are taken to list their entries in enumeration order already; the model does not reorder them.
- JSON `null` also stands for `undefined`.
- The tar encoding and gzip stream are left out. `readFileSync` is a function parameter that returns the bytes of a header.
- `includes` is a list of strings. A non-array `includes` is not modelled.
- `satisfy`, `analyze` and the `>` branch of `simplify` are left out. They use loose JavaScript comparison on untyped values, floating-point epsilons and the hardware device list.
- The block classes whose `compile` is a thin template over helpers outside the model are left out: `if`, `while`, print, input and set-variable.
- `Constraints.ConstraintTable.ApplyCondition`: requires every variable the condition mentions to have an entry. With a missing entry the source would conjoin with `undefined`.
- `Analyzer.Simplify`: covers trees without variables. The variable branch depends on the analysis context, which is left out.
- `ArithValues.GuardFiresIffOutOfRange`: states the run-time meaning of each guard on mathematical integers. The C++ code that evaluates it is `RangeChecks`, proved separately.
- `ArithValues.GuardFiresIffOutOfRange`: assumes the other variable `y` lies within the guarded variable's type `T`. A wider `y` (a `long` beside an `int`) is narrowed to `T` when passed to `safe(T, T)`, and that narrowing is not modelled.
- `ArithValues.GuardFiresIffOutOfRange`: covers integer literals only. A string, boolean or `null` literal is guarded with its text as the template argument (`maxPositive<string>()`), which names no number; no run-time meaning is given to that test.
- `Analyzer.ReduceSetIntersection`: proved only when members with tied bounds carry equal flags on them. This holds for the open intervals the expression reducer builds (`Analyzer.OpenIntervalsTiesAgree`). On other ties the fold as written can admit a value one member excludes (see Findings).
- `CompilerUtils.Union`: returns a mathematical set. The JavaScript `Set` also keeps the order of first insertion, which the model does not capture.
- `ArrayTypes.ArrayRegistry.For`: requires at least one dimension. The source's `for(type, 0)` calls itself on -1, -2, … and never returns, so that call is not modelled.

## Findings

| source | as written | input that shows it | evidently intended | confidence | as-written member | corrected member |
|---|---|---|---|---|---|---|
| src/client/lib/compiler/analyzer.ts:528-538 | on equal bounds, the interval intersection keeps the exclusivity flag of the first member that reached the bound | `[1, ∞)` then `(1, ∞)`: the result `[1, ∞)` admits 1, which the second interval excludes | a tie makes the bound exclusive if either member's is, so the result is the exact intersection; `ReduceSet` keeps the step as written | medium, not executed | Analyzer.IntersectionFlagCounterexample | Analyzer.FoldIsIntersection |
| src/client/lib/compiler/analyzer.ts:282-292 | on the negative branch, the old constraint is negated together with the condition (`Neg(And(old, P))`) | old `x > 0`, condition `x < 5`: the new constraint admits `x = -1` | keep the old constraint and negate only the condition (`And(old, Neg(P))`) | high, not executed | Constraints.NegationAsWrittenLosesConstraint | Constraints.ConstraintTable.ApplyNegCondition |
| src/client/lib/editor/blocks/control/For.block.ts:830-845 | the loop chain's result reaches the caller only through the after chain, so with no after chain the loop chain is not folded | a `For` block with one block in its loop and nothing after: a counting callback counts 1 | fold the loop chain, then the after chain if there is one | low, not executed; latent: the callers shown pass `effectiveHeight`, which prunes at the first block of an encapsulated chain, so none observes the skip | Chains.LoopSkippedWithoutAfter | Chains.ReduceFollowsTraversal |
