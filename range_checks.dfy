/** Compile-time bounds and runtime safety predicates for integer addition and
    subtraction (the `lellib::addition`, `lellib::subtraction` and bounded
    `*_addition` templates).

    A C++ integer type `T` is modelled by its range `[min, max]`.  Every
    fixed-width integer type, signed or unsigned, has `min <= 0 <= max`.  All
    arithmetic here is on unbounded integers; the lemmas say when an
    intermediate stays inside `T`, which is what makes the C++ code well defined.
*/
module RangeChecks {

  /** `std::numeric_limits<T>::min()` and `max()` of an integer type. */
  datatype IntType = IntType(min: int, max: int)
  {
    ghost predicate Valid() { min <= 0 <= max }

    /** `x` is a value of type `T`. */
    predicate Holds(x: int) { min <= x <= max }
  }

  /** Which limits act as the effective bounds of the addition helpers. */
  datatype BoundPolicy =
    | Unbounded                          // lellib::addition<T>
    | UpperBounded(max: int)             // lellib::ubound_addition<T, max>
    | LowerBounded(min: int)             // lellib::lbound_addition<T, min>
    | RangeBounded(min: int, max: int)   // lellib::rbound_addition<T, min, max>

  /** The upper limit `maxPositive` subtracts from. */
  function UpperLimit(t: IntType, p: BoundPolicy): (u: int)
    ensures p.UpperBounded? || p.RangeBounded? ==> u == p.max
    ensures p.Unbounded? || p.LowerBounded? ==> u == t.max
  {
    match p
    case Unbounded => t.max
    case UpperBounded(max) => max
    case LowerBounded(_) => t.max
    case RangeBounded(_, max) => max
  }

  /** The lower limit `minNegative` subtracts from. */
  function LowerLimit(t: IntType, p: BoundPolicy): (l: int)
    ensures p.LowerBounded? || p.RangeBounded? ==> l == p.min
    ensures p.Unbounded? || p.UpperBounded? ==> l == t.min
  {
    match p
    case Unbounded => t.min
    case UpperBounded(_) => t.min
    case LowerBounded(min) => min
    case RangeBounded(min, _) => min
  }

  // ---------------------------------------------------------------------
  // addition<T> and its bounded variants

  /** `maxPositive<val>()`: the largest `a` with `a + val` within the upper limit. */
  function MaxPositive(t: IntType, p: BoundPolicy, val: int): (r: int)
    ensures r + val <= UpperLimit(t, p) < r + 1 + val
  {
    UpperLimit(t, p) - val
  }

  /** `minNegative<val>()`: the smallest `a` with `a + val` within the lower limit. */
  function MinNegative(t: IntType, p: BoundPolicy, val: int): (r: int)
    ensures r - 1 + val < LowerLimit(t, p) <= r + val
  {
    LowerLimit(t, p) - val
  }

  /** `addition<T>::safe(a, b)`, compared exactly as the C++ code does. */
  function AdditionSafe(t: IntType, a: int, b: int): bool
  {
    if b < 0 then a >= t.min - b else a <= t.max - b
  }

  /** `safe(a, b)` holds exactly when the mathematical sum stays within `T`. */
  lemma AdditionSafeIff(t: IntType, a: int, b: int)
    requires t.Holds(a) && t.Holds(b)
    ensures AdditionSafe(t, a, b) <==> t.Holds(a + b)
  {
    if b < 0 {
      assert a + b <= t.max;
    } else {
      assert a + b >= t.min;
    }
  }

  /** The intermediate `min - b` (for `b < 0`) or `max - b` (for `b >= 0`) of
      `safe` is itself a value of `T`, so `safe` never overflows. */
  lemma AdditionSafeIntermediate(t: IntType, b: int)
    requires t.Valid() && t.Holds(b)
    ensures b < 0 ==> t.Holds(t.min - b)
    ensures b >= 0 ==> t.Holds(t.max - b)
  {
  }

  /** `maxPositive<v>()` is representable for `v >= 0`, `minNegative<v>()` for `v < 0`. */
  lemma AdditionBoundsRepresentable(t: IntType, v: int)
    requires t.Valid() && t.Holds(v)
    ensures v >= 0 ==> t.Holds(MaxPositive(t, Unbounded, v))
    ensures v < 0 ==> t.Holds(MinNegative(t, Unbounded, v))
  {
  }

  /** The compile-time bounds and `safe` agree: for `b >= 0`,
      `a > maxPositive<b>()` iff `!safe(a, b)`; for `b < 0`,
      `a < minNegative<b>()` iff `!safe(a, b)`. */
  lemma AdditionBoundsAgreeWithSafe(t: IntType, a: int, b: int)
    ensures b >= 0 ==> (a > MaxPositive(t, Unbounded, b) <==> !AdditionSafe(t, a, b))
    ensures b < 0 ==> (a < MinNegative(t, Unbounded, b) <==> !AdditionSafe(t, a, b))
  {
  }

  /** The bounded policies change one limit each and nothing else. */
  lemma PoliciesReplaceOneLimit(t: IntType, lo: int, hi: int, v: int)
    ensures MaxPositive(t, UpperBounded(hi), v) == hi - v
    ensures MinNegative(t, UpperBounded(hi), v) == MinNegative(t, Unbounded, v)
    ensures MaxPositive(t, LowerBounded(lo), v) == MaxPositive(t, Unbounded, v)
    ensures MinNegative(t, LowerBounded(lo), v) == lo - v
    ensures MaxPositive(t, RangeBounded(lo, hi), v) == MaxPositive(t, UpperBounded(hi), v)
    ensures MinNegative(t, RangeBounded(lo, hi), v) == MinNegative(t, LowerBounded(lo), v)
  {
  }

  // ---------------------------------------------------------------------
  // subtraction<T>

  /** `minPositive<val>()`: the smallest `a` with `a - val >= min`. */
  function MinPositive(t: IntType, val: int): (r: int)
    ensures r - 1 - val < t.min <= r - val
  {
    t.min + val
  }

  /** `maxNegative<val>()`: the largest `a` with `a - val <= max`. */
  function MaxNegative(t: IntType, val: int): (r: int)
    ensures r - val <= t.max < r + 1 - val
  {
    t.max + val
  }

  /** `subtraction<T>::safe(a, b)`, compared exactly as the C++ code does. */
  function SubtractionSafe(t: IntType, a: int, b: int): bool
  {
    if b < 0 then a <= t.max + b else a >= t.min + b
  }

  /** `safe(a, b)` holds exactly when the mathematical difference stays within `T`. */
  lemma SubtractionSafeIff(t: IntType, a: int, b: int)
    requires t.Holds(a) && t.Holds(b)
    ensures SubtractionSafe(t, a, b) <==> t.Holds(a - b)
  {
    if b < 0 {
      assert a - b >= t.min;
    } else {
      assert a - b <= t.max;
    }
  }

  /** The intermediate `max + b` (for `b < 0`) or `min + b` (for `b >= 0`) is a value of `T`. */
  lemma SubtractionSafeIntermediate(t: IntType, b: int)
    requires t.Valid() && t.Holds(b)
    ensures b < 0 ==> t.Holds(t.max + b)
    ensures b >= 0 ==> t.Holds(t.min + b)
  {
  }

  /** `minPositive<v>()` is representable for `v >= 0`, `maxNegative<v>()` for `v < 0`. */
  lemma SubtractionBoundsRepresentable(t: IntType, v: int)
    requires t.Valid() && t.Holds(v)
    ensures v >= 0 ==> t.Holds(MinPositive(t, v))
    ensures v < 0 ==> t.Holds(MaxNegative(t, v))
  {
  }

  /** The boundary cases of both `safe` predicates. */
  lemma SafeBoundaryCases(t: IntType)
    requires t.Valid() && t.min < 0 < t.max
    ensures AdditionSafe(t, t.max, 0)
    ensures !AdditionSafe(t, t.max, 1) && !AdditionSafe(t, t.min, -1)
    ensures SubtractionSafe(t, t.min, 0)
    ensures !SubtractionSafe(t, t.min, 1) && !SubtractionSafe(t, t.max, -1)
  {
  }
}
