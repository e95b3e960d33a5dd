/** `ArrayDataType`: a C++ `std::array` type whose element type is a scalar
    or another array type, with an element count per layer that can be
    changed in place, and the factory that caches one instance per element
    type and dimensionality. */
module ArrayTypes {

  import opened Wrappers
  import TextUtils

  /** A non-array `DataType`, by its name and what its `compile()` yields. */
  datatype Scalar = Scalar(name: string, code: string, includes: set<string>)

  /** A `DataType`: a scalar, or an array type object. */
  datatype TypeRef = Base(scalar: Scalar) | Arr(arr: ArrayDataType)

  /** The result of compiling a type: its C++ text and the headers it needs. */
  datatype TypeCode = TypeCode(code: string, includes: set<string>)

  const TooDeep := "Requested dimension more than dimensionality of array"

  /** `std::array<...<root, e_n>..., e_1>` for the layer sizes `shape`,
      outermost first. */
  function Nest(root: string, shape: seq<int>): string
  {
    if shape == [] then root
    else "std::array<" + Nest(root, shape[1..]) + ", " + TextUtils.IntToString(shape[0]) + ">"
  }

  class ArrayDataType {
    const scalar: TypeRef
    var elems: int

    /** The number of array layers below this one. */
    ghost const depth: nat
    /** The array layers below this one, outermost first. */
    ghost const inner: seq<ArrayDataType>

    /** The element types form a finite chain that `inner` lists. */
    ghost predicate Linked()
      decreases depth
    {
      match scalar
      case Base(_) => depth == 0 && inner == []
      case Arr(a) => a.depth < depth && inner == [a] + a.inner && a.Linked()
    }

    /** This layer and those below it, outermost first. */
    ghost function Layers(): seq<ArrayDataType>
    {
      [this] + inner
    }

    /** `new ArrayDataType(scalar)`: one element until resized. */
    constructor(scalar: TypeRef)
      requires scalar.Arr? ==> scalar.arr.Linked()
      ensures this.scalar == scalar && elems == 1 && Linked()
      ensures inner == if scalar.Arr? then [scalar.arr] + scalar.arr.inner else []
    {
      this.scalar := scalar;
      elems := 1;
      depth := if scalar.Arr? then scalar.arr.depth + 1 else 0;
      inner := if scalar.Arr? then [scalar.arr] + scalar.arr.inner else [];
    }

    /** `dimensions`: the number of nested array layers. */
    function Dimensions(): (n: nat)
      requires Linked()
      ensures n == |Layers()| && n >= 1
      decreases depth
    {
      if scalar.Arr? then scalar.arr.Dimensions() + 1 else 1
    }

    /** `rootScalar`: the element type of the innermost layer, the only one
        whose element type is not an array. */
    function RootScalar(): (r: Scalar)
      requires Linked()
      ensures var last := Layers()[|Layers()| - 1];
        last.scalar.Base? && r == last.scalar.scalar
      ensures forall i :: 0 <= i < |Layers()| - 1 ==> Layers()[i].scalar.Arr?
      decreases depth
    {
      match scalar
      case Base(s) => s
      case Arr(a) =>
        var r := a.RootScalar();
        assert forall i :: 1 <= i < |Layers()| ==> Layers()[i] == a.Layers()[i - 1];
        r
    }

    /** The element counts of all layers, outermost first. */
    function Shape(): (s: seq<int>)
      requires Linked()
      reads this, set x | x in inner
      ensures |s| == Dimensions() && s[0] == elems
      decreases depth
    {
      if scalar.Arr? then [elems] + scalar.arr.Shape() else [elems]
    }

    /** `getDimension(dim)`: the element count of layer `dim`, counting the
        outermost as 1; any other `dim` throws. */
    function GetDimension(dim: int): (r: Result<int>)
      requires Linked()
      reads this, set x | x in inner
      ensures r.Ok? <==> 1 <= dim <= Dimensions()
      ensures r.Ok? ==> r.value == Shape()[dim - 1]
      ensures !r.Ok? ==> r == Err(TooDeep)
      decreases depth
    {
      if dim == 1 then Ok(elems)
      else if scalar.Arr? then scalar.arr.GetDimension(dim - 1)
      else Err(TooDeep)
    }

    /** `setDimension(dim, size)`: layer `dim` gets `size` elements and every
        other layer keeps its count; a `dim` outside the layers throws and
        changes nothing. */
    method SetDimension(dim: int, size: int) returns (thrown: Option<string>)
      requires Linked()
      modifies this, set x | x in inner
      ensures thrown.None? <==> 1 <= dim <= Dimensions()
      ensures thrown.None? ==> Shape() == old(Shape())[dim - 1 := size]
      ensures thrown.Some? ==> thrown == Some(TooDeep) && Shape() == old(Shape())
      decreases depth
    {
      InnerIsDeeper(this);
      if dim == 1 {
        elems := size;
        thrown := None;
      } else if scalar.Arr? {
        thrown := scalar.arr.SetDimension(dim - 1, size);
      } else {
        thrown := Some(TooDeep);
      }
    }

    /** `compile()`: `std::array<element, elems>`, needing `array` and
        whatever the element type needs. */
    function Compile(): (r: TypeCode)
      requires Linked()
      reads this, set x | x in inner
      ensures r.code == Nest(RootScalar().code, Shape())
      ensures r.includes == RootScalar().includes + {"array"}
      decreases depth
    {
      var element := match scalar
        case Base(s) => TypeCode(s.code, s.includes)
        case Arr(a) => a.Compile();
      var r := TypeCode("std::array<" + element.code + ", " + TextUtils.IntToString(elems) + ">",
                        element.includes + {"array"});
      assert Shape()[1..] == (if scalar.Arr? then scalar.arr.Shape() else []);
      r
    }
  }

  /** Every layer below `a` is deeper in the chain, so the layers are
      distinct objects. */
  lemma {:induction false} InnerIsDeeper(a: ArrayDataType)
    requires a.Linked()
    ensures forall i :: 0 <= i < |a.inner| ==> a.inner[i].depth < a.depth
    ensures a !in a.inner
    decreases a.depth
  {
    if a.scalar.Arr? {
      InnerIsDeeper(a.scalar.arr);
      assert forall i :: 1 <= i < |a.inner| ==> a.inner[i] == a.scalar.arr.inner[i - 1];
    }
  }

  /** The number of array layers of a type; 0 for a scalar. */
  ghost function TypeDims(t: TypeRef): nat
  {
    if t.Arr? then |t.arr.inner| + 1 else 0
  }

  /** Each cached `for(t, n)` is one of the arrays in `made`, has `n` layers
      over `t`, and its element type is the cached `for(t, n - 1)`, or `t`
      itself when `n` is 1. */
  ghost predicate Cached(inst: map<TypeRef, map<nat, ArrayDataType>>, made: set<ArrayDataType>)
  {
    forall t | t in inst :: forall n | n in inst[t] :: Fits(inst[t], t, n, inst[t][n], made)
  }

  /** `a` may be cached as `for(t, n)` next to the entries of `row`. */
  ghost predicate Fits(row: map<nat, ArrayDataType>, t: TypeRef, n: nat, a: ArrayDataType, made: set<ArrayDataType>)
  {
    n >= 1 && a in made && |a.inner| + 1 == n + TypeDims(t) &&
    (n == 1 ==> a.scalar == t) &&
    (n > 1 ==> n - 1 in row && a.scalar == Arr(row[n - 1]))
  }

  /** Every entry of `inst` is still there, unchanged, in `inst'`. */
  ghost predicate Keeps(inst: map<TypeRef, map<nat, ArrayDataType>>, inst': map<TypeRef, map<nat, ArrayDataType>>)
  {
    forall u | u in inst :: u in inst' && forall n | n in inst[u] :: n in inst'[u] && inst'[u][n] == inst[u][n]
  }

  /** The only entries of `inst'` missing from `inst` are `for(t, n)` with
      `n <= dims`. */
  ghost predicate AddsOnly(inst: map<TypeRef, map<nat, ArrayDataType>>, inst': map<TypeRef, map<nat, ArrayDataType>>,
                           t: TypeRef, dims: nat)
  {
    forall u | u in inst' :: forall n | n in inst'[u] ::
      (u in inst && n in inst[u]) || (u == t && n <= dims)
  }

  /** Caching an entry that fits keeps the cache consistent, keeps every
      earlier entry and adds only that one. */
  lemma CacheEntry(inst: map<TypeRef, map<nat, ArrayDataType>>, made: set<ArrayDataType>,
                   t: TypeRef, n: nat, a: ArrayDataType)
    requires Cached(inst, made)
    requires !(t in inst && n in inst[t])
    requires Fits(if t in inst then inst[t] else map[], t, n, a, made)
    ensures var row: map<nat, ArrayDataType> := if t in inst then inst[t] else map[];
      var inst' := inst[t := row[n := a]];
      Cached(inst', made) && Keeps(inst, inst') && AddsOnly(inst, inst', t, n) && Fits(inst'[t], t, n, a, made)
  {
    var row: map<nat, ArrayDataType> := if t in inst then inst[t] else map[];
    var inst' := inst[t := row[n := a]];
    forall u | u in inst'
      ensures forall m | m in inst'[u] :: Fits(inst'[u], u, m, inst'[u][m], made)
    {
      if u == t {
        forall m | m in inst'[u]
          ensures Fits(inst'[u], u, m, inst'[u][m], made)
        {
          if m != n {
            assert Fits(row, t, m, row[m], made);
          }
        }
      }
    }
  }

  /** A cache stays consistent when more arrays are known. */
  lemma CachedGrows(inst: map<TypeRef, map<nat, ArrayDataType>>, made: set<ArrayDataType>, made': set<ArrayDataType>)
    requires Cached(inst, made) && made <= made'
    ensures Cached(inst, made')
  {
    forall t, n | t in inst && n in inst[t]
      ensures Fits(inst[t], t, n, inst[t][n], made')
    {
      assert Fits(inst[t], t, n, inst[t][n], made);
    }
  }

  /** Keeping entries is transitive. */
  lemma KeepsTransitive(i0: map<TypeRef, map<nat, ArrayDataType>>, i1: map<TypeRef, map<nat, ArrayDataType>>,
                        i2: map<TypeRef, map<nat, ArrayDataType>>)
    requires Keeps(i0, i1) && Keeps(i1, i2)
    ensures Keeps(i0, i2)
  {
  }

  /** Adding entries up to `n` and then up to `m >= n` adds entries up to `m`. */
  lemma AddsOnlyTransitive(i0: map<TypeRef, map<nat, ArrayDataType>>, i1: map<TypeRef, map<nat, ArrayDataType>>,
                           i2: map<TypeRef, map<nat, ArrayDataType>>, t: TypeRef, n: nat, m: nat)
    requires n <= m && AddsOnly(i0, i1, t, n) && AddsOnly(i1, i2, t, m)
    ensures AddsOnly(i0, i2, t, m)
  {
  }

  /** Filling the cache up to `dims - 1` does not reach `dims`. */
  lemma NotCachedYet(before: map<TypeRef, map<nat, ArrayDataType>>, middle: map<TypeRef, map<nat, ArrayDataType>>,
                     t: TypeRef, dims: nat)
    requires dims >= 1
    requires AddsOnly(before, middle, t, dims - 1) && !(t in before && dims in before[t])
    ensures t in middle ==> dims !in middle[t]
  {
  }

  /** Filling the cache up to `dims - 1` and then adding `dims`. */
  lemma GrowsInTwoSteps(before: map<TypeRef, map<nat, ArrayDataType>>, middle: map<TypeRef, map<nat, ArrayDataType>>,
                        after: map<TypeRef, map<nat, ArrayDataType>>, t: TypeRef, dims: nat)
    requires dims >= 1
    requires Keeps(before, middle) && AddsOnly(before, middle, t, dims - 1)
    requires Keeps(middle, after) && AddsOnly(middle, after, t, dims)
    ensures Keeps(before, after) && AddsOnly(before, after, t, dims)
  {
    KeepsTransitive(before, middle, after);
    AddsOnlyTransitive(before, middle, after, t, dims - 1, dims);
  }

  /** `ArrayDataType.instances`: for each element type, the cached array type
      of each dimensionality. */
  class ArrayRegistry {
    var instances: map<TypeRef, map<nat, ArrayDataType>>
    /** Every array type this registry has created. */
    ghost var made: set<ArrayDataType>

    /** The created arrays are well formed and the cache is consistent. */
    ghost predicate Valid()
      reads this
    {
      (forall x | x in made :: x.Linked()) && Cached(instances, made)
    }

    constructor()
      ensures instances == map[] && made == {} && Valid()
    {
      instances := map[];
      made := {};
    }

    /** `ArrayDataType.for(type, dims)`: the cached instance if there is one,
        otherwise a new one over `for(type, dims - 1)` (or `type`), cached
        before it is returned.  Entries already cached stay. */
    method For(t: TypeRef, dims: nat) returns (a: ArrayDataType)
      requires dims >= 1 && Valid() && (t.Arr? ==> t.arr.Linked())
      modifies this
      ensures Valid() && a.Linked() && Keeps(old(instances), instances)
      ensures AddsOnly(old(instances), instances, t, dims)
      ensures t in instances && dims in instances[t] && instances[t][dims] == a
      ensures Fits(instances[t], t, dims, a, made)
      ensures t in old(instances) && dims in old(instances)[t] ==> a == old(instances)[t][dims] && instances == old(instances)
      ensures !(t in old(instances) && dims in old(instances)[t]) ==> fresh(a) && a.elems == 1
      decreases dims, 2
    {
      if t in instances && dims in instances[t] {
        a := instances[t][dims];
        assert Fits(instances[t], t, dims, a, made);
      } else {
        a := Make(t, dims);
      }
    }

    /** The cache-miss half of `for(type, dims)`: builds the array type over
        `for(type, dims - 1)` (or `type`), caches it and returns it. */
    method Make(t: TypeRef, dims: nat) returns (a: ArrayDataType)
      requires dims >= 1 && Valid() && (t.Arr? ==> t.arr.Linked())
      requires !(t in instances && dims in instances[t])
      modifies this
      ensures Valid() && a.Linked() && Keeps(old(instances), instances)
      ensures AddsOnly(old(instances), instances, t, dims)
      ensures t in instances && dims in instances[t] && instances[t][dims] == a
      ensures Fits(instances[t], t, dims, a, made)
      ensures fresh(a) && a.elems == 1
      decreases dims, 1
    {
      if dims == 1 {
        a := MakeBottom(t);
      } else {
        a := MakeNested(t, dims);
      }
    }

    /** A cache miss for `dims > 1`: `for(type, dims - 1)` first, then the
        new layer over it. */
    method MakeNested(t: TypeRef, dims: nat) returns (a: ArrayDataType)
      requires dims > 1 && Valid() && (t.Arr? ==> t.arr.Linked())
      requires !(t in instances && dims in instances[t])
      modifies this
      ensures Valid() && a.Linked() && Keeps(old(instances), instances)
      ensures AddsOnly(old(instances), instances, t, dims)
      ensures t in instances && dims in instances[t] && instances[t][dims] == a
      ensures Fits(instances[t], t, dims, a, made)
      ensures fresh(a) && a.elems == 1
      decreases dims, 0
    {
      ghost var before := instances;
      var below := For(t, dims - 1);
      ghost var middle := instances;
      NotCachedYet(before, middle, t, dims);
      a := MakeOver(t, dims, below);
      GrowsInTwoSteps(before, middle, instances, t, dims);
    }

    /** `new ArrayDataType(type)`, cached as `for(type, 1)`. */
    method MakeBottom(t: TypeRef) returns (a: ArrayDataType)
      requires Valid() && (t.Arr? ==> t.arr.Linked())
      requires !(t in instances && 1 in instances[t])
      modifies this
      ensures Valid() && a.Linked() && Keeps(old(instances), instances)
      ensures AddsOnly(old(instances), instances, t, 1)
      ensures t in instances && 1 in instances[t] && instances[t][1] == a
      ensures Fits(instances[t], t, 1, a, made)
      ensures fresh(a) && a.elems == 1
    {
      a := new ArrayDataType(t);
      CachedGrows(instances, made, made + {a});
      made := made + {a};
      CacheEntry(instances, made, t, 1, a);
      var row: map<nat, ArrayDataType> := if t in instances then instances[t] else map[];
      instances := instances[t := row[1 := a]];
    }

    /** `new ArrayDataType(for(type, dims - 1))`, cached as `for(type, dims)`. */
    method MakeOver(t: TypeRef, dims: nat, below: ArrayDataType) returns (a: ArrayDataType)
      requires dims > 1 && Valid() && below.Linked()
      requires t in instances && dims - 1 in instances[t] && instances[t][dims - 1] == below
      requires Fits(instances[t], t, dims - 1, below, made)
      requires dims !in instances[t]
      modifies this
      ensures Valid() && a.Linked() && Keeps(old(instances), instances)
      ensures AddsOnly(old(instances), instances, t, dims)
      ensures t in instances && dims in instances[t] && instances[t][dims] == a
      ensures Fits(instances[t], t, dims, a, made)
      ensures fresh(a) && a.elems == 1
    {
      a := new ArrayDataType(Arr(below));
      CachedGrows(instances, made, made + {a});
      made := made + {a};
      var row: map<nat, ArrayDataType> := instances[t];
      CacheEntry(instances, made, t, dims, a);
      instances := instances[t := row[dims := a]];
    }
  }
}
