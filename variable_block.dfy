/** The `Var` block, which declares a variable in the scope it is compiled
    in, and the ref values that read the variable back. */
module Variables {

  import opened Wrappers
  import Scopes
  import Naming
  import ArithValues

  /** A `DataType` as a declaration uses it: what its `compile()` yields (the
      C++ text and the headers it needs) and what the compiler knows of it. */
  datatype DataType = DataType(info: ArithValues.TypeInfo, includes: set<string>)

  /** `DataType.PRIMITIVES.INT`: `int`, needing no header. */
  const Int := DataType(ArithValues.TypeInfo("int", true, true, false), {})

  /** `BlockCompileResult`: the statement lines and the headers they need. */
  datatype BlockResult = BlockResult(lines: seq<string>, includes: set<string>)

  /** What compiling the child chain does to the scope it is given: its
      result, or the error it throws, and the blocks it declares into that
      same scope on the way (the `Var` blocks along it, up to a throw). */
  datatype ChildOutcome = ChildOutcome(result: Result<BlockResult>, declares: seq<object>)

  /** How the child chain compiles, given the declarations visible to it. */
  type ChildCompile = map<object, Scopes.Entry> -> ChildOutcome

  /** What an optional child chain does when it compiles with `seen`
      visible: an absent chain gives no lines and declares nothing. */
  function RunChild(child: Option<ChildCompile>, seen: map<object, Scopes.Entry>): (out: ChildOutcome)
    ensures child.None? ==> out.result == Ok(BlockResult([], {})) && out.declares == []
  {
    if child.Some? then child.value(seen) else ChildOutcome(Ok(BlockResult([], {})), [])
  }

  /** The entries that declaring each of `blocks` in `s` leaves behind. */
  function Declared(blocks: seq<object>, s: Scopes.LexicalScope): map<object, Scopes.Entry>
  {
    map b | b in blocks :: Scopes.Entry(b, s)
  }

  /** Declaring one more block adds its entry on top of the earlier ones. */
  lemma DeclaredSnoc(base: map<object, Scopes.Entry>, blocks: seq<object>, b: object, s: Scopes.LexicalScope)
    ensures base + Declared(blocks + [b], s) == (base + Declared(blocks, s))[b := Scopes.Entry(b, s)]
  {
    var l, r := base + Declared(blocks + [b], s), (base + Declared(blocks, s))[b := Scopes.Entry(b, s)];
    assert l.Keys == r.Keys;
    forall k | k in l
      ensures l[k] == r[k]
    {
      if k != b && k in blocks {
        assert l[k] == Scopes.Entry(k, s);
      }
    }
  }

  /** The message of the error a ref to an undeclared variable raises. */
  function NotDeclared(name: string): string
  {
    "Variable " + name + " not declared in current scope!"
  }

  /** The declarations a child chain makes, one `declare` call each, in
      order, into the scope it was given. */
  method DeclareAll(scope: Scopes.LexicalScope, blocks: seq<object>)
    requires scope.Linked()
    modifies scope
    ensures scope.registry == old(scope.registry) + Declared(blocks, scope)
    ensures scope.parent != null ==> scope.parent.Visible() == old(scope.parent.Visible())
    ensures scope.Visible() == old(scope.Visible()) + Declared(blocks, scope)
  {
    var i := 0;
    while i < |blocks|
      invariant 0 <= i <= |blocks|
      invariant scope.registry == old(scope.registry) + Declared(blocks[..i], scope)
      invariant scope.parent != null ==> scope.parent.Visible() == old(scope.parent.Visible())
    {
      assert blocks[..i + 1] == blocks[..i] + [blocks[i]];
      DeclaredSnoc(old(scope.registry), blocks[..i], blocks[i], scope);
      var _ := scope.Declare(blocks[i]);
      i := i + 1;
    }
    assert blocks[..i] == blocks;
    if scope.parent != null {
      var a, b, c := old(scope.parent.Visible()), old(scope.registry), Declared(blocks, scope);
      assert (a + b) + c == a + (b + c);
    }
  }

  class VariableBlock {
    var name: string
    var dataType: DataType
    var checked: bool
    var refs: set<VariableRefValue>

    /** A new block: `var_name`, an `int`, unchecked, with no refs yet. */
    constructor()
      ensures name == "var_name" && dataType == Int && !checked && refs == {}
    {
      name := "var_name";
      dataType := Int;
      checked := false;
      refs := {};
    }

    /** `compile(scope)`: declares this block in `scope` first, so that the
        child chain (compiled next, against the same scope) resolves refs to
        it; the child's own declarations land in that scope too.  The first
        line declares the variable and the child's lines follow; an error the
        child throws is thrown on, after the declarations already made. */
    method Compile(scope: Scopes.LexicalScope, child: Option<ChildCompile>) returns (r: Result<BlockResult>)
      requires scope.Linked()
      modifies scope
      ensures var seen := old(scope.Visible())[this := Scopes.Entry(this, scope)];
        var out := RunChild(child, seen);
        scope.registry == old(scope.registry)[this := Scopes.Entry(this, scope)] + Declared(out.declares, scope) &&
        (out.result.Ok? ==>
           r == Ok(BlockResult([dataType.info.code + " " + name + ";"] + out.result.value.lines,
                               dataType.includes + out.result.value.includes))) &&
        (!out.result.Ok? ==> r == out.result)
      ensures scope.Lookup(this) == Some(Scopes.Entry(this, scope))
      ensures forall ref: VariableRefValue | ref.master == this :: ref.Compile(scope).Ok?
      ensures this in scope.Visible() && scope.Visible()[this] == Scopes.Entry(this, scope)
    {
      ghost var before := scope.Visible();
      var _ := scope.Declare(this);
      assert scope.Visible() == before[this := Scopes.Entry(this, scope)];
      var out := RunChild(child, scope.Visible());
      DeclareAll(scope, out.declares);
      Scopes.LookupIsVisible(scope, this);
      if out.result.Ok? {
        r := Ok(BlockResult([dataType.info.code + " " + name + ";"] + out.result.value.lines,
                            dataType.includes + out.result.value.includes));
      } else {
        r := out.result;
      }
    }

    /** `duplicate()`: a new block built by the constructor, so with the
        default type and unchecked, named by the duplicate-renaming rule. */
    method Duplicate() returns (that: VariableBlock)
      ensures fresh(that)
      ensures that.name == Naming.DuplicateName(name)
      ensures that.dataType == Int && !that.checked && that.refs == {}
    {
      that := new VariableBlock();
      that.name := Naming.DuplicateName(name);
    }

    /** `refDetached()`: a new attached ref to this block, added to `refs`. */
    method RefDetached() returns (ref: VariableRefValue)
      modifies this
      ensures fresh(ref) && ref.master == this && ref.attached
      ensures refs == old(refs) + {ref}
      ensures name == old(name) && dataType == old(dataType) && checked == old(checked)
    {
      ref := new VariableRefValue(this);
      refs := refs + {ref};
    }
  }

  class VariableRefValue {
    const master: VariableBlock
    var attached: bool

    constructor(master: VariableBlock)
      ensures this.master == master && attached
    {
      this.master := master;
      attached := true;
    }

    /** The `dataType` getter: the master's type. */
    function DataType(): (t: DataType)
      reads master
      ensures t == master.dataType
    {
      master.dataType
    }

    /** The `dataType` setter writes through to the master, so every ref of
        the master sees the new type. */
    method SetDataType(t: DataType)
      modifies master
      ensures master.dataType == t
      ensures forall other: VariableRefValue | other.master == master :: other.DataType() == t
      ensures master.name == old(master.name) && master.checked == old(master.checked)
      ensures master.refs == old(master.refs)
    {
      master.dataType := t;
    }

    /** `delete()`: only a detached ref is removed from its master's `refs`. */
    method Delete()
      modifies master
      ensures attached ==> master.refs == old(master.refs)
      ensures !attached ==> master.refs == old(master.refs) - {this}
      ensures this !in old(master.refs) ==> master.refs == old(master.refs)
      ensures master.name == old(master.name) && master.dataType == old(master.dataType)
      ensures master.checked == old(master.checked)
    {
      if !attached {
        master.refs := master.refs - {this};
      }
    }

    /** `compile(scope)`: the variable's name, an lvalue of the master's type,
        when the master is declared on the scope chain; otherwise an error. */
    function Compile(scope: Scopes.LexicalScope): (r: Result<ArithValues.ExprResult>)
      requires scope.Linked()
      reads master, scope, set x | x in scope.above
      ensures r.Ok? <==> scope.Lookup(master).Some?
      ensures !r.Ok? ==> r == Err(NotDeclared(master.name))
      ensures r.Ok? ==> (r.value.code == master.name && r.value.lvalue &&
                         r.value.resolvedType == Some(master.dataType.info) &&
                         r.value.includes == {} && r.value.checks == [] && r.value.precedence.None?)
    {
      if scope.Lookup(master).None? then Err(NotDeclared(master.name))
      else Ok(ArithValues.ExprResult(master.name, {}, None, [], true, Some(master.dataType.info)))
    }
  }

  /** Lookups are keyed by the master, so all refs of one block compile to
      the same result in any scope. */
  lemma RefsOfOneMasterAgree(a: VariableRefValue, b: VariableRefValue, scope: Scopes.LexicalScope)
    requires scope.Linked() && a.master == b.master
    ensures a.Compile(scope) == b.Compile(scope)
  {
  }

  /** A ref compiles exactly when some scope on the chain declared its
      master. */
  lemma RefCompilesIffDeclared(ref: VariableRefValue, scope: Scopes.LexicalScope)
    requires scope.Linked()
    ensures ref.Compile(scope).Ok? <==>
      exists i :: 0 <= i < |scope.Chain()| && ref.master in scope.Chain()[i].registry
  {
    Scopes.LookupFindsNearest(scope, ref.master);
  }
}
