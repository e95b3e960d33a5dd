/** The compiler's symbol table: scopes linked to their parent, each with a
    registry from declaring blocks to entries. */
module Scopes {

  import opened Wrappers

  /** `VarEntry`: the declaring block and the scope that declared it. */
  datatype Entry = Entry(block: object, scope: LexicalScope)

  class LexicalScope {
    const parent: LexicalScope?
    var registry: map<object, Entry>
    var children: seq<LexicalScope>

    /** The number of scopes above this one. */
    ghost const depth: nat
    /** The scopes above this one, nearest first. */
    ghost const above: seq<LexicalScope>

    /** The parent links form a finite chain whose `above` lists it. */
    ghost predicate Linked()
      decreases depth
    {
      if parent == null then depth == 0 && above == []
      else parent.depth < depth && above == [parent] + parent.above && parent.Linked()
    }

    /** This scope and those above it, nearest first. */
    ghost function Chain(): seq<LexicalScope>
    {
      [this] + above
    }

    constructor(parent: LexicalScope?)
      requires parent != null ==> parent.Linked()
      modifies if parent == null then {} else {parent}
      ensures this.parent == parent && Linked()
      ensures registry == map[] && children == []
      ensures parent != null ==> parent.children == old(parent.children) + [this]
    {
      this.parent := parent;
      registry := map[];
      children := [];
      depth := if parent == null then 0 else parent.depth + 1;
      above := if parent == null then [] else [parent] + parent.above;
      new;
      if parent != null {
        parent.children := parent.children + [this];
      }
    }

    /** `declare(block)`: the block maps to an entry naming it and this scope;
        a second declaration overwrites the first. */
    method Declare(block: object) returns (self: LexicalScope)
      requires Linked()
      modifies this
      ensures self == this
      ensures registry == old(registry)[block := Entry(block, this)]
      ensures children == old(children)
      ensures Lookup(block) == Some(Entry(block, this))
      ensures parent != null ==> parent.Visible() == old(parent.Visible())
    {
      AboveIsDeeper(this);
      registry := registry[block := Entry(block, this)];
      self := this;
    }

    /** `lookup(ref)`, keyed by `ref.master`: the entry of the nearest scope on
        the parent chain that declared it. */
    function Lookup(master: object): (r: Option<Entry>)
      requires Linked()
      reads this, set x | x in above
      decreases depth
    {
      if master in registry then Some(registry[master])
      else if parent == null then None
      else parent.Lookup(master)
    }

    /** The declarations visible here, nearer ones shadowing those above. */
    function Visible(): (v: map<object, Entry>)
      requires Linked()
      reads this, set x | x in above
      ensures registry.Keys <= v.Keys
      decreases depth
    {
      if parent == null then registry else parent.Visible() + registry
    }
  }

  /** A lookup finds something exactly when some scope on the chain declared
      the master, and then it is that scope's entry with no nearer scope
      declaring it. */
  lemma {:induction false} LookupFindsNearest(s: LexicalScope, master: object)
    requires s.Linked()
    ensures s.Lookup(master).None? <==> forall i :: 0 <= i < |s.Chain()| ==> master !in s.Chain()[i].registry
    ensures s.Lookup(master).Some? ==>
      exists i :: 0 <= i < |s.Chain()| && master in s.Chain()[i].registry &&
        s.Lookup(master) == Some(s.Chain()[i].registry[master]) &&
        forall j :: 0 <= j < i ==> master !in s.Chain()[j].registry
    decreases s.depth
  {
    assert s.Chain()[0] == s;
    if s.parent == null {
      assert s.Chain() == [s];
    } else if master !in s.registry {
      var p := s.parent;
      LookupFindsNearest(p, master);
      assert forall i :: 1 <= i < |s.Chain()| ==> s.Chain()[i] == p.Chain()[i - 1];
      if p.Lookup(master).Some? {
        var i :| 0 <= i < |p.Chain()| && master in p.Chain()[i].registry &&
          p.Lookup(master) == Some(p.Chain()[i].registry[master]) &&
          forall j :: 0 <= j < i ==> master !in p.Chain()[j].registry;
        assert s.Chain()[i + 1] == p.Chain()[i];
        forall j | 0 <= j < i + 1
          ensures master !in s.Chain()[j].registry
        {
          if j > 0 { assert s.Chain()[j] == p.Chain()[j - 1]; }
        }
      }
    }
  }

  /** `lookup` agrees with the merged view of the chain. */
  lemma {:induction false} LookupIsVisible(s: LexicalScope, master: object)
    requires s.Linked()
    ensures s.Lookup(master) == if master in s.Visible() then Some(s.Visible()[master]) else None
    decreases s.depth
  {
    if s.parent != null {
      LookupIsVisible(s.parent, master);
    }
  }

  /** Every scope above `s` is nearer the root, so `s` is not among them and
      declarations in `s` cannot reach the scopes its lookups fall back to. */
  lemma {:induction false} AboveIsDeeper(s: LexicalScope)
    requires s.Linked()
    ensures forall i :: 0 <= i < |s.above| ==> s.above[i].depth < s.depth && s.above[i].Linked()
    ensures s !in s.above
    decreases s.depth
  {
    if s.parent != null {
      AboveIsDeeper(s.parent);
      assert forall i :: 1 <= i < |s.above| ==> s.above[i] == s.parent.above[i - 1];
    }
  }
}
