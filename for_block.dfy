/** The `For` block: its iteration configuration, the slots each
    configuration exposes, the ejection of slot values when the
    configuration changes, the renaming of copies, the chain reduction and
    the compiled loop. */
module ForLoops {

  import opened Wrappers
  import Scopes
  import Naming
  import TextUtils
  import Variables

  /** `IterationConfig`: a fixed bound is `Some`, a bound left to a slot is
      `None`. */
  datatype IterationConfig =
    | Interval(from: Option<int>, to: Option<int>, step: Option<int>)
    | Generator(start: Option<int>, step: Option<int>)
    | Iterable

  /** The block's five slots: four value slots and the `end` predicate slot. */
  datatype SlotKind = FromSlot | ToSlot | StepSlot | EndSlot | IterableSlot

  /** The configuration of a new block: `interval` from 1 to 10 by 1. */
  const DefaultConfig := Interval(Some(1), Some(10), Some(1))

  /** The starting value is fixed by the configuration. */
  predicate StartFixed(c: IterationConfig)
    requires !c.Iterable?
  {
    if c.Interval? then c.from.Some? else c.start.Some?
  }

  /** `valueSlots`: the iterable slot alone for an iterable configuration;
      otherwise `from`, `to` and `step`, in that order, each only when the
      configuration leaves it open. */
  function ValueSlots(c: IterationConfig): (r: seq<SlotKind>)
    ensures c.Iterable? ==> r == [IterableSlot]
    ensures !c.Iterable? ==>
      (FromSlot in r <==> !StartFixed(c)) &&
      (ToSlot in r <==> c.Interval? && c.to.None?) &&
      (StepSlot in r <==> c.step.None?) &&
      IterableSlot !in r && EndSlot !in r
    ensures forall i, j :: 0 <= i < j < |r| ==> Rank(r[i]) < Rank(r[j])
  {
    if c.Iterable? then [IterableSlot]
    else
      (if StartFixed(c) then [] else [FromSlot]) +
      (if c.Generator? || c.to.Some? then [] else [ToSlot]) +
      (if c.step.Some? then [] else [StepSlot])
  }

  /** The order in which `valueSlots` lists the slots. */
  function Rank(k: SlotKind): nat
  {
    match k
    case FromSlot => 0
    case ToSlot => 1
    case StepSlot => 2
    case EndSlot => 3
    case IterableSlot => 4
  }

  /** `predicateSlots`: the `end` slot, for generators only. */
  function PredicateSlots(c: IterationConfig): (r: seq<SlotKind>)
    ensures (EndSlot in r <==> c.Generator?) && |r| <= 1
    ensures forall k :: k in r ==> k == EndSlot
  {
    if c.Generator? then [EndSlot] else []
  }

  /** The slots a configuration shows. */
  function Exposed(c: IterationConfig): set<SlotKind>
  {
    (set k | k in ValueSlots(c)) + (set k | k in PredicateSlots(c))
  }

  /** The default configuration fixes every bound, so no slot is shown. */
  lemma DefaultExposesNothing()
    ensures ValueSlots(DefaultConfig) == [] && PredicateSlots(DefaultConfig) == []
    ensures Exposed(DefaultConfig) == {}
  {
    assert StartFixed(DefaultConfig);
  }

  /** The `from` slot is cleared on a switch to `next`. */
  predicate FromHidden(next: IterationConfig)
  {
    next.Iterable? || (next.Generator? && next.start.Some?) || (next.Interval? && next.from.Some?)
  }

  /** The `step` slot is cleared on a switch to `next`. */
  predicate StepHidden(next: IterationConfig)
  {
    next.Iterable? || (next.Generator? && next.step.Some?) || (next.Interval? && next.step.Some?)
  }

  /** Whether the `config` setter, leaving `prev` for `next`, ejects the
      value in slot `k`: each case of the setter looks only at the slots its
      old configuration shows. */
  predicate Ejects(prev: IterationConfig, next: IterationConfig, k: SlotKind)
  {
    match prev
    case Interval(_, _, _) =>
      (k == FromSlot && FromHidden(next)) ||
      (k == ToSlot && (next.Iterable? || next.Generator? || (next.Interval? && next.to.Some?))) ||
      (k == StepSlot && StepHidden(next))
    case Iterable => k == IterableSlot && !next.Iterable?
    case Generator(_, _) =>
      (k == FromSlot && FromHidden(next)) ||
      (k == EndSlot && (next.Iterable? || next.Interval?)) ||
      (k == StepSlot && StepHidden(next))
  }

  /** Whether a configuration shows slot `k`, slot by slot. */
  predicate Shows(c: IterationConfig, k: SlotKind)
  {
    match k
    case FromSlot => !c.Iterable? && !StartFixed(c)
    case ToSlot => c.Interval? && c.to.None?
    case StepSlot => !c.Iterable? && c.step.None?
    case EndSlot => c.Generator?
    case IterableSlot => c.Iterable?
  }

  lemma ExposedIffShows(c: IterationConfig, k: SlotKind)
    ensures k in Exposed(c) <==> Shows(c, k)
  {
    if c.Iterable? {
      assert ValueSlots(c) == [IterableSlot];
    }
  }

  /** For a slot the old configuration shows, the setter ejects its value
      exactly when the new configuration does not show the slot. */
  lemma EjectsIffHidden(prev: IterationConfig, next: IterationConfig, k: SlotKind)
    requires Shows(prev, k)
    ensures Ejects(prev, next, k) <==> !Shows(next, k)
  {
  }

  /** What a slot holds after a change of configuration from `prev` to
      `next`, given what it held before. */
  function After(held: object?, prev: IterationConfig, next: IterationConfig, k: SlotKind): object?
  {
    if Ejects(prev, next, k) then null else held
  }

  /** `BlockCompileResult` of the `For` block. */
  type BlockResult = Variables.BlockResult

  class ForBlock {
    var name: string
    var config: IterationConfig
    /** The values sitting in the slots; `null` for an empty slot. */
    var fromValue: object?
    var toValue: object?
    var stepValue: object?
    var endValue: object?
    var iterableValue: object?

    /** The value in slot `k`. */
    function Value(k: SlotKind): object?
      reads this
    {
      match k
      case FromSlot => fromValue
      case ToSlot => toValue
      case StepSlot => stepValue
      case EndSlot => endValue
      case IterableSlot => iterableValue
    }

    /** Only the slots the configuration shows hold values. */
    ghost predicate Valid()
      reads this
    {
      forall k :: Value(k) != null ==> Shows(config, k)
    }

    /** A new block: index `i`, the default interval, empty slots. */
    constructor()
      ensures name == "i" && config == DefaultConfig && Valid()
      ensures forall k :: Value(k) == null
    {
      name := "i";
      config := DefaultConfig;
      fromValue, toValue, stepValue, endValue, iterableValue := null, null, null, null, null;
    }

    /** The `config` setter: ejects, case by case on the old configuration,
        the values of the slots the new one hides, then switches. */
    method SetConfig(next: IterationConfig) returns (ejected: seq<SlotKind>)
      modifies this
      ensures config == next && name == old(name)
      ensures forall k :: Value(k) == After(old(Value(k)), old(config), next, k)
      ensures forall k :: k in ejected <==> old(Value(k)) != null && Ejects(old(config), next, k)
      ensures old(Valid()) ==> Valid()
      ensures old(Valid()) ==> forall k :: Value(k) != null <==> old(Value(k)) != null && Shows(next, k)
    {
      match config {
        case Interval(_, _, _) => ejected := LeaveInterval(next);
        case Iterable => ejected := LeaveIterable(next);
        case Generator(_, _) => ejected := LeaveGenerator(next);
      }
      forall k | old(Valid()) && old(Value(k)) != null
        ensures Ejects(old(config), next, k) <==> !Shows(next, k)
      {
        EjectsIffHidden(old(config), next, k);
      }
      config := next;
    }

    /** The `interval` case of the setter: clears `from`, `to` and `step`
        when `next` hides them. */
    method LeaveInterval(next: IterationConfig) returns (ejected: seq<SlotKind>)
      requires config.Interval?
      modifies this
      ensures config == old(config) && name == old(name)
      ensures forall k :: Value(k) == After(old(Value(k)), config, next, k)
      ensures forall k :: k in ejected <==> old(Value(k)) != null && Ejects(config, next, k)
    {
      ejected := [];
      if fromValue != null && FromHidden(next) {
        fromValue := null;
        ejected := ejected + [FromSlot];
      }
      if toValue != null && (next.Iterable? || next.Generator? || (next.Interval? && next.to.Some?)) {
        toValue := null;
        ejected := ejected + [ToSlot];
      }
      if stepValue != null && StepHidden(next) {
        stepValue := null;
        ejected := ejected + [StepSlot];
      }
    }

    /** The `iterable` case of the setter: clears the iterable slot unless
        `next` is iterable too. */
    method LeaveIterable(next: IterationConfig) returns (ejected: seq<SlotKind>)
      requires config.Iterable?
      modifies this
      ensures config == old(config) && name == old(name)
      ensures forall k :: Value(k) == After(old(Value(k)), config, next, k)
      ensures forall k :: k in ejected <==> old(Value(k)) != null && Ejects(config, next, k)
    {
      ejected := [];
      if iterableValue != null && !next.Iterable? {
        iterableValue := null;
        ejected := ejected + [IterableSlot];
      }
    }

    /** The `generator` case of the setter: clears `from`, `end` and `step`
        when `next` hides them. */
    method LeaveGenerator(next: IterationConfig) returns (ejected: seq<SlotKind>)
      requires config.Generator?
      modifies this
      ensures config == old(config) && name == old(name)
      ensures forall k :: Value(k) == After(old(Value(k)), config, next, k)
      ensures forall k :: k in ejected <==> old(Value(k)) != null && Ejects(config, next, k)
    {
      ejected := [];
      if fromValue != null && FromHidden(next) {
        fromValue := null;
        ejected := ejected + [FromSlot];
      }
      if endValue != null && (next.Iterable? || next.Interval?) {
        endValue := null;
        ejected := ejected + [EndSlot];
      }
      if stepValue != null && StepHidden(next) {
        stepValue := null;
        ejected := ejected + [StepSlot];
      }
    }

    /** `duplicate()`: a new block from the constructor, so with the default
        configuration, named by the duplicate-renaming rule. */
    method Duplicate() returns (that: ForBlock)
      ensures fresh(that) && that.Valid()
      ensures that.name == Naming.DuplicateName(name)
      ensures that.config == DefaultConfig && forall k :: that.Value(k) == null
    {
      that := new ForBlock();
      that.name := Naming.DuplicateName(name);
    }

    /** `compile(scope)`: the loop chain compiles first and the after chain
        next, both into `scope` itself, so the after chain sees what the
        loop chain declared; a throw in the loop chain ends the compile
        before the after chain runs.  The configuration and the slots play
        no part, and the block declares nothing of its own. */
    method Compile(scope: Scopes.LexicalScope, loop: Option<Variables.ChildCompile>, after: Option<Variables.ChildCompile>)
      returns (r: Result<BlockResult>)
      requires scope.Linked()
      modifies scope
      ensures var lo := Variables.RunChild(loop, old(scope.Visible()));
        var afterSeen := old(scope.Visible()) + Variables.Declared(lo.declares, scope);
        var af := Variables.RunChild(after, afterSeen);
        if !lo.result.Ok? then
          scope.registry == old(scope.registry) + Variables.Declared(lo.declares, scope) && r == lo.result
        else
          scope.registry == old(scope.registry) + Variables.Declared(lo.declares, scope) + Variables.Declared(af.declares, scope) &&
          (af.result.Ok? ==> r == Ok(LoopResult(lo.result.value, af.result.value))) &&
          (!af.result.Ok? ==> r == af.result)
    {
      var lo := Variables.RunChild(loop, scope.Visible());
      Variables.DeclareAll(scope, lo.declares);
      if !lo.result.Ok? {
        return lo.result;
      }
      var af := Variables.RunChild(after, scope.Visible());
      Variables.DeclareAll(scope, af.declares);
      if af.result.Ok? {
        r := Ok(LoopResult(lo.result.value, af.result.value));
      } else {
        r := af.result;
      }
    }
  }

  /** The result of a `For` block whose chains compiled to `loop` and
      `after`: an endless `for` around the loop chain's lines, indented one
      level, followed by the after chain's lines; the headers of both. */
  function LoopResult(loop: BlockResult, after: BlockResult): (r: BlockResult)
    ensures r.lines == ["for (;true;) {"] + TextUtils.IndentOnce(loop.lines) + ["}"] + after.lines
    ensures r.includes == loop.includes + after.includes
  {
    var src := [TextUtils.Line("for (;true;) {"), TextUtils.Nested(TextUtils.Lines(loop.lines)), TextUtils.Line("}")]
               + TextUtils.Lines(after.lines);
    TextUtils.BlockLines("for (;true;) {", loop.lines, "}", after.lines);
    Variables.BlockResult(TextUtils.Lns(src, 0), loop.includes + after.includes)
  }

  /** `ForIndexRefValue`: reads the loop index of its `For` block. */
  class ForIndexRefValue {
    const master: ForBlock

    constructor(master: ForBlock)
      ensures this.master == master
    {
      this.master := master;
    }

    /** `compile(scope)`: the index name when the `For` block is declared on
        the scope chain, an error otherwise. */
    function Compile(scope: Scopes.LexicalScope): (r: Result<string>)
      requires scope.Linked()
      reads master, scope, set x | x in scope.above
      ensures r.Ok? <==> scope.Lookup(master).Some?
      ensures r.Ok? ==> r.value == master.name
      ensures !r.Ok? ==> r == Err(Variables.NotDeclared(master.name))
    {
      if scope.Lookup(master).None? then Err(Variables.NotDeclared(master.name))
      else Ok(master.name)
    }
  }

  /** The index ref resolves exactly when some scope on the chain has the
      `For` block in its registry, which `ForBlock.Compile` never arranges. */
  lemma IndexRefNeedsDeclaration(ref: ForIndexRefValue, scope: Scopes.LexicalScope)
    requires scope.Linked()
    ensures ref.Compile(scope).Ok? <==>
      exists i :: 0 <= i < |scope.Chain()| && ref.master in scope.Chain()[i].registry
  {
    Scopes.LookupFindsNearest(scope, ref.master);
  }
}
