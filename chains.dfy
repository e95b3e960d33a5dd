/** `reduceChain`: folding a callback over a block and the chains that hang
    off it, where the callback may prune the chain below the block it is
    given. */
module Chains {

  import opened Wrappers

  /** The blocks of a chain: a `Var` block with its child chain, a `For`
      block with its loop chain and its after chain, and a ref value, which
      has no chain below it. */
  datatype Node =
    | VarNode(id: nat, child: Option<Node>)
    | ForNode(id: nat, loop: Option<Node>, after: Option<Node>)
    | RefNode(id: nat)

  /** The callback: the new accumulator, and whether it called `prune`. */
  type Step<!T> = (T, Node) -> (T, bool)

  /** `traverseChain`: the block, then its loop (or child) chain, then its
      after chain. */
  function Order(c: Node): (r: seq<Node>)
    ensures |r| >= 1 && r[0] == c
  {
    match c
    case VarNode(_, child) => [c] + (if child.Some? then Order(child.value) else [])
    case ForNode(_, loop, after) =>
      [c] + (if loop.Some? then Order(loop.value) else []) + (if after.Some? then Order(after.value) else [])
    case RefNode(_) => [c]
  }

  /** Folding the callback over blocks in order, ignoring `prune`. */
  function Fold<T>(blocks: seq<Node>, f: Step<T>, acc: T): T
    decreases |blocks|
  {
    if blocks == [] then acc else Fold(blocks[1..], f, f(acc, blocks[0]).0)
  }

  /** The callback never calls `prune`. */
  ghost predicate NeverPrunes<T(!new)>(f: Step<T>)
  {
    forall acc, b :: !f(acc, b).1
  }

  /** `ForBlock.reduceChain` as written: the loop chain's result is passed on
      only through the after chain, so when there is no after chain the loop
      chain is not folded at all. */
  function ReduceAsWritten<T>(c: Node, f: Step<T>, init: T): T
  {
    var (here, pruned) := f(init, c);
    if pruned then here
    else match c
      case VarNode(_, child) => if child.Some? then ReduceAsWritten(child.value, f, here) else here
      case ForNode(_, loop, after) =>
        if after.Some? then
          ReduceAsWritten(after.value, f, if loop.Some? then ReduceAsWritten(loop.value, f, here) else here)
        else here
      case RefNode(_) => here
  }

  /** `reduceChain` with the loop chain always folded: the block, then (unless
      pruned) the loop chain, then the after chain. */
  function Reduce<T>(c: Node, f: Step<T>, init: T): T
  {
    var (here, pruned) := f(init, c);
    if pruned then here
    else match c
      case VarNode(_, child) => if child.Some? then Reduce(child.value, f, here) else here
      case ForNode(_, loop, after) =>
        var afterLoop := if loop.Some? then Reduce(loop.value, f, here) else here;
        if after.Some? then Reduce(after.value, f, afterLoop) else afterLoop
      case RefNode(_) => here
  }

  lemma {:induction false} FoldAppend<T>(a: seq<Node>, b: seq<Node>, f: Step<T>, acc: T)
    ensures Fold(a + b, f, acc) == Fold(b, f, Fold(a, f, acc))
    decreases |a|
  {
    if a == [] {
      assert a + b == b;
    } else {
      assert (a + b)[0] == a[0] && (a + b)[1..] == a[1..] + b;
      FoldAppend(a[1..], b, f, f(acc, a[0]).0);
    }
  }

  /** Without pruning, the corrected reduction folds the callback over the
      blocks in exactly the order `traverseChain` visits them. */
  lemma {:induction false} ReduceFollowsTraversal<T(!new)>(c: Node, f: Step<T>, init: T)
    requires NeverPrunes(f)
    ensures Reduce(c, f, init) == Fold(Order(c), f, init)
  {
    var here := f(init, c).0;
    assert !f(init, c).1;
    assert Fold([c], f, init) == here;
    match c
    case VarNode(_, child) =>
      if child.Some? {
        ReduceFollowsTraversal(child.value, f, here);
        FoldAppend([c], Order(child.value), f, init);
      } else {
        assert Order(c) == [c];
      }
    case ForNode(_, loop, after) =>
      var l := if loop.Some? then Order(loop.value) else [];
      var a := if after.Some? then Order(after.value) else [];
      assert Order(c) == [c] + l + a;
      FoldAppend([c] + l, a, f, init);
      FoldAppend([c], l, f, init);
      var afterLoop := if loop.Some? then Reduce(loop.value, f, here) else here;
      if loop.Some? {
        ReduceFollowsTraversal(loop.value, f, here);
      }
      assert Fold([c] + l, f, init) == afterLoop;
      if after.Some? {
        ReduceFollowsTraversal(after.value, f, afterLoop);
      }
    case RefNode(_) =>
  }

  /** No `For` block in the chain has a loop chain without an after chain. */
  predicate NoBareLoop(c: Node)
  {
    match c
    case VarNode(_, child) => child.Some? ==> NoBareLoop(child.value)
    case ForNode(_, loop, after) =>
      (loop.Some? ==> after.Some? && NoBareLoop(loop.value)) && (after.Some? ==> NoBareLoop(after.value))
    case RefNode(_) => true
  }

  /** Where every loop chain is followed by an after chain, the reduction as
      written is the corrected one, pruning included. */
  lemma {:induction false} AsWrittenIsReduce<T>(c: Node, f: Step<T>, init: T)
    requires NoBareLoop(c)
    ensures ReduceAsWritten(c, f, init) == Reduce(c, f, init)
  {
    var here := f(init, c).0;
    if !f(init, c).1 {
      match c
      case VarNode(_, child) =>
        if child.Some? {
          AsWrittenIsReduce(child.value, f, here);
        }
      case ForNode(_, loop, after) =>
        if after.Some? {
          var afterLoop := if loop.Some? then Reduce(loop.value, f, here) else here;
          if loop.Some? {
            AsWrittenIsReduce(loop.value, f, here);
          }
          AsWrittenIsReduce(after.value, f, afterLoop);
        }
      case RefNode(_) =>
    }
  }

  /** Without pruning, and with every loop chain followed by an after chain,
      the reduction as written folds the callback over the blocks in the
      order `traverseChain` visits them. */
  lemma ReduceAsWrittenFollowsTraversal<T(!new)>(c: Node, f: Step<T>, init: T)
    requires NeverPrunes(f) && NoBareLoop(c)
    ensures ReduceAsWritten(c, f, init) == Fold(Order(c), f, init)
  {
    AsWrittenIsReduce(c, f, init);
    ReduceFollowsTraversal(c, f, init);
  }

  /** A `For` block with no after chain reduces, as written, to the callback
      on the block alone, whatever its loop chain holds. */
  lemma NoAfterStopsAtBlock<T>(id: nat, loop: Option<Node>, f: Step<T>, init: T)
    ensures ReduceAsWritten(ForNode(id, loop, None), f, init) == f(init, ForNode(id, loop, None)).0
  {
  }

  /** A block that prunes keeps the reduction from descending below it. */
  lemma PruneStopsBelow<T>(c: Node, f: Step<T>, init: T)
    requires f(init, c).1
    ensures Reduce(c, f, init) == f(init, c).0 && ReduceAsWritten(c, f, init) == f(init, c).0
  {
  }

  /** Counting blocks: the callback adds one and never prunes. */
  function Count(acc: int, b: Node): (int, bool)
  {
    (acc + 1, false)
  }

  /** A `For` block with a loop chain and no after chain: the reduction as
      written counts one block where the traversal visits two; the corrected
      reduction counts both. */
  lemma LoopSkippedWithoutAfter()
    ensures var c := ForNode(0, Some(RefNode(1)), None);
      |Order(c)| == 2 && ReduceAsWritten(c, Count, 0) == 1 && Reduce(c, Count, 0) == 2
  {
    var c := ForNode(0, Some(RefNode(1)), None);
    assert Order(c) == [c] + [RefNode(1)];
  }
}
