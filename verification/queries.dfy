/** The consumers of the traversal in tree-utils.ts: flatten, find nodes, find values, count. */
module Queries {
  import opened Wrappers
  import opened Trees
  import opened Seqs
  import opened Traversal

  /** The value-visitor `flattenTree` installs: push `transform(value, ancestor values, index)`. */
  function Pusher<T, K>(transform: (T, seq<T>, nat) -> K): Visitor<seq<K>, T>
  {
    ValueVisitor((acc: seq<K>, v: T, ps: seq<T>, i: nat) => acc + [transform(v, ps, i)])
  }

  /** `flattenTree`: the transformed value of every node, in visiting order; one result per node. */
  function FlattenTree<T, K>(t: Tree<T>, transform: (T, seq<T>, nat) -> K): (r: seq<K>)
    ensures |r| == Size(t)
  {
    VisitTreeIsPreorderRun(t, Pusher(transform), []);
    RunPusher(transform, [], Pre(t));
    PreSize(t);
    VisitTree(t, Pusher(transform), [])
  }

  /** What the transformer is handed at one call. */
  function Transformed<T, K>(transform: (T, seq<T>, nat) -> K, v: Visit<T>): K
  {
    transform(v.node.value, Values(v.parents), v.index)
  }

  lemma {:induction false} RunPusher<T, K>(transform: (T, seq<T>, nat) -> K, acc: seq<K>, vs: seq<Visit<T>>)
    ensures Run(Pusher(transform), acc, vs) == acc + Map((v: Visit<T>) => Transformed(transform, v), vs)
    decreases vs
  {
    if vs != [] {
      var acc' := acc + [Transformed(transform, vs[0])];
      RunPusher(transform, acc', vs[1..]);
    }
  }

  /**
   * Flatten is the transformer mapped over the pre-order enumeration: one result per node, the
   * i-th computed from the i-th visited value, its ancestors' values and its sibling index.
   */
  lemma FlattenIsPreorderMap<T, K>(t: Tree<T>, transform: (T, seq<T>, nat) -> K)
    ensures |FlattenTree(t, transform)| == |Pre(t)| == Size(t)
    ensures forall i :: 0 <= i < |Pre(t)| ==>
      FlattenTree(t, transform)[i] == transform(Pre(t)[i].node.value, Values(Pre(t)[i].parents), Pre(t)[i].index)
  {
    VisitTreeIsPreorderRun(t, Pusher(transform), []);
    RunPusher(transform, [], Pre(t));
    PreSize(t);
  }

  /** The predicate `findNodes` and `findValues` apply, read on a node. */
  function HoldsAt<T>(pred: T -> bool): Tree<T> -> bool
  {
    (n: Tree<T>) => pred(n.value)
  }

  /** The node-visitor `findNodes` installs. */
  function NodeCollector<T>(pred: T -> bool): Visitor<seq<Tree<T>>, T>
  {
    NodeVisitor((acc: seq<Tree<T>>, n: Tree<T>, ps: seq<Tree<T>>, i: nat) => if pred(n.value) then acc + [n] else acc)
  }

  /** The value-visitor `findValues` installs. */
  function ValueCollector<T>(pred: T -> bool): Visitor<seq<T>, T>
  {
    ValueVisitor((acc: seq<T>, v: T, ps: seq<T>, i: nat) => if pred(v) then acc + [v] else acc)
  }

  /** `findNodes`: the nodes whose value satisfies the predicate; at most one per node. */
  function FindNodes<T>(t: Tree<T>, pred: T -> bool): (r: seq<Tree<T>>)
    ensures |r| <= Size(t)
    ensures forall n :: n in r ==> pred(n.value)
  {
    VisitTreeIsPreorderRun(t, NodeCollector(pred), []);
    RunNodeCollector(pred, [], Pre(t));
    PreSize(t);
    VisitTree(t, NodeCollector(pred), [])
  }

  /** `findValues`: the values satisfying the predicate; at most one per node. */
  function FindValues<T>(t: Tree<T>, pred: T -> bool): (r: seq<T>)
    ensures |r| <= Size(t)
    ensures forall v :: v in r ==> pred(v)
  {
    VisitTreeIsPreorderRun(t, ValueCollector(pred), []);
    RunValueCollector(pred, [], Pre(t));
    PreSize(t);
    VisitTree(t, ValueCollector(pred), [])
  }

  lemma {:induction false} RunNodeCollector<T>(pred: T -> bool, acc: seq<Tree<T>>, vs: seq<Visit<T>>)
    ensures Run(NodeCollector(pred), acc, vs) == acc + Filter(HoldsAt(pred), Map(NodeOf, vs))
    decreases vs
  {
    if vs != [] {
      var n := vs[0].node;
      var acc' := if pred(n.value) then acc + [n] else acc;
      var ns := Map(NodeOf, vs);
      assert Run(NodeCollector(pred), acc, vs) == Run(NodeCollector(pred), acc', vs[1..]);
      RunNodeCollector(pred, acc', vs[1..]);
      assert ns[1..] == Map(NodeOf, vs[1..]);
      assert ns[0] == n && HoldsAt(pred)(n) == pred(n.value);
      assert Filter(HoldsAt(pred), ns) == (if pred(n.value) then [n] else []) + Filter(HoldsAt(pred), ns[1..]);
    }
  }

  lemma {:induction false} RunValueCollector<T>(pred: T -> bool, acc: seq<T>, vs: seq<Visit<T>>)
    ensures Run(ValueCollector(pred), acc, vs) == acc + Filter(pred, Map(VisitedValue, vs))
    decreases vs
  {
    if vs != [] {
      var x := vs[0].node.value;
      var acc' := if pred(x) then acc + [x] else acc;
      var xs := Map(VisitedValue, vs);
      assert Run(ValueCollector(pred), acc, vs) == Run(ValueCollector(pred), acc', vs[1..]);
      RunValueCollector(pred, acc', vs[1..]);
      assert xs[1..] == Map(VisitedValue, vs[1..]);
      assert xs[0] == x;
      assert Filter(pred, xs) == (if pred(x) then [x] else []) + Filter(pred, xs[1..]);
    }
  }

  /** `findNodes` keeps, in pre-order, exactly the visited nodes whose value satisfies the predicate. */
  lemma FindNodesIsPreorderFilter<T>(t: Tree<T>, pred: T -> bool)
    ensures FindNodes(t, pred) == Filter(HoldsAt(pred), Map(NodeOf, Pre(t)))
  {
    VisitTreeIsPreorderRun(t, NodeCollector(pred), []);
    RunNodeCollector(pred, [], Pre(t));
  }

  /**
   * `findValues` keeps, in pre-order, exactly the values satisfying the predicate, each as often
   * as it occurs in the tree.
   */
  lemma FindValuesIsPreorderFilter<T>(t: Tree<T>, pred: T -> bool)
    ensures FindValues(t, pred) == Filter(pred, PreValues(t))
    ensures forall x :: multiset(FindValues(t, pred))[x] == if pred(x) then multiset(PreValues(t))[x] else 0
  {
    VisitTreeIsPreorderRun(t, ValueCollector(pred), []);
    RunValueCollector(pred, [], Pre(t));
    forall x
      ensures multiset(FindValues(t, pred))[x] == if pred(x) then multiset(PreValues(t))[x] else 0
    {
      FilterMultiplicity(pred, PreValues(t), x);
    }
  }

  /** The two shapes agree: the values `findValues` returns are those of the nodes `findNodes` returns. */
  lemma FindValuesAreFoundNodeValues<T>(t: Tree<T>, pred: T -> bool)
    ensures FindValues(t, pred) == Values(FindNodes(t, pred))
  {
    FindNodesIsPreorderFilter(t, pred);
    FindValuesIsPreorderFilter(t, pred);
    var nodes := Map(NodeOf, Pre(t));
    FilterMap(ValueOf, pred, HoldsAt(pred), nodes);
    assert Map(ValueOf, nodes) == PreValues(t);
  }

  /** The optional filter of `countChildren`: no filter lets every child through. */
  function Passes<T>(filter: Option<T -> bool>, x: T): bool
  {
    match filter
    case None => true
    case Some(f) => f(x)
  }

  /**
   * `countChildren`. The filter is applied to the direct children only: a passing child adds
   * itself and everything under it, counted with no filter.
   */
  function CountChildren<T>(t: Tree<T>, filter: Option<T -> bool>): (n: nat)
    ensures Kids(t) == [] ==> n == 0
    ensures n < Size(t)
    decreases t, 1
  {
    match t
    case Leaf(_) => 0
    case Node(_, cs) => CountEach(cs, filter, 0)
  }

  /** The `filter`, `map` and `reduce` over children from position k onward. */
  function CountEach<T>(cs: seq<Tree<T>>, filter: Option<T -> bool>, k: nat): (n: nat)
    requires k <= |cs|
    ensures n <= SizeOf(cs[k..])
    decreases cs, |cs| - k
  {
    if k == |cs| then 0
    else
      SizeOfFrom(cs, k);
      (if Passes(filter, cs[k].value) then 1 + CountChildren(cs[k], None) else 0) + CountEach(cs, filter, k + 1)
  }

  /** With no filter, `countChildren` is the number of strict descendants. */
  lemma {:induction false} CountUnfiltered<T>(t: Tree<T>)
    ensures CountChildren(t, None) == Size(t) - 1
    decreases t, 1
  {
    match t
    case Leaf(_) =>
    case Node(_, cs) =>
      CountEachAll(cs, 0);
  }

  lemma {:induction false} CountEachAll<T>(cs: seq<Tree<T>>, k: nat)
    requires k <= |cs|
    ensures CountEach(cs, None, k) == SizeOf(cs[k..])
    decreases cs, |cs| - k
  {
    if k < |cs| {
      CountUnfiltered(cs[k]);
      CountEachAll(cs, k + 1);
      SizeOfFrom(cs, k);
    }
  }

  lemma {:induction false} CountEachFiltered<T>(cs: seq<Tree<T>>, f: T -> bool, k: nat)
    requires k <= |cs|
    ensures CountEach(cs, Some(f), k) == SizeOf(Filter(HoldsAt(f), cs[k..]))
    decreases |cs| - k
  {
    if k < |cs| {
      CountEachFiltered(cs, f, k + 1);
      CountUnfiltered(cs[k]);
      assert cs[k..][0] == cs[k];
      assert cs[k..][1..] == cs[k + 1..];
      var head := if f(cs[k].value) then [cs[k]] else [];
      assert Filter(HoldsAt(f), cs[k..]) == head + Filter(HoldsAt(f), cs[k + 1..]);
      SizeOfAppend(head, Filter(HoldsAt(f), cs[k + 1..]));
      assert SizeOf(head) == if f(cs[k].value) then Size(cs[k]) else 0;
    }
  }

  /**
   * With a filter, `countChildren` is the total size of the subtrees of the direct children that
   * pass it: a failing child counts for nothing, its subtree included; a passing child counts
   * itself and all its descendants, whatever the filter says of them.
   */
  lemma CountFiltered<T>(t: Tree<T>, f: T -> bool)
    ensures CountChildren(t, Some(f)) == SizeOf(Filter(HoldsAt(f), Kids(t)))
  {
    match t
    case Leaf(_) =>
    case Node(_, cs) =>
      CountEachFiltered(cs, f, 0);
      assert cs[0..] == cs;
  }

  /**
   * A node whose `children` field is absent is handled like one with an empty array. That covers
   * value-shaped traversal, flattening, `findValues` and counting. `findNodes` yields the same
   * values, though each node found is the node itself.
   */
  lemma MissingChildrenLikeEmpty<T, S, K>(x: T, g: (S, T, seq<T>, nat) -> S, s: S, transform: (T, seq<T>, nat) -> K, pred: T -> bool, filter: Option<T -> bool>)
    ensures VisitTree(Leaf(x), ValueVisitor(g), s) == VisitTree(Node(x, []), ValueVisitor(g), s) == g(s, x, [], 0)
    ensures FlattenTree(Leaf(x), transform) == FlattenTree(Node(x, []), transform) == [transform(x, [], 0)]
    ensures FindValues(Leaf(x), pred) == FindValues(Node(x, []), pred)
    ensures |FindNodes(Leaf(x), pred)| == |FindNodes(Node(x, []), pred)|
    ensures Values(FindNodes(Leaf(x), pred)) == Values(FindNodes(Node(x, []), pred)) == FindValues(Leaf(x), pred)
    ensures CountChildren(Leaf(x), filter) == CountChildren(Node(x, []), filter) == 0
  {
    var leaf, empty := Leaf(x), Node(x, []);
    assert Values<T>([]) == [];
    assert Pre(leaf) == [Visit(leaf, [], 0)];
    assert PreKids<T>([], [] + [empty], 0) == [];
    assert Pre(empty) == [Visit(empty, [], 0)] + PreKids<T>([], [] + [empty], 0);
    VisitTreeIsPreorderRun(leaf, ValueVisitor(g), s);
    VisitTreeIsPreorderRun(empty, ValueVisitor(g), s);
    FlattenIsPreorderMap(leaf, transform);
    FlattenIsPreorderMap(empty, transform);
    FindValuesIsPreorderFilter(leaf, pred);
    FindValuesIsPreorderFilter(empty, pred);
    FindNodesIsPreorderFilter(leaf, pred);
    FindNodesIsPreorderFilter(empty, pred);
    FindValuesAreFoundNodeValues(leaf, pred);
    FindValuesAreFoundNodeValues(empty, pred);
  }
}
