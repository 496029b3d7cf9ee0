/**
 * The traversal engine of tree-utils.ts (`visitTree`). A visitor is a pure step function on a
 * caller-chosen state `S`; what a callback would accumulate through side effects is threaded
 * through the calls in the order the engine makes them.
 */
module Traversal {
  import opened Trees
  import opened Seqs

  /** One call of the visitor: the node, its ancestors from the root down, its position among its siblings. */
  datatype Visit<T> = Visit(node: Tree<T>, parents: seq<Tree<T>>, index: nat)

  /** The two visitor shapes: one sees nodes and ancestor nodes, the other bare values and ancestor values. */
  datatype Visitor<!S, !T> =
    | NodeVisitor(visitNode: (S, Tree<T>, seq<Tree<T>>, nat) -> S)
    | ValueVisitor(visitValue: (S, T, seq<T>, nat) -> S)

  function ValueOf<T>(t: Tree<T>): T { t.value }

  /** The values of a list of nodes, in order. */
  function Values<T>(ns: seq<Tree<T>>): (r: seq<T>)
    ensures |r| == |ns|
  {
    Map(ValueOf, ns)
  }

  /** Dispatch on the visitor's shape and make one call. */
  function Call<S, T>(visitor: Visitor<S, T>, s: S, node: Tree<T>, parents: seq<Tree<T>>, index: nat): S
  {
    match visitor
    case NodeVisitor(f) => f(s, node, parents, index)
    case ValueVisitor(g) => g(s, node.value, Values(parents), index)
  }

  /** Visit a node, then each of its children in stored order with the node appended to the ancestors. */
  function VisitTreeInternal<S, T>(t: Tree<T>, parents: seq<Tree<T>>, index: nat, visitor: Visitor<S, T>, s: S): S
    decreases t, 1
  {
    var s' := Call(visitor, s, t, parents, index);
    match t
    case Leaf(_) => s'
    case Node(_, cs) => VisitEach(cs, parents + [t], 0, visitor, s')
  }

  /** The `forEach` over children: child k is visited with index k. */
  function VisitEach<S, T>(cs: seq<Tree<T>>, parents: seq<Tree<T>>, k: nat, visitor: Visitor<S, T>, s: S): S
    decreases cs, |cs| - k
  {
    if k >= |cs| then s
    else VisitEach(cs, parents, k + 1, visitor, VisitTreeInternal(cs[k], parents, k, visitor, s))
  }

  /** `visitTree`: start at the root with no ancestors and index 0. */
  function VisitTree<S, T>(t: Tree<T>, visitor: Visitor<S, T>, s: S): S
  {
    VisitTreeInternal(t, [], 0, visitor, s)
  }

  /** The pre-order enumeration of the calls the engine makes from a node. */
  function PreFrom<T>(t: Tree<T>, parents: seq<Tree<T>>, index: nat): (r: seq<Visit<T>>)
    ensures |r| >= 1 && r[0] == Visit(t, parents, index)
    decreases t, 1
  {
    [Visit(t, parents, index)] +
    match t
    case Leaf(_) => []
    case Node(_, cs) => PreKids(cs, parents + [t], 0)
  }

  function PreKids<T>(cs: seq<Tree<T>>, parents: seq<Tree<T>>, k: nat): seq<Visit<T>>
    decreases cs, |cs| - k
  {
    if k >= |cs| then [] else PreFrom(cs[k], parents, k) + PreKids(cs, parents, k + 1)
  }

  /** The pre-order enumeration of a whole tree. */
  function Pre<T>(t: Tree<T>): seq<Visit<T>>
  {
    PreFrom(t, [], 0)
  }

  function NodeOf<T>(v: Visit<T>): Tree<T> { v.node }

  function VisitedValue<T>(v: Visit<T>): T { v.node.value }

  /** The values in pre-order. */
  function PreValues<T>(t: Tree<T>): seq<T>
  {
    Map(VisitedValue, Pre(t))
  }

  /** Make the calls of `vs` one after another, threading the state. */
  function Run<S, T>(visitor: Visitor<S, T>, s: S, vs: seq<Visit<T>>): S
  {
    if vs == [] then s
    else Run(visitor, Call(visitor, s, vs[0].node, vs[0].parents, vs[0].index), vs[1..])
  }

  lemma {:induction false} RunAppend<S, T>(visitor: Visitor<S, T>, s: S, a: seq<Visit<T>>, b: seq<Visit<T>>)
    ensures Run(visitor, s, a + b) == Run(visitor, Run(visitor, s, a), b)
  {
    if a == [] {
      assert a + b == b;
    } else {
      assert (a + b)[0] == a[0];
      assert (a + b)[1..] == a[1..] + b;
      RunAppend(visitor, Call(visitor, s, a[0].node, a[0].parents, a[0].index), a[1..], b);
    }
  }

  lemma {:induction false} InternalIsRun<S, T>(t: Tree<T>, parents: seq<Tree<T>>, index: nat, visitor: Visitor<S, T>, s: S)
    ensures VisitTreeInternal(t, parents, index, visitor, s) == Run(visitor, s, PreFrom(t, parents, index))
    decreases t, 1
  {
    var s' := Call(visitor, s, t, parents, index);
    var head := [Visit(t, parents, index)];
    assert Run(visitor, s, head) == s';
    match t
    case Leaf(_) =>
      assert PreFrom(t, parents, index) == head;
    case Node(_, cs) =>
      EachIsRun(cs, parents + [t], 0, visitor, s');
      RunAppend(visitor, s, head, PreKids(cs, parents + [t], 0));
  }

  lemma {:induction false} EachIsRun<S, T>(cs: seq<Tree<T>>, parents: seq<Tree<T>>, k: nat, visitor: Visitor<S, T>, s: S)
    ensures VisitEach(cs, parents, k, visitor, s) == Run(visitor, s, PreKids(cs, parents, k))
    decreases cs, |cs| - k
  {
    if k < |cs| {
      InternalIsRun(cs[k], parents, k, visitor, s);
      var s' := VisitTreeInternal(cs[k], parents, k, visitor, s);
      EachIsRun(cs, parents, k + 1, visitor, s');
      RunAppend(visitor, s, PreFrom(cs[k], parents, k), PreKids(cs, parents, k + 1));
    }
  }

  /**
   * `visitTree` makes exactly the calls of the pre-order enumeration, one per entry and in
   * that order: its outcome is the visitor's state after running over `Pre(t)`.
   */
  lemma VisitTreeIsPreorderRun<S, T>(t: Tree<T>, visitor: Visitor<S, T>, s: S)
    ensures VisitTree(t, visitor, s) == Run(visitor, s, Pre(t))
  {
    InternalIsRun(t, [], 0, visitor, s);
  }

  lemma {:induction false} PreFromSize<T>(t: Tree<T>, parents: seq<Tree<T>>, index: nat)
    ensures |PreFrom(t, parents, index)| == Size(t)
    decreases t, 1
  {
    match t
    case Leaf(_) =>
    case Node(_, cs) =>
      PreKidsSize(cs, parents + [t], 0);
  }

  lemma {:induction false} PreKidsSize<T>(cs: seq<Tree<T>>, parents: seq<Tree<T>>, k: nat)
    requires k <= |cs|
    ensures |PreKids(cs, parents, k)| == SizeOf(cs[k..])
    decreases cs, |cs| - k
  {
    if k < |cs| {
      PreFromSize(cs[k], parents, k);
      PreKidsSize(cs, parents, k + 1);
      SizeOfFrom(cs, k);
    } else {
      assert cs[k..] == [];
    }
  }

  /** The visitor is called once per node: the enumeration has one entry per node, the root first. */
  lemma PreSize<T>(t: Tree<T>)
    ensures |Pre(t)| == Size(t)
    ensures Pre(t)[0] == Visit(t, [], 0)
  {
    PreFromSize(t, [], 0);
  }

  /** The pre-order values of a forest, tree after tree. */
  function ForestValues<T>(ts: seq<Tree<T>>): seq<T>
  {
    if ts == [] then [] else PreValues(ts[0]) + ForestValues(ts[1..])
  }

  /** The values met in a traversal do not depend on the ancestors or index it starts with. */
  lemma {:induction false} ValuesIgnoreContext<T>(t: Tree<T>, ps: seq<Tree<T>>, i: nat, ps': seq<Tree<T>>, i': nat)
    ensures Map(VisitedValue, PreFrom(t, ps, i)) == Map(VisitedValue, PreFrom(t, ps', i'))
    decreases t, 1
  {
    match t
    case Leaf(_) =>
    case Node(_, cs) =>
      KidsValuesIgnoreContext(cs, ps + [t], ps' + [t], 0);
      MapAppend(VisitedValue, [Visit(t, ps, i)], PreKids(cs, ps + [t], 0));
      MapAppend(VisitedValue, [Visit(t, ps', i')], PreKids(cs, ps' + [t], 0));
  }

  lemma {:induction false} KidsValuesIgnoreContext<T>(cs: seq<Tree<T>>, ps: seq<Tree<T>>, ps': seq<Tree<T>>, k: nat)
    ensures Map(VisitedValue, PreKids(cs, ps, k)) == Map(VisitedValue, PreKids(cs, ps', k))
    decreases cs, |cs| - k
  {
    if k < |cs| {
      ValuesIgnoreContext(cs[k], ps, k, ps', k);
      KidsValuesIgnoreContext(cs, ps, ps', k + 1);
      MapAppend(VisitedValue, PreFrom(cs[k], ps, k), PreKids(cs, ps, k + 1));
      MapAppend(VisitedValue, PreFrom(cs[k], ps', k), PreKids(cs, ps', k + 1));
    }
  }

  lemma {:induction false} KidsValues<T>(cs: seq<Tree<T>>, ps: seq<Tree<T>>, k: nat)
    requires k <= |cs|
    ensures Map(VisitedValue, PreKids(cs, ps, k)) == ForestValues(cs[k..])
    decreases |cs| - k
  {
    if k < |cs| {
      KidsValues(cs, ps, k + 1);
      ValuesIgnoreContext(cs[k], ps, k, [], 0);
      MapAppend(VisitedValue, PreFrom(cs[k], ps, k), PreKids(cs, ps, k + 1));
      assert cs[k..][0] == cs[k];
      assert cs[k..][1..] == cs[k + 1..];
    } else {
      assert cs[k..] == [];
    }
  }

  /** The values of a tree in pre-order: its own value, then those of its children's subtrees in order. */
  lemma PreValuesUnfold<T>(t: Tree<T>)
    ensures PreValues(t) == [t.value] + ForestValues(Kids(t))
  {
    match t
    case Leaf(_) =>
    case Node(_, cs) =>
      KidsValues(cs, [t], 0);
      assert [] + [t] == [t];
      assert cs[0..] == cs;
      MapAppend(VisitedValue, [Visit(t, [], 0)], PreKids(cs, [t], 0));
  }
}
