/**
 * The tree builder of tree-utils.ts: a forest rebuilt from a flat list of records that point at
 * their parent by id. `id`, `parent` and `provider` are the caller's selectors.
 *
 * The source recurses without a guard and runs forever when the parent ids form a cycle; here the
 * caller supplies a ghost ranking of ids under which every record's id ranks below its parent id.
 */
module Builder {
  import opened Wrappers
  import opened Trees
  import opened Seqs
  import opened Traversal
  import opened Queries

  /** Every record's id ranks strictly below its parent id, so following parent ids cannot cycle. */
  ghost predicate Ranked<R, K>(recs: seq<R>, id: R -> K, parent: R -> K, rank: K -> nat)
  {
    forall x :: x in recs ==> rank(id(x)) < rank(parent(x))
  }

  /** "The record's parent id is pid" (identity comparison of keys). */
  function ChildOf<R, K(==)>(parent: R -> K, pid: K): R -> bool
  {
    (x: R) => parent(x) == pid
  }

  /** The records whose parent id is pid, in input order. */
  function Matching<R, K(==)>(recs: seq<R>, pid: K, parent: R -> K): seq<R>
  {
    Filter(ChildOf(parent, pid), recs)
  }

  /** How many records name pid as their parent, counted one record at a time. */
  ghost function ChildCount<R, K>(recs: seq<R>, parent: R -> K, pid: K): nat
  {
    if recs == [] then 0 else (if parent(recs[0]) == pid then 1 else 0) + ChildCount(recs[1..], parent, pid)
  }

  lemma {:induction false} MatchingCount<R, K>(recs: seq<R>, pid: K, parent: R -> K)
    ensures |Matching(recs, pid, parent)| == ChildCount(recs, parent, pid)
  {
    if recs != [] {
      MatchingCount(recs[1..], pid, parent);
    }
  }

  /**
   * `buildTreesFromFlatList`: one root per record whose parent id is pid, in input order, each
   * holding the provider's value for its record and, always present, the forest built under its id.
   */
  function BuildForest<R, K(==), T>(recs: seq<R>, pid: K, id: R -> K, parent: R -> K, provider: R -> T, ghost rank: K -> nat): (r: seq<Tree<T>>)
    requires Ranked(recs, id, parent, rank)
    ensures |r| == |Matching(recs, pid, parent)| == ChildCount(recs, parent, pid)
    ensures forall i :: 0 <= i < |r| ==>
      r[i].Node? && r[i].value == provider(Matching(recs, pid, parent)[i]) &&
      |r[i].children| == ChildCount(recs, parent, id(Matching(recs, pid, parent)[i]))
    decreases rank(pid), 1, 0
  {
    MatchingCount(recs, pid, parent);
    BuildEach(recs, Matching(recs, pid, parent), pid, id, parent, provider, rank)
  }

  /** The `map` over matching records: a node per record, with the forest under the record's id. */
  function BuildEach<R, K(==), T>(recs: seq<R>, ms: seq<R>, ghost pid: K, id: R -> K, parent: R -> K, provider: R -> T, ghost rank: K -> nat): (r: seq<Tree<T>>)
    requires Ranked(recs, id, parent, rank)
    requires forall x :: x in ms ==> x in recs && parent(x) == pid
    ensures |r| == |ms|
    ensures forall i :: 0 <= i < |ms| ==>
      r[i].Node? && r[i].value == provider(ms[i]) && |r[i].children| == ChildCount(recs, parent, id(ms[i]))
    decreases rank(pid), 0, |ms|
  {
    if ms == [] then []
    else [Node(provider(ms[0]), BuildForest(recs, id(ms[0]), id, parent, provider, rank))] +
         BuildEach(recs, ms[1..], pid, id, parent, provider, rank)
  }

  /**
   * Root i is the node of the i-th matching record over the forest built under that record's id,
   * so what `BuildForest` states about its roots holds again for the children of every node.
   */
  lemma {:induction false} BuildForestChildren<R, K, T>(recs: seq<R>, pid: K, id: R -> K, parent: R -> K, provider: R -> T, rank: K -> nat)
    requires Ranked(recs, id, parent, rank)
    ensures var ms := Matching(recs, pid, parent);
      |BuildForest(recs, pid, id, parent, provider, rank)| == |ms| &&
      forall i :: 0 <= i < |ms| ==>
        BuildForest(recs, pid, id, parent, provider, rank)[i] == Node(provider(ms[i]), BuildForest(recs, id(ms[i]), id, parent, provider, rank))
  {
    BuildEachChildren(recs, Matching(recs, pid, parent), pid, id, parent, provider, rank);
  }

  lemma {:induction false} BuildEachChildren<R, K, T>(recs: seq<R>, ms: seq<R>, pid: K, id: R -> K, parent: R -> K, provider: R -> T, rank: K -> nat)
    requires Ranked(recs, id, parent, rank)
    requires forall x :: x in ms ==> x in recs && parent(x) == pid
    ensures |BuildEach(recs, ms, pid, id, parent, provider, rank)| == |ms|
    ensures forall i :: 0 <= i < |ms| ==>
      BuildEach(recs, ms, pid, id, parent, provider, rank)[i] == Node(provider(ms[i]), BuildForest(recs, id(ms[i]), id, parent, provider, rank))
    decreases |ms|
  {
    if ms != [] {
      var r := BuildEach(recs, ms, pid, id, parent, provider, rank);
      var rest := BuildEach(recs, ms[1..], pid, id, parent, provider, rank);
      BuildEachChildren(recs, ms[1..], pid, id, parent, provider, rank);
      assert r == [Node(provider(ms[0]), BuildForest(recs, id(ms[0]), id, parent, provider, rank))] + rest;
      forall i | 1 <= i < |ms|
        ensures r[i] == Node(provider(ms[i]), BuildForest(recs, id(ms[i]), id, parent, provider, rank))
      {
        assert r[i] == rest[i - 1] && ms[i] == ms[1..][i - 1];
      }
    }
  }

  /** The roots follow the input order: matching is a filter, so it keeps multiplicities and commutes with concatenation. */
  lemma MatchingInInputOrder<R, K>(recs: seq<R>, more: seq<R>, pid: K, parent: R -> K, x: R)
    ensures Matching(recs + more, pid, parent) == Matching(recs, pid, parent) + Matching(more, pid, parent)
    ensures multiset(Matching(recs, pid, parent))[x] == if parent(x) == pid then multiset(recs)[x] else 0
  {
    FilterAppend(ChildOf(parent, pid), recs, more);
    FilterMultiplicity(ChildOf(parent, pid), recs, x);
  }

  /**
   * `buildTreeFromFlatList`: the first tree of the forest, absent exactly when no record names
   * pid as its parent.
   */
  function BuildTree<R, K(==), T>(recs: seq<R>, pid: K, id: R -> K, parent: R -> K, provider: R -> T, ghost rank: K -> nat): (r: Option<Tree<T>>)
    requires Ranked(recs, id, parent, rank)
    ensures r.None? <==> forall x :: x in recs ==> parent(x) != pid
  {
    FilterEmpty(ChildOf(parent, pid), recs);
    var forest := BuildForest(recs, pid, id, parent, provider, rank);
    if |forest| == 0 then None else Some(forest[0])
  }

  /** Record j is the first, in input order, whose parent id is pid. */
  ghost predicate FirstChild<R, K>(recs: seq<R>, pid: K, parent: R -> K, j: int)
  {
    0 <= j < |recs| && parent(recs[j]) == pid && forall k :: 0 <= k < j ==> parent(recs[k]) != pid
  }

  /** The single tree is rooted at the first record, in input order, whose parent id is pid. */
  lemma BuildTreeIsFirstRoot<R, K, T>(recs: seq<R>, pid: K, id: R -> K, parent: R -> K, provider: R -> T, rank: K -> nat)
    requires Ranked(recs, id, parent, rank)
    requires BuildTree(recs, pid, id, parent, provider, rank).Some?
    ensures exists j :: (FirstChild(recs, pid, parent, j) &&
      BuildTree(recs, pid, id, parent, provider, rank).value == Node(provider(recs[j]), BuildForest(recs, id(recs[j]), id, parent, provider, rank)))
  {
    var ms := Matching(recs, pid, parent);
    var j := FilterHead(ChildOf(parent, pid), recs);
    assert FirstChild(recs, pid, parent, j);
    assert BuildForest(recs, pid, id, parent, provider, rank) == BuildEach(recs, ms, pid, id, parent, provider, rank);
    assert BuildEach(recs, ms, pid, id, parent, provider, rank)[0] == Node(provider(ms[0]), BuildForest(recs, id(ms[0]), id, parent, provider, rank));
  }

  /**
   * The records of the subtrees under pid, in the order a pre-order walk of the built forest
   * meets them: each matching record, then the records under its own id.
   */
  function Descendants<R, K(==)>(recs: seq<R>, pid: K, id: R -> K, parent: R -> K, ghost rank: K -> nat): (r: seq<R>)
    requires Ranked(recs, id, parent, rank)
    ensures forall x :: x in r ==> x in recs
    decreases rank(pid), 1, 0
  {
    DescendEach(recs, Matching(recs, pid, parent), pid, id, parent, rank)
  }

  function DescendEach<R, K(==)>(recs: seq<R>, ms: seq<R>, ghost pid: K, id: R -> K, parent: R -> K, ghost rank: K -> nat): (r: seq<R>)
    requires Ranked(recs, id, parent, rank)
    requires forall x :: x in ms ==> x in recs && parent(x) == pid
    ensures forall x :: x in r ==> x in recs
    decreases rank(pid), 0, |ms|
  {
    if ms == [] then []
    else [ms[0]] + Descendants(recs, id(ms[0]), id, parent, rank) + DescendEach(recs, ms[1..], pid, id, parent, rank)
  }

  lemma {:induction false} ForestValuesAppend<T>(a: seq<Tree<T>>, b: seq<Tree<T>>)
    ensures ForestValues(a + b) == ForestValues(a) + ForestValues(b)
  {
    if a == [] {
      assert a + b == b;
    } else {
      assert (a + b)[0] == a[0];
      assert (a + b)[1..] == a[1..] + b;
      ForestValuesAppend(a[1..], b);
    }
  }

  /** Walking the built forest in pre-order meets the provider's values of the descendant records, in order. */
  lemma {:induction false} ForestRoundTrip<R, K, T>(recs: seq<R>, pid: K, id: R -> K, parent: R -> K, provider: R -> T, rank: K -> nat)
    requires Ranked(recs, id, parent, rank)
    ensures ForestValues(BuildForest(recs, pid, id, parent, provider, rank)) == Map(provider, Descendants(recs, pid, id, parent, rank))
    decreases rank(pid), 1, 0
  {
    EachRoundTrip(recs, Matching(recs, pid, parent), pid, id, parent, provider, rank);
  }

  lemma {:induction false} EachRoundTrip<R, K, T>(recs: seq<R>, ms: seq<R>, pid: K, id: R -> K, parent: R -> K, provider: R -> T, rank: K -> nat)
    requires Ranked(recs, id, parent, rank)
    requires forall x :: x in ms ==> x in recs && parent(x) == pid
    ensures ForestValues(BuildEach(recs, ms, pid, id, parent, provider, rank)) == Map(provider, DescendEach(recs, ms, pid, id, parent, rank))
    decreases rank(pid), 0, |ms|
  {
    if ms != [] {
      var x := ms[0];
      var sub := BuildForest(recs, id(x), id, parent, provider, rank);
      var node := Node(provider(x), sub);
      var rest := BuildEach(recs, ms[1..], pid, id, parent, provider, rank);
      var below := Descendants(recs, id(x), id, parent, rank);
      var after := DescendEach(recs, ms[1..], pid, id, parent, rank);
      ForestRoundTrip(recs, id(x), id, parent, provider, rank);
      EachRoundTrip(recs, ms[1..], pid, id, parent, provider, rank);
      PreValuesUnfold(node);
      ForestValuesAppend([node], rest);
      assert ForestValues([node]) == PreValues(node);
      MapAppend(provider, [x] + below, after);
      MapAppend(provider, [x], below);
    }
  }

  /** Keep the value as it is: the transform of an identity flatten. */
  function KeepValue<T>(v: T, ancestors: seq<T>, index: nat): T { v }

  /**
   * Building a tree and flattening it with an identity transform lists the provider's values of
   * the root record and of the records under it, in pre-order of the parent relation.
   */
  lemma BuildThenFlatten<R, K, T>(recs: seq<R>, pid: K, id: R -> K, parent: R -> K, provider: R -> T, rank: K -> nat)
    requires Ranked(recs, id, parent, rank)
    requires BuildTree(recs, pid, id, parent, provider, rank).Some?
    ensures exists j :: (FirstChild(recs, pid, parent, j) &&
      FlattenTree(BuildTree(recs, pid, id, parent, provider, rank).value, KeepValue) ==
      Map(provider, [recs[j]] + Descendants(recs, id(recs[j]), id, parent, rank)))
  {
    BuildTreeIsFirstRoot(recs, pid, id, parent, provider, rank);
    var t := BuildTree(recs, pid, id, parent, provider, rank).value;
    var j :| FirstChild(recs, pid, parent, j) &&
      t == Node(provider(recs[j]), BuildForest(recs, id(recs[j]), id, parent, provider, rank));
    FlattenIsPreorderMap(t, KeepValue);
    PreSize(t);
    assert FlattenTree(t, KeepValue) == PreValues(t);
    PreValuesUnfold(t);
    ForestRoundTrip(recs, id(recs[j]), id, parent, provider, rank);
    MapAppend(provider, [recs[j]], Descendants(recs, id(recs[j]), id, parent, rank));
  }
}
