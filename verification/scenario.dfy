/**
 * Worked examples on records `{id, parentId}` whose root has a null parent id, `None` here:
 * the build, search and count results for a root with two children, the empty list, and a
 * filtered count whose filter is not applied below the direct children.
 */
module Scenario {
  import opened Wrappers
  import opened Trees
  import opened Seqs
  import opened Traversal
  import opened Queries
  import opened Builder
  import opened RoundTrip

  datatype Row = Row(id: int, parentId: Option<int>)

  function RowId(r: Row): Option<int> { Some(r.id) }

  function RowParent(r: Row): Option<int> { r.parentId }

  function RowValue(r: Row): Row { r }

  /** Null ranks highest, then id 1, then every other id. */
  function RowRank(k: Option<int>): nat
  {
    if k.None? then 2 else if k.value == 1 then 1 else 0
  }

  const R1 := Row(1, None)
  const R2 := Row(2, Some(1))
  const R3 := Row(3, Some(1))
  const R4 := Row(4, Some(2))

  function IdAbove1(r: Row): bool { r.id > 1 }

  function IdIs2(r: Row): bool { r.id == 2 }

  const Built := Node(R1, [Node(R2, []), Node(R3, [])])

  const Recs := [R1, R2, R3]

  /** Records 1, 2, 3 with 2 and 3 under 1, root parent id null: the tree is 1 over [2, 3], in that order. */
  lemma RootWithTwoChildren()
    ensures BuildTree(Recs, None, RowId, RowParent, RowValue, RowRank) == Some(Built)
  {
    RootForest();
  }

  lemma NoChildrenUnder(k: Option<int>)
    requires k == Some(2) || k == Some(3)
    ensures BuildForest(Recs, k, RowId, RowParent, RowValue, RowRank) == []
  {
    MatchingOfThree(k);
  }

  lemma ForestUnder1()
    ensures BuildForest(Recs, Some(1), RowId, RowParent, RowValue, RowRank) == [Node(R2, []), Node(R3, [])]
  {
    var f := BuildForest(Recs, Some(1), RowId, RowParent, RowValue, RowRank);
    MatchingOfThree(Some(1));
    assert Matching(Recs, Some(1), RowParent) == [R2, R3];
    BuildForestChildren(Recs, Some(1), RowId, RowParent, RowValue, RowRank);
    NoChildrenUnder(Some(2));
    NoChildrenUnder(Some(3));
    assert RowId(R2) == Some(2) && RowId(R3) == Some(3);
    assert f[0] == Node(R2, []) && f[1] == Node(R3, []);
  }

  lemma RootForest()
    ensures BuildForest(Recs, None, RowId, RowParent, RowValue, RowRank) == [Built]
  {
    MatchingOfThree(None);
    ForestUnder1();
    assert [R1][1..] == [];
  }

  /** On that tree, findValues with "id > 1" returns [2, 3]. */
  lemma FindAboveRoot()
    ensures FindValues(Built, IdAbove1) == [R2, R3]
  {
    var n2, n3 := Node(R2, []), Node(R3, []);
    assert Built == Node(R1, [n2, n3]);
    FindValuesIsPreorderFilter(Built, IdAbove1);
    PreValuesUnfold(Built);
    LeafValues(R2);
    LeafValues(R3);
    TwoLeavesValues(n2, n3);
    AboveRoot();
  }

  lemma LeafValues(r: Row)
    ensures PreValues(Node(r, [])) == [r]
  {
    PreValuesUnfold(Node(r, []));
  }

  lemma TwoLeavesValues(n2: Tree<Row>, n3: Tree<Row>)
    requires PreValues(n2) == [R2] && PreValues(n3) == [R3]
    ensures ForestValues([n2, n3]) == [R2, R3]
  {
    assert [n2, n3][1..] == [n3] && [n3][1..] == [];
    assert ForestValues([n3]) == [R3];
  }

  lemma AboveRoot()
    ensures Filter(IdAbove1, [R1, R2, R3]) == [R2, R3]
  {
    assert R1.id == 1 && R2.id == 2 && R3.id == 3;
    assert [R1, R2, R3][1..] == [R2, R3] && [R2, R3][1..] == [R3] && [R3][1..] == [];
    assert Filter(IdAbove1, [R3]) == [R3];
    assert Filter(IdAbove1, [R2, R3]) == [R2, R3];
  }

  /** On that tree, countChildren is 2 without a filter and 1 with the filter "id == 2". */
  lemma CountUnderRoot()
    ensures CountChildren(Built, None) == 2
    ensures CountChildren(Built, Some(IdIs2)) == 1
  {
    var n2, n3 := Node(R2, []), Node(R3, []);
    var leaves := [n2, n3];
    assert Built == Node(R1, leaves);
    CountUnfiltered(Built);
    CountFiltered(Built, IdIs2);
    assert leaves[1..] == [n3] && [n3][1..] == [];
    assert Size(n2) == 1 && Size(n3) == 1;
    assert SizeOf([n3]) == 1;
    assert SizeOf(leaves) == 2;
    var p := HoldsAt(IdIs2);
    assert R2.id == 2 && R3.id == 3;
    assert p(n2) == IdIs2(R2) && p(n3) == IdIs2(R3);
    assert p(n2) && !p(n3);
    assert Filter(p, [n3]) == [];
    assert Filter(p, leaves) == [n2] + Filter(p, [n3]);
    assert SizeOf([n2]) == 1;
  }

  lemma MatchingOfThree(k: Option<int>)
    ensures Matching(Recs, k, RowParent) ==
      (if R1.parentId == k then [R1] else []) + (if R2.parentId == k then [R2] else []) + (if R3.parentId == k then [R3] else [])
  {
    var p := ChildOf(RowParent, k);
    assert RowParent(R1) == R1.parentId && RowParent(R2) == R2.parentId && RowParent(R3) == R3.parentId;
    assert p(R1) == (RowParent(R1) == k);
    assert p(R2) == (RowParent(R2) == k);
    assert p(R3) == (RowParent(R3) == k);
    assert [R1, R2, R3][1..] == [R2, R3] && [R2, R3][1..] == [R3] && [R3][1..] == [];
    assert Filter(p, [R3]) == (if p(R3) then [R3] else []) + Filter(p, []);
    assert Filter(p, [R2, R3]) == (if p(R2) then [R2] else []) + Filter(p, [R3]);
    assert Filter(p, [R1, R2, R3]) == (if p(R1) then [R1] else []) + Filter(p, [R2, R3]);
  }

  /** With no records there are no roots and no tree. */
  lemma EmptyList()
    ensures BuildForest([], None, RowId, RowParent, RowValue, RowRank) == []
    ensures BuildTree([], None, RowId, RowParent, RowValue, RowRank) == None
  {
  }

  /**
   * countChildren tests only the direct children: with the filter id == 2, child 2 passes and
   * brings its child 4 along, although 4 fails the filter.
   */
  lemma FilterNotForwarded()
    ensures !IdIs2(R4)
    ensures CountChildren(Node(R1, [Node(R2, [Node(R4, [])])]), Some(IdIs2)) == 2
  {
    var t := Node(R1, [Node(R2, [Node(R4, [])])]);
    CountFiltered(t, IdIs2);
    assert Filter(HoldsAt(IdIs2), [Node(R2, [Node(R4, [])])]) == [Node(R2, [Node(R4, [])])];
    assert [Node(R4, [])][1..] == [];
    assert SizeOf([Node(R4, [])]) == 1;
    assert Size(Node(R2, [Node(R4, [])])) == 2;
  }

  const Orphan := Row(2, Some(99))

  const WithOrphan := [R1, Orphan]

  /** Null ranks highest, id 2 lowest, every other id in between. */
  function OrphanRank(k: Option<int>): nat
  {
    if k.None? then 2 else if k.value == 2 then 0 else 1
  }

  lemma MatchingWithOrphan(k: Option<int>)
    ensures Matching(WithOrphan, k, RowParent) ==
      (if R1.parentId == k then [R1] else []) + (if Orphan.parentId == k then [Orphan] else [])
  {
    var p := ChildOf(RowParent, k);
    assert RowParent(R1) == R1.parentId && RowParent(Orphan) == Orphan.parentId;
    assert p(R1) == (RowParent(R1) == k);
    assert p(Orphan) == (RowParent(Orphan) == k);
    assert WithOrphan[1..] == [Orphan] && [Orphan][1..] == [];
    assert Filter(p, [Orphan]) == (if p(Orphan) then [Orphan] else []) + Filter(p, []);
    assert Filter(p, WithOrphan) == (if p(R1) then [R1] else []) + Filter(p, [Orphan]);
  }

  /** The build keeps record 1 alone: nothing names id 1 as its parent. */
  lemma OrphanBuild()
    ensures BuildTree(WithOrphan, None, RowId, RowParent, RowValue, OrphanRank) == Some(Node(R1, []))
  {
    assert RowId(R1) == Some(1);
    MatchingWithOrphan(None);
    MatchingWithOrphan(Some(1));
    var leaf := Node(R1, []);
    assert BuildForest(WithOrphan, Some(1), RowId, RowParent, RowValue, OrphanRank) == [];
    assert BuildEach(WithOrphan, [R1], None, RowId, RowParent, RowValue, OrphanRank) == [leaf] + BuildEach(WithOrphan, [], None, RowId, RowParent, RowValue, OrphanRank);
    assert BuildForest(WithOrphan, None, RowId, RowParent, RowValue, OrphanRank) == [leaf];
  }

  /** Flattening a lone node with an identity transform gives its value. */
  lemma FlattenLeaf(r: Row)
    ensures FlattenTree(Node(r, []), KeepValue) == [r]
  {
    FlattenIsPreorderMap(Node(r, []), KeepValue);
    assert Size(Node(r, [])) == 1;
  }

  /**
   * Unique ids and a single record under the root key do not make the round trip: record 2 names
   * the parent id 99, which no record carries, and the build drops it.
   */
  lemma OrphanDropped()
    ensures UniqueIds(WithOrphan, RowId) && ChildCount(WithOrphan, RowParent, None) == 1
    ensures !ParentsResolve(WithOrphan, None, RowId, RowParent)
    ensures BuildTree(WithOrphan, None, RowId, RowParent, RowValue, OrphanRank) == Some(Node(R1, []))
    ensures FlattenTree(Node(R1, []), KeepValue) == [R1]
    ensures multiset(FlattenTree(Node(R1, []), KeepValue)) != multiset(Map(RowValue, WithOrphan))
  {
    assert RowId(R1) == Some(1) && RowId(Orphan) == Some(2);
    MatchingWithOrphan(None);
    MatchingCount(WithOrphan, None, RowParent);
    assert Orphan in WithOrphan && RowParent(Orphan) != None;
    OrphanBuild();
    FlattenLeaf(R1);
    assert Map(RowValue, WithOrphan) == [R1, Orphan];
    assert multiset(Map(RowValue, WithOrphan))[Orphan] == 1;
  }

  const Loop2 := Row(2, Some(3))
  const Loop3 := Row(3, Some(2))
  /** Record 1 under the root key, and records 2 and 3 naming each other as parent. */
  const WithLoop := [R1, Loop2, Loop3]

  /**
   * The three conditions of the round trip hold for a list with a cycle that the root key does
   * not reach, yet no ranking exists for it: the ranking is a fourth condition, acyclicity of
   * every parent id, and without it the cycle's records are never reached from the root key.
   */
  lemma CycleUnranked(rank: Option<int> -> nat)
    ensures UniqueIds(WithLoop, RowId) && ParentsResolve(WithLoop, None, RowId, RowParent)
    ensures ChildCount(WithLoop, RowParent, None) == 1
    ensures !Ranked(WithLoop, RowId, RowParent, rank)
  {
    assert WithLoop[0] == R1 && WithLoop[1] == Loop2 && WithLoop[2] == Loop3;
    assert WithLoop[1..] == [Loop2, Loop3] && WithLoop[1..][1..] == [Loop3] && WithLoop[1..][1..][1..] == [];
    assert ChildCount([Loop3], RowParent, None) == 0;
    assert ChildCount([Loop2, Loop3], RowParent, None) == 0;
    assert Loop3 in WithLoop && RowId(Loop3) == RowParent(Loop2);
    assert Loop2 in WithLoop && RowId(Loop2) == RowParent(Loop3);
  }
}
