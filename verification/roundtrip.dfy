/**
 * What the builder of tree-utils.ts keeps and what it repeats. A record lands under a key when
 * following parent ids upwards from it, through records carrying those ids, arrives at that key.
 * Suppose ids are unique, the key has a single child record, every other parent id names a
 * record, and a ranking rules out any cycle among parent ids, even one the key does not reach.
 * Then building a tree and flattening it gives back the value of every record exactly once.
 */
module RoundTrip {
  import opened Wrappers
  import opened Trees
  import opened Seqs
  import opened Traversal
  import opened Queries
  import opened Builder

  /**
   * Record x is in the list and following parent ids upwards from it, through any record that
   * carries the id, arrives at pid. Ranks rise strictly along the way, which bounds the walk.
   */
  ghost predicate Reaches<R, K>(recs: seq<R>, x: R, pid: K, id: R -> K, parent: R -> K, rank: K -> nat)
    requires Ranked(recs, id, parent, rank)
    decreases rank(pid) - rank(id(x))
  {
    x in recs && rank(id(x)) < rank(pid) &&
    (parent(x) == pid || exists p :: p in recs && id(p) == parent(x) && Reaches(recs, p, pid, id, parent, rank))
  }

  /** No two positions of the list carry the same id, so in particular no record occurs twice. */
  ghost predicate UniqueIds<R, K>(recs: seq<R>, id: R -> K)
  {
    forall i, j :: 0 <= i < |recs| && 0 <= j < |recs| && id(recs[i]) == id(recs[j]) ==> i == j
  }

  /** Every parent id other than pid names a record of the list. */
  ghost predicate ParentsResolve<R, K>(recs: seq<R>, pid: K, id: R -> K, parent: R -> K)
  {
    forall x :: x in recs && parent(x) != pid ==> exists p :: p in recs && id(p) == parent(x)
  }

  /** The highest rank of an id in the list. */
  ghost function MaxRank<R, K>(recs: seq<R>, id: R -> K, rank: K -> nat): (m: nat)
    ensures forall x :: x in recs ==> rank(id(x)) <= m
  {
    if recs == [] then 0
    else
      var m := MaxRank(recs[1..], id, rank);
      if rank(id(recs[0])) > m then rank(id(recs[0])) else m
  }

  lemma {:induction false} UniqueIdsDistinct<R, K>(recs: seq<R>, id: R -> K)
    requires UniqueIds(recs, id)
    ensures forall x, y :: x in recs && y in recs && id(x) == id(y) ==> x == y
    ensures Distinct(recs)
  {
    forall x, y | x in recs && y in recs && id(x) == id(y)
      ensures x == y
    {
      var i :| 0 <= i < |recs| && recs[i] == x;
      var j :| 0 <= j < |recs| && recs[j] == y;
    }
    if recs != [] {
      var tail := recs[1..];
      forall i, j | 0 <= i < |tail| && 0 <= j < |tail| && id(tail[i]) == id(tail[j])
        ensures i == j
      {
        assert tail[i] == recs[i + 1] && tail[j] == recs[j + 1];
      }
      UniqueIdsDistinct(tail, id);
      assert recs[0] !in tail;
      assert recs == [recs[0]] + tail;
    }
  }

  /** Following parent ids from x to id(m), then from m to k, is a walk from x to k. */
  lemma {:induction false} ReachesTrans<R, K>(recs: seq<R>, x: R, m: R, k: K, id: R -> K, parent: R -> K, rank: K -> nat)
    requires Ranked(recs, id, parent, rank)
    requires Reaches(recs, x, id(m), id, parent, rank) && Reaches(recs, m, k, id, parent, rank)
    ensures Reaches(recs, x, k, id, parent, rank)
    decreases rank(id(m)) - rank(id(x))
  {
    if parent(x) != id(m) {
      var p :| p in recs && id(p) == parent(x) && Reaches(recs, p, id(m), id, parent, rank);
      ReachesTrans(recs, p, m, k, id, parent, rank);
    }
  }

  /** A walk to k that does not end at once passes through a record whose parent id is k. */
  lemma {:induction false} ReachesSplit<R, K>(recs: seq<R>, x: R, k: K, id: R -> K, parent: R -> K, rank: K -> nat)
    requires Ranked(recs, id, parent, rank)
    requires Reaches(recs, x, k, id, parent, rank) && parent(x) != k
    ensures exists m :: m in recs && parent(m) == k && Reaches(recs, x, id(m), id, parent, rank)
    decreases rank(k) - rank(id(x))
  {
    var p :| p in recs && id(p) == parent(x) && Reaches(recs, p, k, id, parent, rank);
    if parent(p) == k {
      assert Reaches(recs, x, id(p), id, parent, rank);
    } else {
      ReachesSplit(recs, p, k, id, parent, rank);
      var m :| m in recs && parent(m) == k && Reaches(recs, p, id(m), id, parent, rank);
      assert Reaches(recs, x, id(m), id, parent, rank);
    }
  }

  /** A record never lies under a sibling: the shared parent id outranks both ids. */
  lemma NotUnderSibling<R, K>(recs: seq<R>, x: R, m: R, id: R -> K, parent: R -> K, rank: K -> nat)
    requires Ranked(recs, id, parent, rank)
    requires x in recs && m in recs && parent(x) == parent(m)
    ensures !Reaches(recs, x, id(m), id, parent, rank)
  {
  }

  /** With unique ids the walk up from a record is one chain, so two records it passes lie one under the other. */
  lemma {:induction false} ChainOrder<R, K>(recs: seq<R>, x: R, a: R, b: R, id: R -> K, parent: R -> K, rank: K -> nat)
    requires Ranked(recs, id, parent, rank) && UniqueIds(recs, id)
    requires a in recs && b in recs
    requires Reaches(recs, x, id(a), id, parent, rank) && Reaches(recs, x, id(b), id, parent, rank)
    ensures a == b || Reaches(recs, a, id(b), id, parent, rank) || Reaches(recs, b, id(a), id, parent, rank)
    decreases rank(id(a)) - rank(id(x))
  {
    UniqueIdsDistinct(recs, id);
    if parent(x) == id(a) {
      if parent(x) != id(b) {
        var q :| q in recs && id(q) == parent(x) && Reaches(recs, q, id(b), id, parent, rank);
        assert q == a;
      }
    } else if parent(x) == id(b) {
      var p :| p in recs && id(p) == parent(x) && Reaches(recs, p, id(a), id, parent, rank);
      assert p == b;
    } else {
      var p :| p in recs && id(p) == parent(x) && Reaches(recs, p, id(a), id, parent, rank);
      var q :| q in recs && id(q) == parent(x) && Reaches(recs, q, id(b), id, parent, rank);
      assert p == q;
      ChainOrder(recs, p, a, b, id, parent, rank);
    }
  }

  /** When every parent id other than pid names a record, every record walks up to pid. */
  lemma {:induction false} ResolvedReaches<R, K>(recs: seq<R>, x: R, pid: K, id: R -> K, parent: R -> K, rank: K -> nat)
    requires Ranked(recs, id, parent, rank)
    ensures x in recs && ParentsResolve(recs, pid, id, parent) ==> Reaches(recs, x, pid, id, parent, rank)
    decreases MaxRank(recs, id, rank) - rank(id(x))
  {
    if x in recs && ParentsResolve(recs, pid, id, parent) && parent(x) != pid {
      var p :| p in recs && id(p) == parent(x);
      ResolvedReaches(recs, p, pid, id, parent, rank);
    }
  }

  lemma {:induction false} DescendEachMembers<R, K>(recs: seq<R>, ms: seq<R>, pid: K, id: R -> K, parent: R -> K, rank: K -> nat, x: R)
    requires Ranked(recs, id, parent, rank)
    requires forall y :: y in ms ==> y in recs && parent(y) == pid
    ensures x in DescendEach(recs, ms, pid, id, parent, rank) <==>
      exists m :: m in ms && (x == m || x in Descendants(recs, id(m), id, parent, rank))
    decreases |ms|
  {
    if ms != [] {
      DescendEachMembers(recs, ms[1..], pid, id, parent, rank, x);
      assert forall m :: m in ms <==> m == ms[0] || m in ms[1..];
    }
  }

  /** The records listed under pid are exactly those whose walk up the parent ids reaches pid. */
  lemma DescendantsMembers<R, K>(recs: seq<R>, pid: K, id: R -> K, parent: R -> K, rank: K -> nat, x: R)
    requires Ranked(recs, id, parent, rank)
    ensures x in Descendants(recs, pid, id, parent, rank) <==> Reaches(recs, x, pid, id, parent, rank)
  {
    if x in Descendants(recs, pid, id, parent, rank) {
      ListedReaches(recs, pid, id, parent, rank, x);
    }
    if Reaches(recs, x, pid, id, parent, rank) {
      ReachingListed(recs, pid, id, parent, rank, x);
    }
  }

  lemma {:induction false} ListedReaches<R, K>(recs: seq<R>, pid: K, id: R -> K, parent: R -> K, rank: K -> nat, x: R)
    requires Ranked(recs, id, parent, rank)
    requires x in Descendants(recs, pid, id, parent, rank)
    ensures Reaches(recs, x, pid, id, parent, rank)
    decreases rank(pid)
  {
    var ms := Matching(recs, pid, parent);
    DescendEachMembers(recs, ms, pid, id, parent, rank, x);
    var m :| m in ms && (x == m || x in Descendants(recs, id(m), id, parent, rank));
    assert m in recs && parent(m) == pid;
    if x != m {
      ListedReaches(recs, id(m), id, parent, rank, x);
      ReachesTrans(recs, x, m, pid, id, parent, rank);
    }
  }

  lemma {:induction false} ReachingListed<R, K>(recs: seq<R>, pid: K, id: R -> K, parent: R -> K, rank: K -> nat, x: R)
    requires Ranked(recs, id, parent, rank)
    requires Reaches(recs, x, pid, id, parent, rank)
    ensures x in Descendants(recs, pid, id, parent, rank)
    decreases rank(pid)
  {
    var ms := Matching(recs, pid, parent);
    if parent(x) == pid {
      FilterMultiplicity(ChildOf(parent, pid), recs, x);
      assert x in ms;
      DescendEachMembers(recs, ms, pid, id, parent, rank, x);
    } else {
      ReachesSplit(recs, x, pid, id, parent, rank);
      var m :| m in recs && parent(m) == pid && Reaches(recs, x, id(m), id, parent, rank);
      FilterMultiplicity(ChildOf(parent, pid), recs, m);
      assert m in ms;
      ReachingListed(recs, id(m), id, parent, rank, x);
      DescendEachMembers(recs, ms, pid, id, parent, rank, x);
    }
  }

  /** With unique ids, no record is listed twice under a key. */
  lemma {:induction false} DescendantsDistinct<R, K>(recs: seq<R>, pid: K, id: R -> K, parent: R -> K, rank: K -> nat)
    requires Ranked(recs, id, parent, rank) && UniqueIds(recs, id)
    ensures Distinct(Descendants(recs, pid, id, parent, rank))
    decreases rank(pid), 1
  {
    var ms := Matching(recs, pid, parent);
    UniqueIdsDistinct(recs, id);
    forall x | x in ms
      ensures multiset(ms)[x] <= 1
    {
      FilterMultiplicity(ChildOf(parent, pid), recs, x);
    }
    DescendEachDistinct(recs, ms, pid, id, parent, rank);
  }

  lemma {:induction false} DescendEachDistinct<R, K>(recs: seq<R>, ms: seq<R>, pid: K, id: R -> K, parent: R -> K, rank: K -> nat)
    requires Ranked(recs, id, parent, rank) && UniqueIds(recs, id)
    requires forall y :: y in ms ==> y in recs && parent(y) == pid
    requires Distinct(ms)
    ensures Distinct(DescendEach(recs, ms, pid, id, parent, rank))
    decreases rank(pid), 0, |ms|
  {
    if ms != [] {
      var m := ms[0];
      var below := Descendants(recs, id(m), id, parent, rank);
      var after := DescendEach(recs, ms[1..], pid, id, parent, rank);
      assert ms == [m] + ms[1..];
      assert multiset(ms) == multiset{m} + multiset(ms[1..]);
      assert multiset(ms)[m] <= 1;
      assert m !in ms[1..];
      forall y | y in ms[1..]
        ensures multiset(ms[1..])[y] <= 1
      {
        assert y in ms && multiset(ms)[y] <= 1;
      }
      DescendantsDistinct(recs, id(m), id, parent, rank);
      DescendEachDistinct(recs, ms[1..], pid, id, parent, rank);
      DescendantsMembers(recs, id(m), id, parent, rank, m);
      SiblingsApart(recs, ms, pid, id, parent, rank);
      var r := [m] + below + after;
      assert r == DescendEach(recs, ms, pid, id, parent, rank);
      assert multiset(r) == multiset{m} + multiset(below) + multiset(after);
      forall x | x in r
        ensures multiset(r)[x] <= 1
      {
        if x == m {
          assert multiset(below)[x] == 0 && multiset(after)[x] == 0;
        } else if x in below {
          assert multiset(after)[x] == 0;
        }
      }
    }
  }

  /**
   * The first of a list of sibling records, and the records under it, are not met again among the
   * later siblings or under them.
   */
  lemma SiblingsApart<R, K>(recs: seq<R>, ms: seq<R>, pid: K, id: R -> K, parent: R -> K, rank: K -> nat)
    requires Ranked(recs, id, parent, rank) && UniqueIds(recs, id)
    requires forall y :: y in ms ==> y in recs && parent(y) == pid
    requires ms != [] && ms[0] !in ms[1..]
    ensures ms[0] !in DescendEach(recs, ms[1..], pid, id, parent, rank)
    ensures forall x :: x in Descendants(recs, id(ms[0]), id, parent, rank) ==> x !in DescendEach(recs, ms[1..], pid, id, parent, rank)
  {
    var m := ms[0];
    var after := DescendEach(recs, ms[1..], pid, id, parent, rank);
    DescendEachMembers(recs, ms[1..], pid, id, parent, rank, m);
    if m in after {
      var m' :| m' in ms[1..] && (m == m' || m in Descendants(recs, id(m'), id, parent, rank));
      DescendantsMembers(recs, id(m'), id, parent, rank, m);
      NotUnderSibling(recs, m, m', id, parent, rank);
    }
    forall x | x in Descendants(recs, id(m), id, parent, rank)
      ensures x !in after
    {
      ApartFromLater(recs, ms, pid, id, parent, rank, x);
    }
  }

  lemma ApartFromLater<R, K>(recs: seq<R>, ms: seq<R>, pid: K, id: R -> K, parent: R -> K, rank: K -> nat, x: R)
    requires Ranked(recs, id, parent, rank) && UniqueIds(recs, id)
    requires forall y :: y in ms ==> y in recs && parent(y) == pid
    requires ms != [] && ms[0] !in ms[1..]
    requires x in Descendants(recs, id(ms[0]), id, parent, rank)
    ensures x !in DescendEach(recs, ms[1..], pid, id, parent, rank)
  {
    var m := ms[0];
    DescendantsMembers(recs, id(m), id, parent, rank, x);
    DescendEachMembers(recs, ms[1..], pid, id, parent, rank, x);
    if x in DescendEach(recs, ms[1..], pid, id, parent, rank) {
      var m' :| m' in ms[1..] && (x == m' || x in Descendants(recs, id(m'), id, parent, rank));
      NotUnderSibling(recs, m', m, id, parent, rank);
      if x != m' {
        NotUnderSibling(recs, m, m', id, parent, rank);
        DescendantsMembers(recs, id(m'), id, parent, rank, x);
        ChainOrder(recs, x, m, m', id, parent, rank);
      }
    }
  }

  /** With unique ids and every record walking up to pid, the records listed under pid are the whole list, each once. */
  lemma DescendantsCoverOnce<R, K>(recs: seq<R>, pid: K, id: R -> K, parent: R -> K, rank: K -> nat)
    requires Ranked(recs, id, parent, rank) && UniqueIds(recs, id)
    requires forall x :: x in recs ==> Reaches(recs, x, pid, id, parent, rank)
    ensures multiset(Descendants(recs, pid, id, parent, rank)) == multiset(recs)
  {
    var d := Descendants(recs, pid, id, parent, rank);
    UniqueIdsDistinct(recs, id);
    DescendantsDistinct(recs, pid, id, parent, rank);
    forall x
      ensures x in d <==> x in recs
    {
      DescendantsMembers(recs, pid, id, parent, rank, x);
    }
    SameElementsSameMultiset(d, recs);
  }

  /** Under the same conditions, walking the built forest meets the provider's value of every record once. */
  lemma ForestReturnsEveryRecord<R, K, T>(recs: seq<R>, pid: K, id: R -> K, parent: R -> K, provider: R -> T, rank: K -> nat)
    requires Ranked(recs, id, parent, rank) && UniqueIds(recs, id)
    requires forall x :: x in recs ==> Reaches(recs, x, pid, id, parent, rank)
    ensures multiset(ForestValues(BuildForest(recs, pid, id, parent, provider, rank))) == multiset(Map(provider, recs))
  {
    ForestRoundTrip(recs, pid, id, parent, provider, rank);
    DescendantsCoverOnce(recs, pid, id, parent, rank);
    MapMultiset(provider, Descendants(recs, pid, id, parent, rank), recs);
  }

  /**
   * Build, then flatten with an identity transform. Suppose ids are unique, a single record is under
   * pid, every other parent id names a record, and the ranking leaves no cycle among parent ids.
   * Then the values come back each exactly once.
   */
  lemma BuildFlattenRoundTrip<R, K, T>(recs: seq<R>, pid: K, id: R -> K, parent: R -> K, provider: R -> T, rank: K -> nat)
    requires Ranked(recs, id, parent, rank) && UniqueIds(recs, id)
    requires ChildCount(recs, parent, pid) == 1 && ParentsResolve(recs, pid, id, parent)
    ensures BuildTree(recs, pid, id, parent, provider, rank).Some?
    ensures multiset(FlattenTree(BuildTree(recs, pid, id, parent, provider, rank).value, KeepValue)) == multiset(Map(provider, recs))
  {
    var forest := BuildForest(recs, pid, id, parent, provider, rank);
    var t := forest[0];
    assert BuildTree(recs, pid, id, parent, provider, rank) == Some(t);
    forall x | x in recs
      ensures Reaches(recs, x, pid, id, parent, rank)
    {
      ResolvedReaches(recs, x, pid, id, parent, rank);
    }
    ForestReturnsEveryRecord(recs, pid, id, parent, provider, rank);
    assert forest == [t];
    assert ForestValues(forest) == PreValues(t) + ForestValues([]);
    FlattenIsPreorderMap(t, KeepValue);
    PreSize(t);
    assert FlattenTree(t, KeepValue) == PreValues(t);
  }
}
