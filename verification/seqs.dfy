/** Order-preserving sequence combinators (the `map` and `filter` of arrays) and their algebra. */
module Seqs {

  /** Applies `f` to every element, keeping positions. */
  function Map<A, B>(f: A -> B, s: seq<A>): (r: seq<B>)
    ensures |r| == |s|
    ensures forall i :: 0 <= i < |s| ==> r[i] == f(s[i])
  {
    if s == [] then [] else [f(s[0])] + Map(f, s[1..])
  }

  /** Keeps, in their original order, the elements that satisfy `p`. */
  function Filter<A>(p: A -> bool, s: seq<A>): (r: seq<A>)
    ensures |r| <= |s|
    ensures forall x :: x in r ==> x in s && p(x)
  {
    if s == [] then [] else (if p(s[0]) then [s[0]] else []) + Filter(p, s[1..])
  }

  lemma MapAppend<A, B>(f: A -> B, a: seq<A>, b: seq<A>)
    ensures Map(f, a + b) == Map(f, a) + Map(f, b)
  {
  }

  lemma {:induction false} FilterAppend<A>(p: A -> bool, a: seq<A>, b: seq<A>)
    ensures Filter(p, a + b) == Filter(p, a) + Filter(p, b)
  {
    if a == [] {
      assert a + b == b;
    } else {
      assert (a + b)[0] == a[0];
      assert (a + b)[1..] == a[1..] + b;
      FilterAppend(p, a[1..], b);
    }
  }

  /** Filter keeps exactly the multiplicity of every element that passes, and drops every other one. */
  lemma {:induction false} FilterMultiplicity<A>(p: A -> bool, s: seq<A>, x: A)
    ensures multiset(Filter(p, s))[x] == if p(x) then multiset(s)[x] else 0
  {
    if s != [] {
      FilterMultiplicity(p, s[1..], x);
      assert s == [s[0]] + s[1..];
      assert multiset(s) == multiset{s[0]} + multiset(s[1..]);
    }
  }

  /** Filter returns nothing exactly when no element passes. */
  lemma {:induction false} FilterEmpty<A>(p: A -> bool, s: seq<A>)
    ensures Filter(p, s) == [] <==> forall x :: x in s ==> !p(x)
  {
    if s != [] {
      FilterEmpty(p, s[1..]);
      assert forall x :: x in s <==> x == s[0] || x in s[1..];
    }
  }

  /** The first survivor of a filter is the element at the first passing position. */
  lemma {:induction false} FilterHead<A>(p: A -> bool, s: seq<A>) returns (j: nat)
    requires Filter(p, s) != []
    ensures j < |s| && p(s[j]) && Filter(p, s)[0] == s[j]
    ensures forall k :: 0 <= k < j ==> !p(s[k])
  {
    if p(s[0]) {
      j := 0;
    } else {
      var j' := FilterHead(p, s[1..]);
      j := j' + 1;
    }
  }

  /** Mapping after filtering on the mapped value is filtering after mapping. */
  lemma {:induction false} FilterMap<A, B>(f: A -> B, p: B -> bool, q: A -> bool, s: seq<A>)
    requires forall x :: q(x) == p(f(x))
    ensures Map(f, Filter(q, s)) == Filter(p, Map(f, s))
  {
    if s != [] {
      FilterMap(f, p, q, s[1..]);
      assert Map(f, s) == [f(s[0])] + Map(f, s[1..]);
      MapAppend(f, if q(s[0]) then [s[0]] else [], Filter(q, s[1..]));
    }
  }

  /** No element occurs twice. */
  ghost predicate Distinct<A>(s: seq<A>)
  {
    forall x :: x in s ==> multiset(s)[x] <= 1
  }

  /** Two duplicate-free sequences with the same elements hold the same multiset. */
  lemma SameElementsSameMultiset<A>(s: seq<A>, u: seq<A>)
    requires Distinct(s) && Distinct(u)
    requires forall x :: x in s <==> x in u
    ensures multiset(s) == multiset(u)
  {
    forall x
      ensures multiset(s)[x] == multiset(u)[x]
    {
      assert x in s <==> x in u;
    }
  }

  /** Mapping respects rearrangement: equal multisets map to equal multisets. */
  lemma {:induction false} MapMultiset<A, B>(f: A -> B, s: seq<A>, u: seq<A>)
    requires multiset(s) == multiset(u)
    ensures multiset(Map(f, s)) == multiset(Map(f, u))
    decreases |s|
  {
    if s == [] {
      assert |u| == |multiset(u)| == 0;
    } else {
      var x := s[0];
      assert x in multiset(u);
      var i :| 0 <= i < |u| && u[i] == x;
      var u' := u[..i] + u[i + 1..];
      assert u == u[..i] + [x] + u[i + 1..];
      assert s == [x] + s[1..];
      assert multiset(u) == multiset(u[..i]) + multiset{x} + multiset(u[i + 1..]);
      assert multiset(s) == multiset{x} + multiset(s[1..]);
      assert multiset(u') == multiset(u[..i]) + multiset(u[i + 1..]);
      forall y
        ensures multiset(s[1..])[y] == multiset(u')[y]
      {
        assert multiset(s)[y] == multiset(u)[y];
      }
      assert multiset(s[1..]) == multiset(u');
      MapMultiset(f, s[1..], u');
      MapAppend(f, [x], s[1..]);
      MapAppend(f, u[..i] + [x], u[i + 1..]);
      MapAppend(f, u[..i], [x]);
      MapAppend(f, u[..i], u[i + 1..]);
    }
  }
}
