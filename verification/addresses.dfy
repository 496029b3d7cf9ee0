/**
 * An independent account of pre-order. A node is named by its address: the child positions
 * leading to it from the root. Pre-order lists every address exactly once, in lexicographic
 * order (a node before its descendants, siblings in stored order), and the engine's call for an
 * address carries the node there, the nodes on the way to it, and its last position.
 */
module Addresses {
  import opened Trees
  import opened Seqs
  import opened Traversal

  /** `a` leads from `t` to some node. */
  predicate ValidAddr<T>(t: Tree<T>, a: seq<nat>)
    decreases |a|
  {
    a == [] || (a[0] < |Kids(t)| && ValidAddr(Kids(t)[a[0]], a[1..]))
  }

  /** The node at address `a`. */
  function At<T>(t: Tree<T>, a: seq<nat>): Tree<T>
    requires ValidAddr(t, a)
    decreases |a|
  {
    if a == [] then t else At(Kids(t)[a[0]], a[1..])
  }

  /** The nodes passed on the way from `t` to address `a`, `t` first, excluding the node at `a`. */
  function PathTo<T>(t: Tree<T>, a: seq<nat>): (r: seq<Tree<T>>)
    requires ValidAddr(t, a)
    ensures |r| == |a|
    decreases |a|
  {
    if a == [] then [] else [t] + PathTo(Kids(t)[a[0]], a[1..])
  }

  /** The call made for address `a` of a subtree entered with ancestors `parents` at position `index`. */
  function Located<T>(t: Tree<T>, a: seq<nat>, parents: seq<Tree<T>>, index: nat): Visit<T>
    requires ValidAddr(t, a)
  {
    Visit(At(t, a), parents + PathTo(t, a), if a == [] then index else a[|a| - 1])
  }

  /** Strict lexicographic order on addresses; a proper prefix comes first. */
  predicate LexLess(a: seq<nat>, b: seq<nat>)
    decreases |a|
  {
    |b| > 0 && (|a| == 0 || a[0] < b[0] || (a[0] == b[0] && LexLess(a[1..], b[1..])))
  }

  predicate StrictlySorted(qs: seq<seq<nat>>)
  {
    forall i, j :: 0 <= i < j < |qs| ==> LexLess(qs[i], qs[j])
  }

  function Prefixed(k: nat, qs: seq<seq<nat>>): (r: seq<seq<nat>>)
    ensures |r| == |qs|
    ensures forall i :: 0 <= i < |qs| ==> r[i] == [k] + qs[i]
  {
    if qs == [] then [] else [[k] + qs[0]] + Prefixed(k, qs[1..])
  }

  /** The addresses of a tree, listed the way the engine walks it. */
  function Addrs<T>(t: Tree<T>): seq<seq<nat>>
    decreases t, 1
  {
    [[]] +
    match t
    case Leaf(_) => []
    case Node(_, cs) => AddrsKids(cs, 0)
  }

  function AddrsKids<T>(cs: seq<Tree<T>>, k: nat): seq<seq<nat>>
    decreases cs, |cs| - k
  {
    if k >= |cs| then [] else Prefixed(k, Addrs(cs[k])) + AddrsKids(cs, k + 1)
  }

  lemma {:induction false} LexLessIrreflexive(a: seq<nat>)
    ensures !LexLess(a, a)
    decreases |a|
  {
    if |a| > 0 {
      LexLessIrreflexive(a[1..]);
    }
  }

  lemma LexLessPrefixed(k: nat, a: seq<nat>, b: seq<nat>)
    ensures LexLess([k] + a, [k] + b) <==> LexLess(a, b)
  {
    assert ([k] + a)[1..] == a;
    assert ([k] + b)[1..] == b;
  }

  lemma {:induction false} PrefixedSorted(k: nat, qs: seq<seq<nat>>)
    requires StrictlySorted(qs)
    ensures StrictlySorted(Prefixed(k, qs))
  {
    forall i, j | 0 <= i < j < |qs|
      ensures LexLess(Prefixed(k, qs)[i], Prefixed(k, qs)[j])
    {
      LexLessPrefixed(k, qs[i], qs[j]);
    }
  }

  lemma SortedAppend(a: seq<seq<nat>>, b: seq<seq<nat>>)
    requires StrictlySorted(a) && StrictlySorted(b)
    requires forall i, j :: 0 <= i < |a| && 0 <= j < |b| ==> LexLess(a[i], b[j])
    ensures StrictlySorted(a + b)
  {
    forall i, j | 0 <= i < j < |a + b|
      ensures LexLess((a + b)[i], (a + b)[j])
    {
      if j < |a| {
      } else if i >= |a| {
        assert (a + b)[i] == b[i - |a|];
      } else {
        assert (a + b)[j] == b[j - |a|];
      }
    }
  }

  /** Membership in the address listing of the children from position k onward. */
  lemma {:induction false} AddrsKidsMembers<T>(cs: seq<Tree<T>>, k: nat, a: seq<nat>)
    ensures a in AddrsKids(cs, k) <==> |a| > 0 && k <= a[0] < |cs| && ValidAddr(cs[a[0]], a[1..])
    decreases cs, |cs| - k
  {
    if k < |cs| {
      var first := Prefixed(k, Addrs(cs[k]));
      AddrsKidsMembers(cs, k + 1, a);
      if |a| > 0 && a[0] == k {
        AddrsMembers(cs[k], a[1..]);
        assert a == [k] + a[1..];
        if ValidAddr(cs[k], a[1..]) {
          var i :| 0 <= i < |Addrs(cs[k])| && Addrs(cs[k])[i] == a[1..];
          assert first[i] == a;
        }
      }
      if a in first {
        var i :| 0 <= i < |first| && first[i] == a;
        assert a[1..] == Addrs(cs[k])[i];
        AddrsMembers(cs[k], a[1..]);
      }
    }
  }

  /** The listing holds exactly the addresses of the tree. */
  lemma {:induction false} AddrsMembers<T>(t: Tree<T>, a: seq<nat>)
    ensures a in Addrs(t) <==> ValidAddr(t, a)
    decreases t, 1
  {
    match t
    case Leaf(_) =>
    case Node(_, cs) =>
      AddrsKidsMembers(cs, 0, a);
  }

  lemma {:induction false} AddrsKidsSorted<T>(cs: seq<Tree<T>>, k: nat)
    ensures StrictlySorted(AddrsKids(cs, k))
    decreases cs, |cs| - k
  {
    if k < |cs| {
      var first := Prefixed(k, Addrs(cs[k]));
      var rest := AddrsKids(cs, k + 1);
      AddrsSorted(cs[k]);
      PrefixedSorted(k, Addrs(cs[k]));
      AddrsKidsSorted(cs, k + 1);
      forall i, j | 0 <= i < |first| && 0 <= j < |rest|
        ensures LexLess(first[i], rest[j])
      {
        assert rest[j] in rest;
        AddrsKidsMembers(cs, k + 1, rest[j]);
      }
      SortedAppend(first, rest);
    }
  }

  /** The listing is strictly increasing, so no address is listed twice. */
  lemma {:induction false} AddrsSorted<T>(t: Tree<T>)
    ensures StrictlySorted(Addrs(t))
    decreases t, 1
  {
    match t
    case Leaf(_) =>
    case Node(_, cs) =>
      var rest := AddrsKids(cs, 0);
      AddrsKidsSorted(cs, 0);
      forall j | 0 <= j < |rest|
        ensures LexLess([], rest[j])
      {
        assert rest[j] in rest;
        AddrsKidsMembers(cs, 0, rest[j]);
      }
      SortedAppend([[]], rest);
  }

  lemma {:induction false} PreFromLocated<T>(t: Tree<T>, parents: seq<Tree<T>>, index: nat)
    ensures |PreFrom(t, parents, index)| == |Addrs(t)|
    ensures forall i :: 0 <= i < |Addrs(t)| ==>
      ValidAddr(t, Addrs(t)[i]) && PreFrom(t, parents, index)[i] == Located(t, Addrs(t)[i], parents, index)
    decreases t, 1
  {
    var pre := PreFrom(t, parents, index);
    assert parents + [] == parents;
    match t
    case Leaf(_) =>
    case Node(_, cs) =>
      var ps := parents + [t];
      PreKidsLocated(cs, ps, 0);
      forall i | 0 <= i < |Addrs(t)|
        ensures ValidAddr(t, Addrs(t)[i]) && pre[i] == Located(t, Addrs(t)[i], parents, index)
      {
        if i > 0 {
          var a := Addrs(t)[i];
          assert a == AddrsKids(cs, 0)[i - 1];
          assert pre[i] == PreKids(cs, ps, 0)[i - 1];
          LocatedInChild(t, a, parents, index);
        }
      }
  }

  /** The call for a non-root address is the call for the rest of the address inside the chosen child. */
  lemma LocatedInChild<T>(t: Tree<T>, a: seq<nat>, parents: seq<Tree<T>>, index: nat)
    requires a != [] && a[0] < |Kids(t)| && ValidAddr(Kids(t)[a[0]], a[1..])
    ensures ValidAddr(t, a)
    ensures Located(t, a, parents, index) == Located(Kids(t)[a[0]], a[1..], parents + [t], a[0])
  {
    var c, rest := Kids(t)[a[0]], a[1..];
    assert At(t, a) == At(c, rest);
    assert PathTo(t, a) == [t] + PathTo(c, rest);
    assert parents + PathTo(t, a) == (parents + [t]) + PathTo(c, rest);
    if rest != [] {
      assert a[|a| - 1] == rest[|rest| - 1];
    }
  }

  lemma {:induction false} PreKidsLocated<T>(cs: seq<Tree<T>>, parents: seq<Tree<T>>, k: nat)
    ensures |PreKids(cs, parents, k)| == |AddrsKids(cs, k)|
    ensures forall i :: 0 <= i < |AddrsKids(cs, k)| ==>
      var a := AddrsKids(cs, k)[i];
      |a| > 0 && a[0] < |cs| && ValidAddr(cs[a[0]], a[1..]) &&
      PreKids(cs, parents, k)[i] == Located(cs[a[0]], a[1..], parents, a[0])
    decreases cs, |cs| - k
  {
    if k < |cs| {
      var addrs := AddrsKids(cs, k);
      var first := Prefixed(k, Addrs(cs[k]));
      var later := AddrsKids(cs, k + 1);
      var pre := PreKids(cs, parents, k);
      var here := PreFrom(cs[k], parents, k);
      var next := PreKids(cs, parents, k + 1);
      assert addrs == first + later;
      assert pre == here + next;
      PreFromLocated(cs[k], parents, k);
      PreKidsLocated(cs, parents, k + 1);
      forall i | 0 <= i < |addrs|
        ensures var a := addrs[i];
          |a| > 0 && a[0] < |cs| && ValidAddr(cs[a[0]], a[1..]) &&
          pre[i] == Located(cs[a[0]], a[1..], parents, a[0])
      {
        if i < |first| {
          var b := Addrs(cs[k])[i];
          assert addrs[i] == [k] + b;
          assert addrs[i][0] == k && addrs[i][1..] == b;
          assert ValidAddr(cs[k], b) && here[i] == Located(cs[k], b, parents, k);
          assert pre[i] == here[i];
        } else {
          var j := i - |first|;
          assert addrs[i] == later[j];
          assert pre[i] == next[j];
        }
      }
    }
  }

  /**
   * Pre-order by address: the engine's i-th call is made for the i-th address in lexicographic
   * order, with the node at that address, the nodes from the root down to its parent, and its
   * position among its siblings (0 for the root); and the addresses listed are exactly the
   * tree's addresses, each once.
   */
  lemma PreorderByAddress<T>(t: Tree<T>)
    ensures |Pre(t)| == |Addrs(t)|
    ensures forall i :: 0 <= i < |Addrs(t)| ==>
      ValidAddr(t, Addrs(t)[i]) && Pre(t)[i] == Located(t, Addrs(t)[i], [], 0)
    ensures forall a :: a in Addrs(t) <==> ValidAddr(t, a)
    ensures StrictlySorted(Addrs(t))
    ensures forall i, j :: 0 <= i < j < |Addrs(t)| ==> Addrs(t)[i] != Addrs(t)[j]
  {
    PreFromLocated(t, [], 0);
    forall a
      ensures a in Addrs(t) <==> ValidAddr(t, a)
    {
      AddrsMembers(t, a);
    }
    AddrsSorted(t);
    forall i, j | 0 <= i < j < |Addrs(t)|
      ensures Addrs(t)[i] != Addrs(t)[j]
    {
      LexLessIrreflexive(Addrs(t)[i]);
    }
  }

  /** Along a path each node is the child, at the recorded position, of the one before it. */
  lemma {:induction false} PathSteps<T>(t: Tree<T>, a: seq<nat>)
    requires ValidAddr(t, a) && a != []
    ensures PathTo(t, a)[0] == t
    ensures forall k :: 0 <= k < |a| ==> a[k] < |Kids(PathTo(t, a)[k])|
    ensures forall k :: 0 <= k < |a| - 1 ==> Kids(PathTo(t, a)[k])[a[k]] == PathTo(t, a)[k + 1]
    ensures Kids(PathTo(t, a)[|a| - 1])[a[|a| - 1]] == At(t, a)
    decreases |a|
  {
    var c := Kids(t)[a[0]];
    var rest := a[1..];
    var path := PathTo(t, a);
    assert path == [t] + PathTo(c, rest);
    if rest != [] {
      PathSteps(c, rest);
      ShiftedStep(a, rest, path, PathTo(c, rest));
      assert a[|a| - 1] == rest[|rest| - 1];
      assert path[|a| - 1] == PathTo(c, rest)[|rest| - 1];
    }
  }

  /** The steps of a path survive putting one more node in front of it. */
  lemma ShiftedStep<T>(a: seq<nat>, rest: seq<nat>, path: seq<Tree<T>>, tail: seq<Tree<T>>)
    requires |a| >= 1 && rest == a[1..] && |tail| == |rest| && |path| == |a| && path[1..] == tail
    requires forall k :: 0 <= k < |rest| ==> rest[k] < |Kids(tail[k])|
    requires forall k :: 0 <= k < |rest| - 1 ==> Kids(tail[k])[rest[k]] == tail[k + 1]
    requires a[0] < |Kids(path[0])| && (|a| > 1 ==> Kids(path[0])[a[0]] == path[1])
    ensures forall k :: 0 <= k < |a| ==> a[k] < |Kids(path[k])|
    ensures forall k :: 0 <= k < |a| - 1 ==> Kids(path[k])[a[k]] == path[k + 1]
  {
    forall k | 1 <= k < |a|
      ensures a[k] < |Kids(path[k])|
    {
      assert a[k] == rest[k - 1] && path[k] == tail[k - 1];
    }
    forall k | 1 <= k < |a| - 1
      ensures Kids(path[k])[a[k]] == path[k + 1]
    {
      assert a[k] == rest[k - 1] && path[k] == tail[k - 1] && path[k + 1] == tail[k];
    }
  }

  /**
   * The call made for an address, read from the root: the root gets no ancestors and index 0; any
   * other node gets ancestors that start at the root, each the parent of the next, the last being
   * the node's parent, whose children hold the node at the given index.
   */
  lemma LocatedAncestry<T>(t: Tree<T>, a: seq<nat>)
    requires ValidAddr(t, a)
    ensures var v := Located(t, a, [], 0);
      |v.parents| == |a| &&
      (v.parents == [] ==> v.node == t && v.index == 0) &&
      (v.parents != [] ==>
        v.parents[0] == t &&
        (forall k :: 0 <= k < |v.parents| - 1 ==> v.parents[k + 1] in Kids(v.parents[k])) &&
        v.index < |Kids(v.parents[|v.parents| - 1])| &&
        Kids(v.parents[|v.parents| - 1])[v.index] == v.node)
  {
    var v := Located(t, a, [], 0);
    var path := PathTo(t, a);
    assert [] + path == path;
    assert v.parents == path && v.node == At(t, a);
    if a == [] {
      assert v.index == 0 && v.node == t;
    } else {
      assert v.index == a[|a| - 1];
      PathSteps(t, a);
      StepsAreChildren(a, path);
      assert path[0] == t;
      assert Kids(path[|a| - 1])[a[|a| - 1]] == At(t, a);
    }
  }

  /** A path whose every step goes to the child at the recorded position is a chain of parent and child. */
  lemma StepsAreChildren<T>(a: seq<nat>, path: seq<Tree<T>>)
    requires |path| == |a|
    requires forall k :: 0 <= k < |a| ==> a[k] < |Kids(path[k])|
    requires forall k :: 0 <= k < |a| - 1 ==> Kids(path[k])[a[k]] == path[k + 1]
    ensures forall k :: 0 <= k < |path| - 1 ==> path[k + 1] in Kids(path[k])
  {
    forall k | 0 <= k < |path| - 1
      ensures path[k + 1] in Kids(path[k])
    {
      assert Kids(path[k])[a[k]] == path[k + 1];
    }
  }

  /**
   * At every call: the root is visited with no ancestors and index 0; any other node is visited
   * with ancestors that start at the root, each the parent of the next, the last being the node's
   * parent, whose children hold the node at the given index. The ancestor count is the depth.
   */
  lemma VisitAncestry<T>(t: Tree<T>, i: nat)
    requires i < |Pre(t)|
    ensures var v := Pre(t)[i];
      (v.parents == [] ==> v.node == t && v.index == 0) &&
      (v.parents != [] ==>
        v.parents[0] == t &&
        (forall k :: 0 <= k < |v.parents| - 1 ==> v.parents[k + 1] in Kids(v.parents[k])) &&
        v.index < |Kids(v.parents[|v.parents| - 1])| &&
        Kids(v.parents[|v.parents| - 1])[v.index] == v.node)
    ensures |Pre(t)| == |Addrs(t)| && |Pre(t)[i].parents| == |Addrs(t)[i]|
  {
    PreFromLocated(t, [], 0);
    var a := Addrs(t)[i];
    assert ValidAddr(t, a) && Pre(t)[i] == Located(t, a, [], 0);
    LocatedAncestry(t, a);
  }
}
