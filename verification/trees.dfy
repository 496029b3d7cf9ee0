/** The tree node of tree-utils.ts: a value and an optional ordered array of children. */
module Trees {

  /**
   * `Leaf(v)` is a node whose `children` field is absent; `Node(v, cs)` carries an array,
   * possibly empty. Both are leaves to every operation, through `Kids`.
   */
  datatype Tree<T> = Leaf(value: T) | Node(value: T, children: seq<Tree<T>>)

  /** The children of a node, an absent array read as an empty one. */
  function Kids<T>(t: Tree<T>): seq<Tree<T>>
  {
    match t
    case Leaf(_) => []
    case Node(_, cs) => cs
  }

  /** Number of nodes of a tree, root included. */
  function Size<T>(t: Tree<T>): (n: nat)
    ensures n >= 1
    decreases t, 1
  {
    match t
    case Leaf(_) => 1
    case Node(_, cs) => 1 + SizeOf(cs)
  }

  /** Number of nodes of a forest. */
  function SizeOf<T>(ts: seq<Tree<T>>): nat
    decreases ts, 0
  {
    if ts == [] then 0 else Size(ts[0]) + SizeOf(ts[1..])
  }

  lemma {:induction false} SizeOfAppend<T>(a: seq<Tree<T>>, b: seq<Tree<T>>)
    ensures SizeOf(a + b) == SizeOf(a) + SizeOf(b)
  {
    if a == [] {
      assert a + b == b;
    } else {
      assert (a + b)[0] == a[0];
      assert (a + b)[1..] == a[1..] + b;
      SizeOfAppend(a[1..], b);
    }
  }

  /** Counting a forest from position k onward, one tree at a time. */
  lemma SizeOfFrom<T>(cs: seq<Tree<T>>, k: nat)
    requires k < |cs|
    ensures SizeOf(cs[k..]) == Size(cs[k]) + SizeOf(cs[k + 1..])
  {
    assert cs[k..][0] == cs[k];
    assert cs[k..][1..] == cs[k + 1..];
  }
}
