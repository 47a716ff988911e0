/** An optional value: a Go pointer or interface that may be nil. */
module Wrappers {
  datatype Option<+T> = None | Some(value: T)
}

/**
  The tree of tags.  A `MyNode` of the repository is a name plus an ordered
  list of children; the children are owned by their parent, so the tree is a
  value and acyclicity comes for free.
 */
module Nodes {
  import opened Wrappers

  datatype Node = Node(name: string, children: seq<Node>)

  /** The zero value `MyNode{}`: empty name, no children.  It doubles as the
      "not found" sentinel of the search. */
  const Empty: Node := Node("", [])

  /** The child-count from which a node's children are searched concurrently. */
  const WideThreshold: nat := 10

  /** Every node of the tree in pre-order: the node, then the pre-order of
      each child, left to right. */
  function PreOrder(n: Node): seq<Node>
    decreases n, 1
  {
    [n] + PreOrderAll(n.children)
  }

  /** The pre-orders of a list of siblings, concatenated. */
  function PreOrderAll(ns: seq<Node>): seq<Node>
    decreases ns, 0
  {
    if ns == [] then [] else PreOrderAll(ns[..|ns| - 1]) + PreOrder(ns[|ns| - 1])
  }

  /** Number of nodes of the tree, counted independently of any traversal. */
  function Size(n: Node): nat
    decreases n, 1
  {
    1 + SizeAll(n.children)
  }

  function SizeAll(ns: seq<Node>): nat
    decreases ns, 0
  {
    if ns == [] then 0 else SizeAll(ns[..|ns| - 1]) + Size(ns[|ns| - 1])
  }

  /** Number of leaves (nodes without children). */
  function LeafCount(n: Node): nat
    decreases n, 1
  {
    if n.children == [] then 1 else LeafCountAll(n.children)
  }

  function LeafCountAll(ns: seq<Node>): nat
    decreases ns, 0
  {
    if ns == [] then 0 else LeafCountAll(ns[..|ns| - 1]) + LeafCount(ns[|ns| - 1])
  }

  /** `m` is `n` itself or lies below one of its children. */
  predicate InTree(m: Node, n: Node)
    decreases n
  {
    m == n || exists i :: 0 <= i < |n.children| && InTree(m, n.children[i])
  }

  /** Every node of the tree has fewer children than the wide-fan-out
      threshold, so a search visits it inline. */
  predicate Narrow(n: Node)
    decreases n
  {
    |n.children| < WideThreshold && forall i :: 0 <= i < |n.children| ==> Narrow(n.children[i])
  }

  /** The names of a list of nodes, in order. */
  function Names(ns: seq<Node>): (r: seq<string>)
    ensures |r| == |ns|
    ensures forall i :: 0 <= i < |ns| ==> r[i] == ns[i].name
  {
    if ns == [] then [] else Names(ns[..|ns| - 1]) + [ns[|ns| - 1].name]
  }

  /** The first node of `s` whose name equals `tag`, if any. */
  function FindFirst(s: seq<Node>, tag: string): (r: Option<Node>)
    ensures r.None? <==> forall i :: 0 <= i < |s| ==> s[i].name != tag
    ensures r.Some? ==> exists i :: 0 <= i < |s| && s[i] == r.value && r.value.name == tag
                                  && forall j :: 0 <= j < i ==> s[j].name != tag
  {
    if s == [] then None
    else if s[0].name == tag then Some(s[0])
    else
      var r := FindFirst(s[1..], tag);
      assert r.Some? ==> exists i :: 0 <= i < |s[1..]| && s[1..][i] == r.value && r.value.name == tag
                                  && forall j :: 0 <= j < i ==> s[1..][j].name != tag;
      r
  }

  /** The first match of a concatenation is the first match of its left part,
      or else that of its right part. */
  lemma {:induction false} FindFirstAppend(a: seq<Node>, b: seq<Node>, tag: string)
    ensures FindFirst(a + b, tag) == if FindFirst(a, tag).Some? then FindFirst(a, tag) else FindFirst(b, tag)
  {
    if a != [] {
      assert (a + b)[1..] == a[1..] + b;
      FindFirstAppend(a[1..], b, tag);
    } else {
      assert a + b == b;
    }
  }

  /** The ten-node tree of the repository's tests:
      A has children B(E, F), C(G, H, I) and D(J). */
  function Leaf(name: string): Node { Node(name, []) }

  function Example(): Node
  {
    Node("A", [
      Node("B", [Leaf("E"), Leaf("F")]),
      Node("C", [Leaf("G"), Leaf("H"), Leaf("I")]),
      Node("D", [Leaf("J")])])
  }
}
