/**
  Pre-order traversal of the tag tree (`WalkGraph` / `findNode`).  The Go code
  appends to a slice owned by `WalkGraph` through a pointer; here that slice is
  passed in and handed back, which is the same thing since nothing else holds it.
 */
module WalkGraph {
  import opened Wrappers
  import opened Nodes

  /** `findNode`: append the node, then walk each child in order. */
  method FindNode(node: Node, nodes: seq<Node>) returns (out: seq<Node>)
    ensures out == nodes + PreOrder(node)
    decreases node
  {
    out := nodes + [node];
    var i := 0;
    while i < |node.children|
      invariant 0 <= i <= |node.children|
      invariant out == nodes + [node] + PreOrderAll(node.children[..i])
    {
      assert node.children[..i + 1][..i] == node.children[..i];
      out := FindNode(node.children[i], out);
      i := i + 1;
    }
    assert node.children[..i] == node.children;
  }

  /** `WalkGraph`: nil yields the empty list, otherwise every node of the tree
      in pre-order, starting with the root. */
  method Walk(root: Option<Node>) returns (nodes: seq<Node>)
    ensures root.None? ==> nodes == []
    ensures root.Some? ==> nodes == PreOrder(root.value)
    ensures root.Some? ==> |nodes| == Size(root.value) && nodes[0] == root.value
  {
    if root.None? {
      return [];
    }
    nodes := FindNode(root.value, []);
    PreOrderSize(root.value);
  }

  /** The traversal lists exactly as many nodes as the tree has. */
  lemma {:induction false} PreOrderSize(n: Node)
    ensures |PreOrder(n)| == Size(n)
    decreases n, 1
  {
    PreOrderAllSize(n.children);
  }

  lemma {:induction false} PreOrderAllSize(ns: seq<Node>)
    ensures |PreOrderAll(ns)| == SizeAll(ns)
    decreases ns, 0
  {
    if ns != [] {
      PreOrderAllSize(ns[..|ns| - 1]);
      PreOrderSize(ns[|ns| - 1]);
    }
  }

  /** The traversal visits exactly the nodes of the tree. */
  lemma {:induction false} PreOrderMembers(m: Node, n: Node)
    ensures m in PreOrder(n) <==> InTree(m, n)
    decreases n, 1
  {
    PreOrderAllMembers(m, n.children);
  }

  lemma {:induction false} PreOrderAllMembers(m: Node, ns: seq<Node>)
    ensures m in PreOrderAll(ns) <==> exists i :: 0 <= i < |ns| && InTree(m, ns[i])
    decreases ns, 0
  {
    if ns != [] {
      var init, last := ns[..|ns| - 1], ns[|ns| - 1];
      PreOrderAllMembers(m, init);
      PreOrderMembers(m, last);
      assert PreOrderAll(ns) == PreOrderAll(init) + PreOrder(last);
      if m in PreOrderAll(ns) {
        if m in PreOrderAll(init) {
          var i :| 0 <= i < |init| && InTree(m, init[i]);
          assert ns[i] == init[i];
        } else {
          assert InTree(m, ns[|ns| - 1]);
        }
      } else {
        forall i | 0 <= i < |ns| ensures !InTree(m, ns[i]) {
          if i < |init| {
            assert ns[i] == init[i];
          }
        }
      }
    }
  }

  /** A node whose children are all leaves walks as itself followed by them. */
  lemma {:induction false} LeafParentWalk(n: Node)
    requires forall i :: 0 <= i < |n.children| ==> n.children[i].children == []
    ensures PreOrder(n) == [n] + n.children
  {
    LeavesWalk(n.children);
  }

  lemma {:induction false} LeavesWalk(ns: seq<Node>)
    requires forall i :: 0 <= i < |ns| ==> ns[i].children == []
    ensures PreOrderAll(ns) == ns
  {
    if ns != [] {
      LeavesWalk(ns[..|ns| - 1]);
      var last := ns[|ns| - 1];
      assert PreOrder(last) == [last] + PreOrderAll([]);
      assert ns[..|ns| - 1] + [last] == ns;
    }
  }

  /** A single childless node walks as just itself, whatever its name (the
      empty name of a fresh node included). */
  lemma {:induction false} SingleNodeWalk(name: string)
    ensures PreOrder(Leaf(name)) == [Leaf(name)]
    ensures Names(PreOrder(Leaf(name))) == [name]
  {
    assert PreOrder(Leaf(name)) == [Leaf(name)] + PreOrderAll([]);
  }

  /** The ten-node tree of the tests walks as A, B, E, F, C, G, H, I, D, J. */
  lemma ExampleWalk()
    ensures Names(PreOrder(Example())) == ["A", "B", "E", "F", "C", "G", "H", "I", "D", "J"]
    ensures |PreOrder(Example())| == 10
  {
    var a := Example();
    var b, c, d := a.children[0], a.children[1], a.children[2];
    ExampleWalkNodes();
    var walk := [a, b, Leaf("E"), Leaf("F"), c, Leaf("G"), Leaf("H"), Leaf("I"), d, Leaf("J")];
    assert walk == [a, b, Leaf("E"), Leaf("F")] + [c, Leaf("G"), Leaf("H"), Leaf("I")] + [d, Leaf("J")];
    NamesAppend([a, b, Leaf("E"), Leaf("F")] + [c, Leaf("G"), Leaf("H"), Leaf("I")], [d, Leaf("J")]);
    NamesAppend([a, b, Leaf("E"), Leaf("F")], [c, Leaf("G"), Leaf("H"), Leaf("I")]);
    Names4(a, b, Leaf("E"), Leaf("F"));
    Names4(c, Leaf("G"), Leaf("H"), Leaf("I"));
    assert Names([d, Leaf("J")]) == ["D", "J"];
  }

  /** Names of a concatenation. */
  lemma NamesAppend(p: seq<Node>, q: seq<Node>)
    ensures Names(p + q) == Names(p) + Names(q)
  {
    var r := Names(p + q);
    assert forall k :: 0 <= k < |p| ==> (p + q)[k] == p[k];
    assert forall k :: |p| <= k < |p + q| ==> (p + q)[k] == q[k - |p|];
  }

  lemma Names4(w: Node, x: Node, y: Node, z: Node)
    ensures Names([w, x, y, z]) == [w.name, x.name, y.name, z.name]
  {
    var ns := Names([w, x, y, z]);
    assert ns[0] == w.name && ns[1] == x.name && ns[2] == y.name && ns[3] == z.name;
  }

  /** The same walk, node by node: each child followed by its leaves. */
  lemma ExampleWalkNodes()
    ensures var a := Example();
            var b, c, d := a.children[0], a.children[1], a.children[2];
            PreOrder(a) == [a, b, Leaf("E"), Leaf("F"), c, Leaf("G"), Leaf("H"), Leaf("I"), d, Leaf("J")]
  {
    var a := Example();
    var b, c, d := a.children[0], a.children[1], a.children[2];
    LeafParentWalk(b);
    LeafParentWalk(c);
    LeafParentWalk(d);
    assert a.children == [b, c, d];
    WalkOfThree(b, c, d);
    assert PreOrder(a) == [a] + (([b] + b.children) + ([c] + c.children) + ([d] + d.children));
    ExampleLevels();
  }

  /** The leaves of the example tree, under B, C and D. */
  lemma ExampleLevels()
    ensures var a := Example();
            var b, c, d := a.children[0], a.children[1], a.children[2];
            [a] + (([b] + b.children) + ([c] + c.children) + ([d] + d.children))
            == [a, b, Leaf("E"), Leaf("F"), c, Leaf("G"), Leaf("H"), Leaf("I"), d, Leaf("J")]
  {
  }

  /** Three siblings are walked one after the other. */
  lemma WalkOfThree(x: Node, y: Node, z: Node)
    ensures PreOrderAll([x, y, z]) == PreOrder(x) + PreOrder(y) + PreOrder(z)
  {
    var ns := [x, y, z];
    assert ns[..2][..1] == [x] && ns[..2] == [x, y];
    assert PreOrderAll([x]) == PreOrder(x);
  }
}
