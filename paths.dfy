/**
  Root-to-leaf path enumeration (`Paths` / `findBottom`).  The shared path
  stack and the list of finished paths, both reached through pointers in the
  Go code, are passed in and handed back.  Storing a finished path copies the
  stack, so a stored path is a snapshot that later pushes and pops cannot touch;
  sequences are values here, which gives exactly that copy.
 */
module Paths {
  import opened Wrappers
  import opened Nodes

  /** The paths `findBottom` stores for `n` while the stack holds `prefix`:
      at a leaf the stack plus the leaf, otherwise those of each child in order. */
  function Bottoms(prefix: seq<Node>, n: Node): seq<seq<Node>>
    decreases n, 1
  {
    if n.children == [] then [prefix + [n]] else BottomsAll(prefix + [n], n.children)
  }

  function BottomsAll(prefix: seq<Node>, ns: seq<Node>): seq<seq<Node>>
    decreases ns, 0
  {
    if ns == [] then [] else BottomsAll(prefix, ns[..|ns| - 1]) + Bottoms(prefix, ns[|ns| - 1])
  }

  /** `q` goes from `n` down parent-to-child edges and ends at a leaf. */
  predicate DownPath(q: seq<Node>, n: Node)
  {
    && |q| >= 1
    && q[0] == n
    && q[|q| - 1].children == []
    && forall i :: 0 <= i < |q| - 1 ==> q[i + 1] in q[i].children
  }

  /** `p` is the stack `prefix` followed by a leaf path down from `n`. */
  predicate ExtendsTo(p: seq<Node>, prefix: seq<Node>, n: Node)
  {
    |p| > |prefix| && p[..|prefix|] == prefix && DownPath(p[|prefix|..], n)
  }

  /** `findBottom`: push the node; at a leaf store a copy of the stack,
      otherwise recurse into each child; then pop. */
  method FindBottom(node: Node, path: seq<Node>, paths: seq<seq<Node>>)
    returns (path': seq<Node>, paths': seq<seq<Node>>)
    ensures path' == path
    ensures paths' == paths + Bottoms(path, node)
    decreases node
  {
    path' := path + [node];
    paths' := paths;
    var childrens := node.children;
    if |childrens| == 0 {
      paths' := paths' + [path'];
    } else {
      var i := 0;
      while i < |childrens|
        invariant 0 <= i <= |childrens|
        invariant path' == path + [node]
        invariant paths' == paths + BottomsAll(path + [node], childrens[..i])
      {
        assert childrens[..i + 1][..i] == childrens[..i];
        path', paths' := FindBottom(childrens[i], path', paths');
        i := i + 1;
      }
      assert childrens[..i] == childrens;
    }
    path' := path'[..|path'| - 1];
  }

  /** `Paths`: nil yields no paths, otherwise one path per leaf, left to right,
      each from the root down to that leaf. */
  method EnumeratePaths(root: Option<Node>) returns (paths: seq<seq<Node>>)
    ensures root.None? ==> paths == []
    ensures root.Some? ==> paths == Bottoms([], root.value)
    ensures root.Some? ==> |paths| == LeafCount(root.value)
    ensures root.Some? ==> forall k :: 0 <= k < |paths| ==> DownPath(paths[k], root.value)
  {
    if root.None? {
      return [];
    }
    var path: seq<Node> := [];
    path, paths := FindBottom(root.value, path, []);
    BottomsCount([], root.value);
    BottomsShape([], root.value);
    forall k | 0 <= k < |paths| ensures DownPath(paths[k], root.value) {
      assert ExtendsTo(paths[k], [], root.value);
      assert paths[k][0..] == paths[k];
    }
  }

  /** One path is stored per leaf. */
  lemma {:induction false} BottomsCount(prefix: seq<Node>, n: Node)
    ensures |Bottoms(prefix, n)| == LeafCount(n)
    decreases n, 1
  {
    if n.children != [] {
      BottomsAllCount(prefix + [n], n.children);
    }
  }

  lemma {:induction false} BottomsAllCount(prefix: seq<Node>, ns: seq<Node>)
    ensures |BottomsAll(prefix, ns)| == LeafCountAll(ns)
    decreases ns, 0
  {
    if ns != [] {
      BottomsAllCount(prefix, ns[..|ns| - 1]);
      BottomsCount(prefix, ns[|ns| - 1]);
    }
  }

  /** Every stored path is the stack at entry followed by a root-to-leaf path
      of parent-to-child edges. */
  lemma {:induction false} BottomsShape(prefix: seq<Node>, n: Node)
    ensures forall k :: 0 <= k < |Bottoms(prefix, n)| ==> ExtendsTo(Bottoms(prefix, n)[k], prefix, n)
    decreases n, 1
  {
    var bs := Bottoms(prefix, n);
    if n.children == [] {
      var p := prefix + [n];
      assert p[..|prefix|] == prefix;
      assert p[|prefix|..] == [n];
    } else {
      var pre := prefix + [n];
      BottomsAllShape(pre, n.children);
      assert bs == BottomsAll(pre, n.children);
      forall k | 0 <= k < |bs| ensures ExtendsTo(bs[k], prefix, n) {
        var p := bs[k];
        var i :| 0 <= i < |n.children| && ExtendsTo(p, pre, n.children[i]);
        var q', q := p[|pre|..], p[|prefix|..];
        assert p[..|prefix|] == pre[..|prefix|] == prefix;
        assert q == [n] + q' by {
          assert p[..|pre|] == pre;
        }
        assert DownPath(q', n.children[i]);
        forall j | 0 <= j < |q| - 1 ensures q[j + 1] in q[j].children {
          if j > 0 {
            assert q[j + 1] == q'[j] && q[j] == q'[j - 1];
          }
        }
      }
    }
  }

  lemma {:induction false} BottomsAllShape(prefix: seq<Node>, ns: seq<Node>)
    ensures forall k :: 0 <= k < |BottomsAll(prefix, ns)| ==>
              exists i :: 0 <= i < |ns| && ExtendsTo(BottomsAll(prefix, ns)[k], prefix, ns[i])
    decreases ns, 0
  {
    if ns != [] {
      var init, last := ns[..|ns| - 1], ns[|ns| - 1];
      BottomsAllShape(prefix, init);
      BottomsShape(prefix, last);
      var left, right := BottomsAll(prefix, init), Bottoms(prefix, last);
      var all := BottomsAll(prefix, ns);
      assert all == left + right;
      forall k | 0 <= k < |all|
        ensures exists i :: 0 <= i < |ns| && ExtendsTo(all[k], prefix, ns[i])
      {
        if k < |left| {
          var i :| 0 <= i < |init| && ExtendsTo(left[k], prefix, init[i]);
          assert ns[i] == init[i] && all[k] == left[k];
          assert ExtendsTo(all[k], prefix, ns[i]);
        } else {
          assert all[k] == right[k - |left|];
          assert ExtendsTo(all[k], prefix, ns[|ns| - 1]);
        }
      }
      assert forall k :: 0 <= k < |all| ==> exists i :: 0 <= i < |ns| && ExtendsTo(all[k], prefix, ns[i]);
    } else {
      assert BottomsAll(prefix, ns) == [];
    }
  }

  /** The names along each path. */
  function PathNames(ps: seq<seq<Node>>): (r: seq<seq<string>>)
    ensures |r| == |ps|
    ensures forall k :: 0 <= k < |ps| ==> r[k] == Names(ps[k])
  {
    if ps == [] then [] else PathNames(ps[..|ps| - 1]) + [Names(ps[|ps| - 1])]
  }

  /** A node whose children are all leaves yields one path per child. */
  lemma {:induction false} LeafParentPaths(prefix: seq<Node>, n: Node)
    requires n.children != []
    requires forall i :: 0 <= i < |n.children| ==> n.children[i].children == []
    ensures |Bottoms(prefix, n)| == |n.children|
    ensures forall i :: 0 <= i < |n.children| ==> Bottoms(prefix, n)[i] == prefix + [n, n.children[i]]
  {
    LeavesPaths(prefix + [n], n.children);
    forall i | 0 <= i < |n.children| ensures prefix + [n] + [n.children[i]] == prefix + [n, n.children[i]] {
    }
  }

  lemma {:induction false} LeavesPaths(prefix: seq<Node>, ns: seq<Node>)
    requires forall i :: 0 <= i < |ns| ==> ns[i].children == []
    ensures |BottomsAll(prefix, ns)| == |ns|
    ensures forall i :: 0 <= i < |ns| ==> BottomsAll(prefix, ns)[i] == prefix + [ns[i]]
  {
    if ns != [] {
      LeavesPaths(prefix, ns[..|ns| - 1]);
    }
  }

  /** The ten-node tree of the tests yields A-B-E, A-B-F, A-C-G, A-C-H, A-C-I,
      A-D-J, in that order. */
  lemma ExamplePaths()
    ensures PathNames(Bottoms([], Example())) ==
      [["A", "B", "E"], ["A", "B", "F"], ["A", "C", "G"], ["A", "C", "H"], ["A", "C", "I"], ["A", "D", "J"]]
  {
    var a := Example();
    var b, c, d := a.children[0], a.children[1], a.children[2];
    var e, f, g, h, i, j := b.children[0], b.children[1], c.children[0], c.children[1], c.children[2], d.children[0];
    var all := [[a, b, e], [a, b, f], [a, c, g], [a, c, h], [a, c, i], [a, d, j]];
    ExampleBottoms();
    PathNamesOfSix(all);
    Names3(a, b, e);
    Names3(a, b, f);
    Names3(a, c, g);
    Names3(a, c, h);
    Names3(a, c, i);
    Names3(a, d, j);
  }

  lemma PathNamesOfSix(ps: seq<seq<Node>>)
    requires |ps| == 6
    ensures PathNames(ps) == [Names(ps[0]), Names(ps[1]), Names(ps[2]), Names(ps[3]), Names(ps[4]), Names(ps[5])]
  {
  }

  lemma Names3(x: Node, y: Node, z: Node)
    ensures Names([x, y, z]) == [x.name, y.name, z.name]
  {
    var p := [x, y, z];
    assert Names(p)[0] == x.name && Names(p)[1] == y.name && Names(p)[2] == z.name;
  }

  /** The same paths, node by node. */
  lemma ExampleBottoms()
    ensures var a := Example();
            var b, c, d := a.children[0], a.children[1], a.children[2];
            var e, f, g, h, i, j := b.children[0], b.children[1], c.children[0], c.children[1], c.children[2], d.children[0];
            Bottoms([], a) == [[a, b, e], [a, b, f], [a, c, g], [a, c, h], [a, c, i], [a, d, j]]
  {
    var a := Example();
    var b, c, d := a.children[0], a.children[1], a.children[2];
    var e, f, g, h, i, j := b.children[0], b.children[1], c.children[0], c.children[1], c.children[2], d.children[0];
    assert [] + [a] == [a];
    assert Bottoms([a], b) == [[a, b, e], [a, b, f]] by {
      LeafParentPaths([a], b);
      assert [a] + [b, e] == [a, b, e] && [a] + [b, f] == [a, b, f];
    }
    assert Bottoms([a], c) == [[a, c, g], [a, c, h], [a, c, i]] by {
      LeafParentPaths([a], c);
      assert [a] + [c, g] == [a, c, g] && [a] + [c, h] == [a, c, h] && [a] + [c, i] == [a, c, i];
    }
    assert Bottoms([a], d) == [[a, d, j]] by {
      LeafParentPaths([a], d);
      assert [a] + [d, j] == [a, d, j];
    }
    var kids := a.children;
    assert kids[..2][..1] == [b];
    assert kids[..2] == [b, c];
    assert BottomsAll([a], [b]) == Bottoms([a], b);
    assert BottomsAll([a], kids) == Bottoms([a], b) + Bottoms([a], c) + Bottoms([a], d);
  }

  /** A single node yields the one path holding it. */
  lemma {:induction false} SingleNodePaths(name: string)
    ensures Bottoms([], Leaf(name)) == [[Leaf(name)]]
  {
    assert [] + [Leaf(name)] == [Leaf(name)];
  }
}
