/**
  The repository package: the mutable `MyNode` with its setters, the token
  cache, and the search for the first node carrying a tag (`GetSubTags` /
  `lookupChildrens`) restricted to trees in which every node has fewer than
  ten children, where the search runs entirely inline on one goroutine.
 */
module Repository {
  import opened Wrappers
  import opened Nodes

  /** A node under construction.  Its children are finished tree values. */
  class MyNode {
    var name: string
    var children: seq<Node>

    /** `NewNode`: empty name, empty children. */
    constructor ()
      ensures name == "" && children == []
    {
      name := "";
      children := [];
    }

    /** `GetName`: the name the node's tree value carries. */
    function GetName(): (r: string)
      reads this
      ensures r == Value().name
    {
      name
    }

    /** `GetChildren`: the children the node's tree value carries. */
    function GetChildren(): (r: seq<Node>)
      reads this
      ensures r == Value().children
    {
      children
    }

    /** The node as a tree value (what `MyNode` is once copied by value). */
    function Value(): (n: Node)
      reads this
      ensures n.name == name && n.children == children
    {
      Node(name, children)
    }

    /** `SetName`: a name can be set only while the current one is empty;
        otherwise nil is returned and nothing changes.  Setting the empty name
        therefore does not lock the node. */
    method SetName(newName: string) returns (r: MyNode?)
      modifies this
      ensures old(name) == "" ==> r == this && name == newName
      ensures old(name) != "" ==> r == null && name == old(name)
      ensures children == old(children)
    {
      if GetName() != "" {
        return null;
      }
      name := newName;
      return this;
    }

    /** `SetChildren`: replaces the children wholesale and keeps the name. */
    method SetChildren(newChildren: seq<Node>) returns (r: MyNode)
      modifies this
      ensures r == this && children == newChildren && name == old(name)
    {
      children := newChildren;
      return this;
    }
  }

  /** The cache of valid tokens. */
  const TokenCache: map<string, bool> := map["XXX" := true, "YYY" := true]

  /** `IsAuthenticated`: exactly the two cached tokens are accepted. */
  function IsAuthenticated(token: string): (ok: bool)
    ensures ok <==> token == "XXX" || token == "YYY"
  {
    token in TokenCache
  }

  /** `GetValidToken`: some token of the cache (map iteration order is not
      fixed, so which one is left open), or the empty string when the cache is
      empty.  The cache is passed in. */
  method GetValidToken(cache: map<string, bool>) returns (token: string)
    ensures cache == map[] ==> token == ""
    ensures cache != map[] ==> token in cache
  {
    if cache.Keys == {} {
      assert cache == map[];
      return "";
    }
    token :| token in cache.Keys;
  }

  /** Something the search sends to `GetSubTags`: a matching node on the
      `result` channel, or the signal on `done`. */
  datatype Event = Published(node: Node) | Done

  /** The nodes a search from `n` publishes, in order: `n` itself when it
      carries the tag (its subtree is then not entered), otherwise what each
      child publishes, left to right. */
  function Trace(n: Node, tag: string): seq<Event>
    decreases n, 1
  {
    if n.name == tag then [Published(n)] else TraceAll(n.children, tag)
  }

  function TraceAll(ns: seq<Node>, tag: string): seq<Event>
    decreases ns, 0
  {
    if ns == [] then [] else TraceAll(ns[..|ns| - 1], tag) + Trace(ns[|ns| - 1], tag)
  }

  /** How many calls a search from `n` makes (each one decrements the counter once). */
  function Visited(n: Node, tag: string): nat
    decreases n, 1
  {
    if n.name == tag then 1 else 1 + VisitedAll(n.children, tag)
  }

  function VisitedAll(ns: seq<Node>, tag: string): nat
    decreases ns, 0
  {
    if ns == [] then 0 else VisitedAll(ns[..|ns| - 1], tag) + Visited(ns[|ns| - 1], tag)
  }

  /**
    The coordination state of one `GetSubTags` call, with the search run
    inline.  `active` is the shared counter; `events` is what has been sent to
    the caller so far.  The ghost counters record every increment and
    decrement of `active`.
   */
  class Lookup {
    const tag: string
    var active: int
    var events: seq<Event>
    ghost var increments: nat
    ghost var decrements: nat

    ghost predicate Valid()
      reads this
    {
      active == 1 + increments - decrements && active >= 0
    }

    /** The counter starts at one: the root call owns it. */
    constructor (tag: string)
      ensures this.tag == tag && Valid()
      ensures active == 1 && events == [] && increments == 0 && decrements == 0
    {
      this.tag := tag;
      active := 1;
      events := [];
      increments, decrements := 0, 0;
    }

    /**
      `lookupChildrens` on a narrow tree.  The call already owns one unit of
      the counter; it publishes the node when it matches, otherwise it
      increments the counter before each inline child call; on exit it
      decrements once and, if that brings the counter to zero, fires `done`.
     */
    method LookupChildrens(node: Node)
      requires Valid() && active >= 1 && Narrow(node)
      modifies this
      ensures Valid()
      ensures active == old(active) - 1
      ensures events == old(events) + Trace(node, tag) + (if old(active) == 1 then [Done] else [])
      ensures decrements == old(decrements) + Visited(node, tag)
      ensures increments == old(increments) + Visited(node, tag) - 1
      decreases node
    {
      if node.name == tag {
        events := events + [Published(node)];
      } else {
        var i := 0;
        while i < |node.children|
          invariant 0 <= i <= |node.children|
          invariant Valid() && active == old(active)
          invariant events == old(events) + TraceAll(node.children[..i], tag)
          invariant decrements == old(decrements) + VisitedAll(node.children[..i], tag)
        {
          assert node.children[..i + 1][..i] == node.children[..i];
          active := active + 1;
          increments := increments + 1;
          LookupChildrens(node.children[i]);
          i := i + 1;
        }
        assert node.children[..i] == node.children;
      }
      // the deferred decrement
      active := active - 1;
      decrements := decrements + 1;
      if active == 0 {
        events := events + [Done];
      }
    }
  }

  /** What `GetSubTags` returns: the empty node when the server context wins
      the select, else the first node in pre-order carrying the tag, else the
      empty node. */
  function SubTags(cancelled: bool, root: Node, tag: string): Node
  {
    if cancelled then Empty
    else match FindFirst(PreOrder(root), tag)
      case Some(m) => m
      case None => Empty
  }

  /**
    `GetSubTags` on a narrow tree.  The search runs to completion on one
    goroutine, so the caller's select sees the first event sent: the first
    published match, or `done` when nothing matched.  `cancelled` stands for
    the server context being the case the select takes.
   */
  method GetSubTags(cancelled: bool, root: Node, tag: string) returns (r: Node)
    requires Narrow(root)
    ensures r == SubTags(cancelled, root, tag)
  {
    var search := new Lookup(tag);
    search.LookupChildrens(root);
    if cancelled {
      return Empty;
    }
    TraceFirst(root, tag);
    match search.events[0]
    case Published(m) => r := m;
    case Done => r := Empty;
  }

  /** The first thing a search publishes is the first node in pre-order that
      carries the tag, and it publishes nothing exactly when no node does. */
  lemma {:induction false} TraceFirst(n: Node, tag: string)
    ensures Trace(n, tag) == [] <==> FindFirst(PreOrder(n), tag).None?
    ensures Trace(n, tag) != [] ==> Trace(n, tag)[0] == Published(FindFirst(PreOrder(n), tag).value)
    decreases n, 1
  {
    FindFirstAppend([n], PreOrderAll(n.children), tag);
    if n.name != tag {
      TraceAllFirst(n.children, tag);
    }
  }

  lemma {:induction false} TraceAllFirst(ns: seq<Node>, tag: string)
    ensures TraceAll(ns, tag) == [] <==> FindFirst(PreOrderAll(ns), tag).None?
    ensures TraceAll(ns, tag) != [] ==> TraceAll(ns, tag)[0] == Published(FindFirst(PreOrderAll(ns), tag).value)
    decreases ns, 0
  {
    if ns != [] {
      var init, last := ns[..|ns| - 1], ns[|ns| - 1];
      TraceAllFirst(init, tag);
      TraceFirst(last, tag);
      FindFirstAppend(PreOrderAll(init), PreOrder(last), tag);
    }
  }

  /** Everything a search publishes carries the tag and lies in the tree. */
  lemma {:induction false} TracePublishesMatches(n: Node, tag: string)
    ensures forall k :: 0 <= k < |Trace(n, tag)| ==>
              Trace(n, tag)[k].Published? && Trace(n, tag)[k].node.name == tag && Trace(n, tag)[k].node in PreOrder(n)
    decreases n, 1
  {
    if n.name != tag {
      TraceAllPublishesMatches(n.children, tag);
    }
  }

  lemma {:induction false} TraceAllPublishesMatches(ns: seq<Node>, tag: string)
    ensures forall k :: 0 <= k < |TraceAll(ns, tag)| ==>
              TraceAll(ns, tag)[k].Published? && TraceAll(ns, tag)[k].node.name == tag
              && TraceAll(ns, tag)[k].node in PreOrderAll(ns)
    decreases ns, 0
  {
    if ns != [] {
      var init, last := ns[..|ns| - 1], ns[|ns| - 1];
      TraceAllPublishesMatches(init, tag);
      TracePublishesMatches(last, tag);
      var all, left, right := TraceAll(ns, tag), TraceAll(init, tag), Trace(last, tag);
      assert all == left + right;
      forall k | 0 <= k < |all|
        ensures all[k].Published? && all[k].node.name == tag && all[k].node in PreOrderAll(ns)
      {
        if k < |left| {
          assert all[k] == left[k];
        } else {
          assert all[k] == right[k - |left|];
        }
      }
    }
  }

  /** When nothing carries the tag, the search calls itself once per node. */
  lemma {:induction false} VisitedAllWhenAbsent(n: Node, tag: string)
    requires FindFirst(PreOrder(n), tag).None?
    ensures Visited(n, tag) == Size(n)
    decreases n, 1
  {
    FindFirstAppend([n], PreOrderAll(n.children), tag);
    VisitedAllAllWhenAbsent(n.children, tag);
  }

  lemma {:induction false} VisitedAllAllWhenAbsent(ns: seq<Node>, tag: string)
    requires FindFirst(PreOrderAll(ns), tag).None?
    ensures VisitedAll(ns, tag) == SizeAll(ns)
    decreases ns, 0
  {
    if ns != [] {
      var init, last := ns[..|ns| - 1], ns[|ns| - 1];
      FindFirstAppend(PreOrderAll(init), PreOrder(last), tag);
      VisitedAllAllWhenAbsent(init, tag);
      VisitedAllWhenAbsent(last, tag);
    }
  }

  /** Apart from a cancelled call, the empty-name result means "no node carries
      the tag" exactly when the tag itself is not empty; a non-empty result is
      a node of the tree carrying the tag. */
  lemma SubTagsSentinel(cancelled: bool, root: Node, tag: string)
    requires tag != ""
    ensures SubTags(cancelled, root, tag).name == "" <==>
              cancelled || forall i :: 0 <= i < |PreOrder(root)| ==> PreOrder(root)[i].name != tag
    ensures SubTags(cancelled, root, tag).name != "" ==>
              SubTags(cancelled, root, tag).name == tag && SubTags(cancelled, root, tag) in PreOrder(root)
  {
  }
}
