/**
  The `/taggedContent` handler (`ServeHTTP`): check the method, the token and
  the `tag` parameter, in that order, then search the tree for the tag.  The
  response is a status and either an error text or the node found; the JSON
  encoding of the node, the CORS headers and the GOMAXPROCS tuning are not
  part of this model.
 */
module RestApi {
  import opened Wrappers
  import opened Nodes
  import opened Repository
  import WalkGraph

  const StatusOK: int := 200
  const StatusBadRequest: int := 400
  const StatusUnauthorized: int := 401
  const StatusMethodNotAllowed: int := 405

  /** A request: its method (verb) and its query parameters (one value per key). */
  datatype Request = Request(verb: string, query: map<string, string>)

  /** `URL.Query().Get`: the value of a parameter, or "" when it is absent. */
  function Param(req: Request, key: string): string
  {
    if key in req.query then req.query[key] else ""
  }

  datatype Body = Text(text: string) | Tree(node: Node)

  datatype Response = Response(status: int, body: Body)

  /** `http.Error`: the status, and a text body that is the message
      followed by one newline. */
  function HttpError(msg: string, status: int): (r: Response)
    ensures r.status == status && r.body.Text?
    ensures |r.body.text| == |msg| + 1 && r.body.text[..|msg|] == msg && r.body.text[|msg|] == '\n'
  {
    Response(status, Text(msg + "\n"))
  }

  /** What the handler answers: 405 for anything but GET, then 401 for a token
      the cache does not hold, then 400 for a missing or empty tag, then 400
      "Tag … was not found" when the search comes back with the empty node,
      else 200 with the node found. */
  function Respond(tags: Node, cancelled: bool, req: Request): Response
  {
    if req.verb != "GET" then HttpError("Method not allowed", StatusMethodNotAllowed)
    else if !IsAuthenticated(Param(req, "token")) then HttpError("Unauthorized", StatusUnauthorized)
    else
      var tag := Param(req, "tag");
      if tag == "" then HttpError("Missing 'tag' parameter", StatusBadRequest)
      else
        var found := SubTags(cancelled, tags, tag);
        if found.name == "" then HttpError("Tag " + tag + " was not found", StatusBadRequest)
        else Response(StatusOK, Tree(found))
  }

  /** `ServeHTTP` on a narrow tree; `cancelled` stands for the server context
      having been cancelled before the search reports.  `searched` records
      the tag the tree was searched for, if the search was started at all:
      only after all three checks have passed, and never for an empty tag. */
  method ServeHTTP(tags: Node, cancelled: bool, req: Request) returns (resp: Response, ghost searched: Option<string>)
    requires Narrow(tags)
    ensures resp == Respond(tags, cancelled, req)
    ensures searched.Some? <==>
              req.verb == "GET" && IsAuthenticated(Param(req, "token")) && Param(req, "tag") != ""
    ensures searched.Some? ==> searched.value == Param(req, "tag") != ""
  {
    searched := None;
    if req.verb != "GET" {
      resp := HttpError("Method not allowed", StatusMethodNotAllowed);
      return;
    }
    var token := Param(req, "token");
    if !IsAuthenticated(token) {
      resp := HttpError("Unauthorized", StatusUnauthorized);
      return;
    }
    var tag := Param(req, "tag");
    if tag == "" {
      resp := HttpError("Missing 'tag' parameter", StatusBadRequest);
      return;
    }
    var subtags := GetSubTags(cancelled, tags, tag);
    searched := Some(tag);
    if subtags.name == "" {
      resp := HttpError("Tag " + tag + " was not found", StatusBadRequest);
      return;
    }
    resp := Response(StatusOK, Tree(subtags));
  }

  /** The checks come in a fixed order: a wrong method is reported whatever
      the token, a bad token whatever the tag; a request that passes all three
      gets 200 with the first node in pre-order named by the tag exactly when
      the search was not cancelled and such a node exists, and 400 "Tag … was
      not found" otherwise. */
  lemma RespondCases(tags: Node, cancelled: bool, req: Request)
    ensures req.verb != "GET" ==> Respond(tags, cancelled, req).status == StatusMethodNotAllowed
    ensures req.verb == "GET" && !IsAuthenticated(Param(req, "token")) ==>
              Respond(tags, cancelled, req) == HttpError("Unauthorized", StatusUnauthorized)
    ensures req.verb == "GET" && IsAuthenticated(Param(req, "token")) && Param(req, "tag") == "" ==>
              Respond(tags, cancelled, req) == HttpError("Missing 'tag' parameter", StatusBadRequest)
    ensures var tag := Param(req, "tag");
            req.verb == "GET" && IsAuthenticated(Param(req, "token")) && tag != "" ==>
              (Respond(tags, cancelled, req).status == StatusOK <==>
                 !cancelled && exists i :: 0 <= i < |PreOrder(tags)| && PreOrder(tags)[i].name == tag)
    ensures Respond(tags, cancelled, req).status == StatusOK ==>
              var tag := Param(req, "tag");
              var m := FindFirst(PreOrder(tags), tag);
              !cancelled && m.Some? && Respond(tags, cancelled, req).body == Tree(m.value)
    ensures var tag := Param(req, "tag");
            Respond(tags, cancelled, req).status != StatusOK ==>
              Respond(tags, cancelled, req).body.Text? &&
              (req.verb == "GET" && IsAuthenticated(Param(req, "token")) && tag != "" ==>
                 Respond(tags, cancelled, req) == HttpError("Tag " + tag + " was not found", StatusBadRequest))
  {
    var tag := Param(req, "tag");
    if tag != "" {
      SubTagsSentinel(cancelled, tags, tag);
      var m := FindFirst(PreOrder(tags), tag);
      if m.Some? {
        assert m.value.name == tag;
      }
    }
  }

  /** The tree of the handler tests: root with child1 (grandchild1,
      grandchild2) and child2 (grandchild3). */
  function TestTree(): Node
  {
    Node("root", [Node("child1", [Leaf("grandchild1"), Leaf("grandchild2")]), Node("child2", [Leaf("grandchild3")])])
  }

  /** The test tree in pre-order. */
  lemma TestTreeWalk()
    ensures PreOrder(TestTree()) == [TestTree(), TestTree().children[0], Leaf("grandchild1"), Leaf("grandchild2"),
                                     TestTree().children[1], Leaf("grandchild3")]
  {
    var root := TestTree();
    var c1, c2 := root.children[0], root.children[1];
    WalkGraph.LeafParentWalk(c1);
    WalkGraph.LeafParentWalk(c2);
    assert root.children == [c1, c2];
    assert root.children[..1] == [c1];
    assert PreOrderAll([c1]) == PreOrder(c1);
  }

  /** Searching the test tree: `child1` is found with its children, `unknown`
      is not. */
  lemma ExampleSearch()
    ensures SubTags(false, TestTree(), "child1") == Node("child1", [Leaf("grandchild1"), Leaf("grandchild2")])
    ensures SubTags(false, TestTree(), "unknown") == Empty
  {
    TestTreeWalk();
    var walk := PreOrder(TestTree());
    assert FindFirst(walk, "child1") == Some(walk[1]) by {
      assert walk[0].name != "child1" && walk[1..][0] == walk[1];
    }
    assert FindFirst(walk, "unknown") == None;
  }

  /** The handler tests' client token: whichever token `GetValidToken` picks
      from the cache, the handler accepts it. */
  method ClientToken() returns (token: string)
    ensures IsAuthenticated(token)
  {
    assert "XXX" in TokenCache;
    token := GetValidToken(TokenCache);
  }

  /** Handler test "missing tag parameter": a valid token and no tag. */
  lemma ExampleMissingTag()
    ensures Respond(TestTree(), false, Request("GET", map["token" := "XXX"]))
            == Response(400, Text("Missing 'tag' parameter\n"))
  {
    assert "tag" != "token" && IsAuthenticated("XXX");
    assert "Missing 'tag' parameter" + "\n" == "Missing 'tag' parameter\n";
  }

  /** Handler test "unauthorized request": a token the cache does not hold. */
  lemma ExampleUnauthorized()
    ensures Respond(TestTree(), false, Request("GET", map["tag" := "child1", "token" := "invalid"]))
            == Response(401, Text("Unauthorized\n"))
  {
    assert !IsAuthenticated("invalid");
    assert "Unauthorized" + "\n" == "Unauthorized\n";
  }

  /** Handler test "not found": a tag no node carries. */
  lemma ExampleNotFound()
    ensures Respond(TestTree(), false, Request("GET", map["tag" := "unknown", "token" := "XXX"]))
            == Response(400, Text("Tag unknown was not found\n"))
  {
    ExampleSearch();
    assert IsAuthenticated("XXX");
    NotFoundText();
  }

  lemma NotFoundText()
    ensures "Tag " + "unknown" + " was not found" + "\n" == "Tag unknown was not found\n"
  {
  }

  /** Handler test "success": the node found, with its children. */
  lemma ExampleFound()
    ensures Respond(TestTree(), false, Request("GET", map["tag" := "child1", "token" := "XXX"]))
            == Response(200, Tree(Node("child1", [Leaf("grandchild1"), Leaf("grandchild2")])))
  {
    ExampleSearch();
    assert IsAuthenticated("XXX");
  }
}
