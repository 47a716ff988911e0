/**
  Tree ingestion (`convertNode`): turning an already decoded JSON value into a
  tag tree.  Decoding itself (`json.Unmarshal`) and the file read are not
  modelled; a decoded object is a Go map, so its keys are distinct and its
  iteration order is arbitrary: here an object is a list of fields with
  distinct keys, in whatever order the iteration visits them.
 */
module UploadFiles {
  import opened Wrappers
  import opened Nodes
  import opened Repository

  /** A decoded JSON value, as far as ingestion looks at it. */
  datatype Json =
    | JObject(fields: seq<Field>)
    | JArray(items: seq<Json>)
    | JString(text: string)
    | JOther

  datatype Field = Field(key: string, value: Json)

  /** Position of the field with key `key`, if any. */
  function FindKey(fs: seq<Field>, key: string): (r: Option<nat>)
    ensures r.Some? ==> r.value < |fs| && fs[r.value].key == key
    ensures r.None? <==> forall i :: 0 <= i < |fs| ==> fs[i].key != key
  {
    if fs == [] then None
    else if fs[|fs| - 1].key == key then Some(|fs| - 1)
    else FindKey(fs[..|fs| - 1], key)
  }

  predicate UniqueKeys(fs: seq<Field>)
  {
    forall i, j :: 0 <= i < j < |fs| ==> fs[i].key != fs[j].key
  }

  /** What `convertNode` needs to run without a failed type assertion: in an
      object, a `"name"` value is a string and a `"children"` value is an array
      of convertible values.  Anything that is not an object is convertible. */
  predicate Convertible(j: Json)
    decreases j
  {
    match j
    case JObject(fs) =>
      && UniqueKeys(fs)
      && forall i :: 0 <= i < |fs| ==> FieldConvertible(fs[i])
    case _ => true
  }

  predicate FieldConvertible(f: Field)
    decreases f
  {
    && (f.key == "name" ==> f.value.JString?)
    && (f.key == "children" ==>
          f.value.JArray? && forall k :: 0 <= k < |f.value.items| ==> Convertible(f.value.items[k]))
  }

  /** The tree a decoded value stands for: an object gives the node named by
      its `"name"` string (empty if absent) whose children are its
      `"children"` items converted in order (none if absent); every other key
      is ignored; anything that is not an object gives the empty node. */
  function Convert(j: Json): Node
    requires Convertible(j)
    decreases j, 1
  {
    match j
    case JObject(fs) =>
      var n := FindKey(fs, "name");
      var c := FindKey(fs, "children");
      assert n.Some? ==> FieldConvertible(fs[n.value]);
      assert c.Some? ==> FieldConvertible(fs[c.value]);
      Node(if n.Some? then fs[n.value].value.text else "",
           if c.Some? then ConvertAll(fs[c.value].value.items) else [])
    case _ => Empty
  }

  function ConvertAll(items: seq<Json>): (r: seq<Node>)
    requires forall k :: 0 <= k < |items| ==> Convertible(items[k])
    decreases items, 0
  {
    if items == [] then [] else ConvertAll(items[..|items| - 1]) + [Convert(items[|items| - 1])]
  }

  /** The converted children keep the number and order of the array items. */
  lemma {:induction false} ConvertAllItems(items: seq<Json>)
    requires forall k :: 0 <= k < |items| ==> Convertible(items[k])
    ensures |ConvertAll(items)| == |items|
    ensures forall k :: 0 <= k < |items| ==> ConvertAll(items)[k] == Convert(items[k])
  {
    if items != [] {
      ConvertAllItems(items[..|items| - 1]);
    }
  }

  /** The fields visited so far form a convertible object on their own. */
  lemma PrefixConvertible(fs: seq<Field>, i: nat)
    requires Convertible(JObject(fs)) && i <= |fs|
    ensures Convertible(JObject(fs[..i]))
  {
    var pre := fs[..i];
    forall a | 0 <= a < |pre| ensures FieldConvertible(pre[a]) {
      assert pre[a] == fs[a];
    }
    forall a, b | 0 <= a < b < |pre| ensures pre[a].key != pre[b].key {
      assert pre[a] == fs[a] && pre[b] == fs[b];
    }
  }

  /** Visiting one more field: `"name"` sets a name that was still empty,
      `"children"` sets children that were still none, any other key changes
      nothing. */
  lemma ConvertStep(fs: seq<Field>, i: nat)
    requires Convertible(JObject(fs)) && i < |fs|
    ensures Convertible(JObject(fs[..i])) && Convertible(JObject(fs[..i + 1])) && FieldConvertible(fs[i])
    ensures fs[i].key == "name" ==>
              Convert(JObject(fs[..i])).name == "" &&
              Convert(JObject(fs[..i + 1])) == Node(fs[i].value.text, Convert(JObject(fs[..i])).children)
    ensures fs[i].key == "children" ==>
              Convert(JObject(fs[..i])).children == [] &&
              Convert(JObject(fs[..i + 1])) == Node(Convert(JObject(fs[..i])).name, ConvertAll(fs[i].value.items))
    ensures fs[i].key != "name" && fs[i].key != "children" ==>
              Convert(JObject(fs[..i + 1])) == Convert(JObject(fs[..i]))
  {
    PrefixConvertible(fs, i);
    PrefixConvertible(fs, i + 1);
    var pre, next := fs[..i], fs[..i + 1];
    assert next[..|next| - 1] == pre && next[|next| - 1] == fs[i];
    assert FieldConvertible(fs[i]);
    forall a | 0 <= a < |pre| ensures pre[a].key != fs[i].key {
      assert pre[a] == fs[a];
    }
    assert FindKey(pre, fs[i].key).None?;
  }

  /**
    `convertNode`: start from an empty node; for an object, visit its fields
    in iteration order, setting the name from `"name"` and appending the
    conversion of each `"children"` item, one `SetChildren` at a time.
    Because keys are distinct and the node starts nameless, `SetName` never
    finds a name already set, so the immutability error is never logged.
   */
  method ConvertNode(j: Json) returns (r: Node)
    requires Convertible(j)
    ensures r == Convert(j)
    ensures !j.JObject? ==> r == Empty
    decreases j, 3
  {
    var node := new MyNode();
    match j {
    case JObject(fs) =>
      var i := 0;
      assert fs[..0] == [];
      while i < |fs|
        invariant 0 <= i <= |fs|
        invariant Convertible(JObject(fs[..i]))
        invariant node.Value() == Convert(JObject(fs[..i]))
      {
        ConvertStep(fs, i);
        var k, v := fs[i].key, fs[i].value;
        if k == "name" {
          var ok := node.SetName(v.text);
          if ok == null {
            assert false;
          }
        } else if k == "children" {
          AppendChildren(node, v.items);
        }
        i := i + 1;
      }
      assert fs[..i] == fs;
    case _ =>
    }
    r := node.Value();
  }

  /** The `"children"` case of `convertNode`: each item is converted and
      appended with its own `SetChildren` call; the name is left alone. */
  method AppendChildren(node: MyNode, items: seq<Json>)
    requires forall m :: 0 <= m < |items| ==> Convertible(items[m])
    modifies node
    ensures node.name == old(node.name)
    ensures node.children == old(node.children) + ConvertAll(items)
    decreases items, 2
  {
    var c := 0;
    assert items[..0] == [];
    while c < |items|
      invariant 0 <= c <= |items|
      invariant node.name == old(node.name)
      invariant node.children == old(node.children) + ConvertAll(items[..c])
    {
      assert items[..c + 1][..c] == items[..c];
      var child := ConvertNode(items[c]);
      var _ := node.SetChildren(node.GetChildren() + [child]);
      c := c + 1;
    }
    assert items[..c] == items;
  }

  /** The result depends only on the `"name"` and `"children"` fields present:
      neither the order in which the fields are visited nor any other key
      makes a difference. */
  lemma ConvertOnlyNameAndChildren(fs: seq<Field>, gs: seq<Field>)
    requires Convertible(JObject(fs)) && Convertible(JObject(gs))
    requires forall f: Field :: f.key == "name" ==> (f in fs <==> f in gs)
    requires forall f: Field :: f.key == "children" ==> (f in fs <==> f in gs)
    ensures Convert(JObject(fs)) == Convert(JObject(gs))
  {
    SameField(fs, gs, "name");
    SameField(fs, gs, "children");
  }

  lemma SameField(fs: seq<Field>, gs: seq<Field>, key: string)
    requires UniqueKeys(fs) && UniqueKeys(gs)
    requires forall f: Field :: f.key == key ==> (f in fs <==> f in gs)
    ensures FindKey(fs, key).Some? <==> FindKey(gs, key).Some?
    ensures FindKey(fs, key).Some? ==> fs[FindKey(fs, key).value] == gs[FindKey(gs, key).value]
  {
    var a, b := FindKey(fs, key), FindKey(gs, key);
    if a.Some? {
      var f := fs[a.value];
      assert f in fs;
      var j :| 0 <= j < |gs| && gs[j] == f;
      assert b.Some?;
    }
    if b.Some? {
      var g := gs[b.value];
      assert g in gs;
      var i :| 0 <= i < |fs| && fs[i] == g;
      assert a.Some?;
    }
  }

  /** The `{name, children}` shape a node is serialized to. */
  function ToJson(n: Node): Json
    decreases n, 1
  {
    JObject([Field("name", JString(n.name)), Field("children", JArray(ToJsonAll(n.children)))])
  }

  function ToJsonAll(ns: seq<Node>): (r: seq<Json>)
    decreases ns, 0
  {
    if ns == [] then [] else ToJsonAll(ns[..|ns| - 1]) + [ToJson(ns[|ns| - 1])]
  }

  /** Converting the serialized shape of a tree gives the tree back. */
  lemma {:induction false} ConvertToJson(n: Node)
    ensures Convertible(ToJson(n)) && Convert(ToJson(n)) == n
    decreases n
  {
    var js := ToJsonAll(n.children);
    ToJsonAllItems(n.children);
    forall k | 0 <= k < |js| ensures Convertible(js[k]) && Convert(js[k]) == n.children[k] {
      ConvertToJson(n.children[k]);
    }
    ConvertAllItems(js);
    assert ConvertAll(js) == n.children;
    ConvertNameChildren(n.name, js);
  }

  /** An object holding just a `"name"` string and a `"children"` array. */
  lemma ConvertNameChildren(name: string, items: seq<Json>)
    requires forall k :: 0 <= k < |items| ==> Convertible(items[k])
    ensures var j := JObject([Field("name", JString(name)), Field("children", JArray(items))]);
            Convertible(j) && Convert(j) == Node(name, ConvertAll(items))
  {
    var fs := [Field("name", JString(name)), Field("children", JArray(items))];
    assert FieldConvertible(fs[0]) && FieldConvertible(fs[1]);
    assert FindKey(fs, "name") == Some(0);
    assert FindKey(fs, "children") == Some(1);
  }

  lemma {:induction false} ToJsonAllItems(ns: seq<Node>)
    ensures |ToJsonAll(ns)| == |ns|
    ensures forall k :: 0 <= k < |ns| ==> ToJsonAll(ns)[k] == ToJson(ns[k])
  {
    if ns != [] {
      ToJsonAllItems(ns[..|ns| - 1]);
    }
  }
}
