# Tag tree service: a Dafny model

The repository is a small Go service built around a tree of tags. Each tag node has a name and an ordered list of child nodes. The service does four things:

- It loads the tree from a decoded JSON document.
- It lists the nodes in pre-order and lists the root-to-leaf paths.
- It counts the words of a text file and sorts them by frequency.
- It answers `GET /taggedContent?token=…&tag=…` with the first node carrying the tag, after checking the method, the token and the tag parameter in that order.

The search behind the endpoint (`GetSubTags` / `lookupChildrens`) keeps a reference counter of active calls. It searches a node's children inline when the node has fewer than ten children, and spawns a goroutine per child otherwise.

This project models that sequential core, one Dafny module per Go file:

- `nodes.dfy` (`Nodes`): the tree as a value. It defines pre-order, size, leaf count, the "fewer than ten children everywhere" condition, and the first match in a list of nodes.
- `repository.dfy` (`Repository`):
  - the `MyNode` class with its set-once `SetName` and its `SetChildren`;
  - the token cache;
  - the search as a class `Lookup`, whose `active` counter and event log are updated in place;
  - `GetSubTags` reading the first event.
- `walk_graph.dfy` (`WalkGraph`): `findNode` and `WalkGraph`. The Go accumulator slice is passed in and handed back.
- `paths.dfy` (`Paths`): `findBottom` and `Paths`. The path stack is pushed and popped, and a copy is stored at each leaf.
- `upload_files.dfy` (`UploadFiles`): `convertNode` over a decoded JSON value, building a `MyNode` field by field.
- `count_words.dfy` (`Words`):
  - `countWords`, counting in a map;
  - the lower-casing, listing and sort-by-count part of `CountWords`.
- `count_words_example.dfy` (`WordsExample`): the word-count test sentence.
- `rest_api.dfy` (`RestApi`): the `ServeHTTP` decision ladder, as a function and as a method.

`src/controller/controller.go` is an older draft that holds copies of `convertNode`, `WalkGraph`/`findNode`, `Paths`/`findBottom` and `ServeHTTP`. The copies match the split-out files line for line, so the same members model both:

- `convertNode` at src/controller/controller.go:42-63 is `UploadFiles.ConvertNode`.
- `WalkGraph` and `findNode` at src/controller/controller.go:67-83 are `WalkGraph.Walk` and `WalkGraph.FindNode`.
- `Paths` and `findBottom` at src/controller/controller.go:87-113 are `Paths.EnumeratePaths` and `Paths.FindBottom`.
- `ServeHTTP` at src/controller/controller.go:161-209 is `RestApi.ServeHTTP`.

The table cites the split-out files.

## Model

| member | source | states |
|---|---|---|
| Repository.MyNode.constructor | src/repository/repository.go:22-26 | a new node has the empty name and no children |
| Repository.MyNode.GetName | src/repository/repository.go:28-30 | the name reported is the name of the node's tree value |
| Repository.MyNode.GetChildren | src/repository/repository.go:52-54 | the children reported are those of the node's tree value |
| Repository.MyNode.SetName | src/repository/repository.go:44-50 | on a node whose name is empty, sets the name and returns the node; otherwise returns nil and leaves the name as it was; the children never change; setting the empty name leaves the node settable |
| Repository.MyNode.SetChildren | src/repository/repository.go:56-59 | replaces the children wholesale, keeps the name, returns the node |
| Repository.IsAuthenticated | src/repository/repository.go:161-174 | a token is accepted exactly when it is `XXX` or `YYY` |
| Repository.GetValidToken | src/repository/repository.go:176-183 | returns some token held by the cache, or the empty string when the cache is empty |
| Repository.Lookup.constructor | src/repository/repository.go:87-93 | the counter starts at one, owned by the root call; nothing has been sent yet |
| Repository.Lookup.LookupChildrens | src/repository/repository.go:117-159 | on a tree whose nodes have fewer than ten children: the counter keeps `active = 1 + increments - decrements` and never goes negative; each call takes one unit and returns it on exit, so it ends one lower; the sends are the node itself when its name is the tag (its subtree is not entered), else those of its children left to right; `done` is sent exactly when the counter returns to zero, which is when the root call exits; each visited call decrements once and is preceded by one increment |
| Repository.GetSubTags | src/repository/repository.go:85-108 | returns the empty node when the server context is cancelled; otherwise the first node in pre-order whose name is the tag, or the empty node when none is |
| Repository.TraceFirst | src/repository/repository.go:124-131 | the search sends nothing exactly when no node in pre-order carries the tag; otherwise its first send is the first such node |
| Repository.TraceAllFirst | src/repository/repository.go:147-156 | the same for the inline loop over a list of children |
| Repository.TracePublishesMatches | src/repository/repository.go:124-131 | everything the search sends carries the tag and is a node of the tree |
| Repository.TraceAllPublishesMatches | src/repository/repository.go:150-155 | the same for a list of children |
| Repository.VisitedAllWhenAbsent | src/repository/repository.go:117-159 | when no node carries the tag, the search makes one call per node of the tree, so the counter is bumped and dropped once per node |
| Repository.VisitedAllAllWhenAbsent | src/repository/repository.go:150-155 | the same for a list of children |
| Repository.SubTagsSentinel | src/repository/repository.go:83-108 | for a non-empty tag, an empty-named result means "cancelled or no node carries the tag" and nothing else; a non-empty result carries the tag and lies in the tree |
| Nodes.FindFirst | src/repository/repository.go:83-84 | the reference definition of "first occurrence of the tag": none exactly when no element carries it, else an element carrying it with no earlier element carrying it |
| Nodes.FindFirstAppend | src/repository/repository.go:150-155 | the first match in a concatenation is the one in the left part, else the one in the right part |
| WalkGraph.FindNode | src/controller/walk_graph.go:20-25 | the accumulator gets the pre-order of the node appended, and its earlier contents stay an unchanged prefix |
| WalkGraph.Walk | src/controller/walk_graph.go:9-16 | a nil root gives the empty list; otherwise the pre-order of the tree, which starts with the root and has one entry per node |
| WalkGraph.PreOrderSize | src/controller/walk_graph.go:20-25 | the traversal lists as many nodes as the tree has |
| WalkGraph.PreOrderAllSize | src/controller/walk_graph.go:22-24 | the same for a list of children |
| WalkGraph.PreOrderMembers | src/controller/walk_graph.go:20-25 | a node is listed exactly when it lies in the tree |
| WalkGraph.PreOrderAllMembers | src/controller/walk_graph.go:22-24 | a node is listed by the children's walks exactly when it lies under one of them |
| WalkGraph.LeafParentWalk | src/controller/walk_graph.go:20-25 | a node whose children are all leaves walks as itself followed by its children |
| WalkGraph.SingleNodeWalk | src/controller/walk_graph_test.go:47-57 | a single childless node walks as just itself, also when its name is empty |
| WalkGraph.ExampleWalk | src/controller/walk_graph_test.go:59-76 | the ten-node test tree walks as A, B, E, F, C, G, H, I, D, J, ten nodes |
| WalkGraph.ExampleWalkNodes | src/controller/walk_graph_test.go:59-76 | the same walk, node by node |
| Paths.FindBottom | src/controller/paths.go:23-35 | the path stack comes back as it was; the stored paths get one snapshot per leaf under the node appended, each the stack at entry followed by the nodes down to that leaf, left to right |
| Paths.EnumeratePaths | src/controller/paths.go:9-17 | a nil root gives no paths; otherwise one path per leaf, left to right, each starting at the root, ending at a leaf and following parent-to-child edges |
| Paths.BottomsCount | src/controller/paths.go:26-27 | the number of stored paths is the number of leaves |
| Paths.BottomsShape | src/controller/paths.go:23-35 | every stored path is the stack at entry followed by a parent-to-child path from the node down to a leaf |
| Paths.BottomsAllShape | src/controller/paths.go:29-31 | every path stored for a list of children goes down from one of them |
| Paths.LeafParentPaths | src/controller/paths.go:23-35 | a node whose children are all leaves stores one path per child, the stack, the node and that child |
| Paths.SingleNodePaths | src/controller/paths_test.go:17-24 | a single node yields the one path holding it |
| Paths.ExamplePaths | src/controller/paths_test.go:25-50 | the ten-node test tree yields A-B-E, A-B-F, A-C-G, A-C-H, A-C-I, A-D-J in that order |
| Paths.ExampleBottoms | src/controller/paths_test.go:25-50 | the same six paths, node by node |
| Paths.PathNames | src/controller/paths_test.go:59-66 | the names along each path, path by path and node by node |
| UploadFiles.FindKey | src/controller/upload_files.go:35-36 | finds the field with a given key, or reports that none has it |
| UploadFiles.ConvertNode | src/controller/upload_files.go:29-50 | a non-object gives the empty node; an object gives the node whose name is its `"name"` string (empty if absent) and whose children are its `"children"` items converted in order (none if absent); the failed-`SetName` branch never runs |
| UploadFiles.AppendChildren | src/controller/upload_files.go:40-44 | each item is converted and appended in array order; the name is left alone |
| UploadFiles.ConvertStep | src/controller/upload_files.go:35-45 | visiting a field: `"name"` finds the name still empty and sets it; `"children"` finds no children yet and sets the converted items; any other key changes nothing |
| UploadFiles.ConvertAllItems | src/controller/upload_files.go:41-44 | the converted children keep the number and order of the array items |
| UploadFiles.ConvertOnlyNameAndChildren | src/controller/upload_files.go:35-45 | the result depends only on the `"name"` and `"children"` fields: neither the map's iteration order nor any other key changes it |
| UploadFiles.SameField | src/controller/upload_files.go:35-36 | two objects holding the same field for a key find it alike |
| UploadFiles.ConvertToJson | src/controller/upload_files.go:29-50 | converting the `{name, children}` shape a node is written as gives the node back |
| UploadFiles.ConvertNameChildren | src/controller/upload_files.go:36-44 | an object of just a `"name"` string and a `"children"` array converts to that name over the converted items |
| Words.ToLower | src/controller/count_words.go:39 | same length; no upper-case letter is left; every other character is kept; an upper-case letter becomes the lower-case letter at the same place in the alphabet |
| Words.ToLowerIdempotent | src/controller/count_words.go:39 | lower-casing an already lower-cased text changes nothing |
| Words.LowerKeepsWordChars | src/controller/count_words.go:13-14 | a character is a letter or digit exactly when its lower-cased form is, so lower-casing moves no token boundary |
| Words.RunLength | src/controller/count_words.go:12-15 | the length of the leading run of letters and digits: all inside it are word characters, and the one after it is not |
| Words.Fields | src/controller/count_words.go:12-15 | every token is non-empty and made of letters and digits |
| Words.FieldsAreRuns | src/controller/count_words.go:12-15 | every token stands at some position of the input as a maximal run: the characters there spell it, and the characters just before and just after it are separators or the ends of the text |
| Words.FieldsSplit | src/controller/count_words.go:12-15 | a separator cuts the text into two independently tokenised halves |
| Words.FieldsOfWord | src/controller/count_words.go:12-15 | a non-empty run of letters and digits is one token |
| Words.SkipSeparators | src/controller/count_words.go:12-15 | leading separators produce no token |
| Words.FieldsJoin | src/controller/count_words.go:12-15 | tokenising words joined by non-empty separator runs gives the words back |
| Words.JoinAppend | src/controller/count_words_test.go:9 | joining distributes over concatenation |
| Words.CountOccurrences | src/controller/count_words.go:11-24 | the keys are exactly the tokens, and each count is the number of tokens equal to the key |
| Words.CountKeysAreWords | src/controller/count_words.go:12-21 | every key is a non-empty word of letters and digits that stands in the input as a maximal run, and its count is at least one |
| Words.LowerKeys | src/controller/count_words.go:39-41 | no word counted in the lower-cased text holds an upper-case letter |
| Words.NoWordsNoCounts | src/controller/count_words.go:12-17 | a text without letters or digits counts nothing |
| Words.CountsSum | src/controller/count_words.go:17-21 | the counts add up to the number of tokens |
| Words.Insert | src/controller/count_words.go:47-49 | inserting into a list of non-increasing counts adds exactly that entry and keeps the counts non-increasing |
| Words.InsertDistinct | src/controller/count_words.go:47-49 | inserting an entry for a new word keeps the words distinct |
| Words.InsertFront | src/controller/count_words.go:47-49 | an entry that stays in front of the recursive insertion keeps the order and the contents |
| Words.InsertFrontDistinct | src/controller/count_words.go:47-49 | the same for distinct words |
| Words.SortByCount | src/controller/count_words.go:47-49 | the result is a permutation of the input with non-increasing counts; distinct words stay distinct |
| Words.HeadIsNew | src/controller/count_words.go:43-46 | with distinct words, the first word occurs nowhere in a permutation of the rest |
| Words.CountWords | src/controller/count_words.go:32-55 | the text is lower-cased and counted; the report lists each counted word once with its count, and nothing else; counts are non-increasing and add up to the number of tokens; every word is a non-empty run of letters and digits with no upper-case letter, counted at least once |
| Words.Copies | src/controller/count_words.go:19-21 | a count of `c` for `w` stands for `c` copies of `w` |
| Words.ExpandSize | src/controller/count_words.go:17-21 | the tokens a report stands for are as many as its counts add up to |
| Words.ExpandCounts | src/controller/count_words.go:17-21 | with distinct words, a report stands for each listed word exactly its count times and for no other word |
| WordsExample.TestSentence | src/controller/count_words_test.go:9 | the test sentence is its twelve words joined by their separators |
| WordsExample.ExampleFields | src/controller/count_words_test.go:9 | the test sentence tokenises into its twelve words |
| WordsExample.CountTwice | src/controller/count_words_test.go:10-16 | six words repeating the second, said twice, count 2, 4, 2, 2, 2 |
| WordsExample.ExampleCount | src/controller/count_words_test.go:8-23 | counting the literal test sentence, with its case kept, gives `Use` 2, `proper` 4, `tool` 2, `for` 2, `thing` 2 |
| RestApi.HttpError | src/controller/rest_api.go:76 | an error response carries the given status and a text body that is the message followed by one newline |
| RestApi.ServeHTTP | src/controller/rest_api.go:69-117 | on a narrow tree, the response is the one the decision ladder `Respond` gives; the tree is searched exactly when the method is GET, the token is accepted and the tag is non-empty, and then for that tag |
| RestApi.RespondCases | src/controller/rest_api.go:75-116 | with the search as modelled on a narrow tree: 405 for a method other than GET, whatever else the request holds; then 401 "Unauthorized" for an unknown token, whatever the tag; then 400 "Missing 'tag' parameter"; then 200 exactly when the search was not cancelled and some node carries the tag, with the first such node in pre-order as the body; otherwise 400 "Tag … was not found"; every non-200 body is text |
| RestApi.ExampleSearch | src/controller/rest_api_test.go:14-22 | on the test tree, `child1` is found with its two children and `unknown` gives the empty node |
| RestApi.TestTreeWalk | src/controller/rest_api_test.go:14-22 | the test tree in pre-order |
| RestApi.ClientToken | src/controller/rest_api_test.go:28 | whichever token `GetValidToken` picks from the cache, the handler accepts it |
| RestApi.ExampleMissingTag | src/controller/rest_api_test.go:37-42 | a valid token without a tag gives 400 "Missing 'tag' parameter\n" |
| RestApi.ExampleUnauthorized | src/controller/rest_api_test.go:43-48 | the token `invalid` gives 401 "Unauthorized\n" although a tag is present |
| RestApi.ExampleNotFound | src/controller/rest_api_test.go:49-54 | the tag `unknown` gives 400 "Tag unknown was not found\n" |
| RestApi.ExampleFound | src/controller/rest_api_test.go:55-60 | the tag `child1` gives 200 with `child1` and its two children |

## Left out

- Repository.Lookup.LookupChildrens: modelled only for trees in which every node has fewer than ten children. The wide branch, which spawns a goroutine per child and checks both contexts between spawns (src/repository/repository.go:135-146), is concurrent and is not modelled.
- Repository.GetSubTags: requires the same narrow tree. The `select` is modelled as taking the first event the search sends: the first match or `done`, unless the server context is cancelled (the `cancelled` parameter). Go picks at random among ready cases. So if the search finishes before the caller reaches the `select`, a buffered match and a pending `done` are both ready, and the caller may report "not found". That interleaving is not modelled.
- Repository.GetSubTags: not modelled:
  - the inner context, which is cancelled only by the deferred `cancel`;
  - the goroutine leak when a second match or `done` finds no receiver.
- Repository.Lookup.LookupChildrens: children are tree values. A child that is a `*MyNode` rather than a `MyNode` fails the type assertion at src/repository/repository.go:125-128 and is silently not sent. That case does not arise here.
- Repository.GetValidToken: the cache is a parameter rather than the package-level map, so the empty-cache case can be stated.
- `src/repository/pool.go` (the worker pool) is concurrent and is not part of this model.
- `MyNode.MarshalJSON`, the JSON encoding of the found node, and the 500 "Error encoding response as JSON" path (src/controller/rest_api.go:107-111) are not modelled. A 200 response carries the node value, not its JSON text. `UploadFiles.ConvertToJson` states the `{name, children}` shape on the decoded side only.
- RestApi.ServeHTTP: requires a narrow tree (every node with fewer than ten children), like `GetSubTags`. Not modelled:
  - the CORS header writes;
  - the `runtime.GOMAXPROCS` tuning;
  - `Content-Type` and `Content-Length`.

  A query parameter given several times is taken to have one value, the one `Get` returns. The server context is the `cancelled` flag.
- `RestAPI`, the server's start, signal wait and shutdown, is I/O and is not modelled. So are `UploadJson` (file read and `json.Unmarshal`), the file read and printing in `CountWords`, `Log` (which calls `log.Fatalf`) and `src/main.go`.
- UploadFiles.ConvertNode: requires a decoded value in which every `"name"` is a string and every `"children"` is an array. With any other value, Go's type assertion panics, and that panic is not modelled. An object is a list of fields with distinct keys, in whichever order the map iteration visits them.
- Words.IsWordChar: letters and digits are the ASCII ones, and lower-casing is ASCII lower-casing. Unicode's `IsLetter`, `IsNumber` and `ToLower` tables are not modelled.
- Words.SortByCount: `sort.Slice` is modelled by an insertion sort, specified by its outcome: a permutation with non-increasing counts. `sort.Slice` is not stable, so the order among equal counts is left open in both.
- Words.CountWords: the `(word, count)` list is built from the map in an arbitrary key order, as Go's map iteration does. Go's `int` counts are unbounded here.
- The randomised test tree of the walk and path tests, and the HTML documentation the tests write, are not modelled.
