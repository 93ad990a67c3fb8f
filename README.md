# boost_helper::json, modelled in Dafny

`boost_helper::json` (json.hpp) is a thin handle onto one node of a
Boost.PropertyTree `ptree`. Two things happen through it: the JSON document is read,
and it is changed. A handle built from JSON text owns the tree storage: it is
the *root* and frees the storage when it is destroyed. Every other handle is a
non-owning view that `operator[]` or iteration hands back. Views alias the
same storage, so a write through one view is seen by all the others.

The model has three modules:

- `PropertyTree` (property_tree.dfy) is the tree that Boost stores, written as
  a value. `Node(value, children)` holds a string payload and an ordered
  sequence of `(key, Node)` children. Keys may repeat. A lookup resolves to the
  first child with the key (`Find`). A position in the tree is a *path*: the
  child indices that lead to it from the root. `At` reads the subtree at a
  path. `Replace` rewrites the subtree at a path. `Vivify` is the tree after
  `operator[]`, and `PushBack` is one appended child. The lemmas cover three
  things: what a replacement does above, at and beside its path; that growing
  a node keeps every existing path valid; and the first-match behaviour of
  auto-vivification.
- `BoostHelper` (json.dfy) holds the mutable part:
  - `Document` is the storage. It has one mutable `root: Node` and a `live`
    flag that says the storage has not been freed.
  - `Json` is the handle. It keeps `doc`, a `path` and `isRoot`, which turns
    the source's aliasing `ptree* data_` into "the node at `path` in
    `doc.root`".
  - `Iterator` is the source's range-for iterator.

  Every operation that changes storage is a method with `modifies doc`. Its
  contract states the new tree in terms of the old one, and it says which
  other positions keep their subtrees. `Has` and `Val` only read, so they are
  functions.
- `Usage` (usage.dfy) holds callers of the handle. `Entries` is a range-based
  for over a node. `AddMany` is a run of `add(s)` calls, tied to the
  `AddAll` fold. The other two methods are usage scenarios proved from the
  contracts alone: nested mutation, the root guard, `has` compared with
  `operator[]`, idempotent indexing, and ordered append.

Exceptions become an `Outcome` value: `Ok`, or `Fail(RootModification)` for
`root_modification_exception`. The source's `operator=` returns `*this`,
which the model does not need.

String assignment (`put_value`, json.hpp:88) sets only the node's payload and
keeps its children; `AssignValue` says so.

The root guard of both `operator=` overloads (json.hpp:75, json.hpp:86) tests
only the handle's own flag. `operator[]("")` (json.hpp:95-100) looks up the
empty path, which is the node itself, and hands back a non-root handle onto it.
Through `root[""]`, a string assignment sets the root's payload and a node
assignment replaces the whole document; `Usage.EmptyKeyReachesRoot` shows both.

`Json.Val` (json.hpp:123-126) returns the payload stored at the node. That is
exactly what `get_value<std::string>` computes: reading a `std::string` out of
a `ptree` goes through Boost's identity translator, so no conversion happens.
`AssignValue` states that `Val()` returns the assigned string afterwards, and
`Usage.NestedMutation` reads a parsed payload through it.

## Model

| member | source | states |
|---|---|---|
| `PropertyTree.Find` | json.hpp:97 | the index of the FIRST child whose key equals the key (no earlier child has it), or the not-found position (the number of children) when no child has it |
| `PropertyTree.VivifyAppendsOnce` | json.hpp:97-98 | indexed access changes the tree only when the key is missing, and then appends exactly one empty child keyed `key` at the end; the old children remain an unchanged prefix and the payload is kept; the key then resolves to the same index as before, which is the new child when the key was missing |
| `PropertyTree.FindAppend` | json.hpp:98-99 | `get_child` after `add_child` resolves to the first existing match, or else to the appended child, or else finds nothing |
| `PropertyTree.VivifyIdempotent` | json.hpp:95-100 | indexing twice with the same key gives the same tree as indexing once |
| `PropertyTree.AddAllInOrder` | json.hpp:105-110 | successive `add(s)` calls append `("", s)` children in call order behind the unchanged old children, and the payload is kept |
| `PropertyTree.ReplaceAt` | json.hpp:77 | after a write through a handle's node, that position holds exactly the written subtree |
| `PropertyTree.ReplaceSame` | json.hpp:97-99 | writing back the subtree already at a position leaves the whole tree unchanged |
| `PropertyTree.ReplacePrefix` | json.hpp:17 | a write through a view is seen from every ancestor as the same write one level down: aliasing through the shared tree |
| `PropertyTree.ReplaceTwice` | json.hpp:109 | two successive writes through the same handle leave the document as the second write alone would |
| `PropertyTree.ReplaceElsewhere` | json.hpp:84-89 | a write at one position leaves every position neither above nor below it valid, holding the same subtree |
| `PropertyTree.GrowKeepsPaths` | json.hpp:109 | appending children to a node keeps every existing position valid, and every position not above that node keeps its subtree, so no view is invalidated |
| `BoostHelper.Json.FromParsed` | json.hpp:58-63 | a handle built from (already parsed) text gets fresh live storage holding the tree, is the root and points at the top |
| `BoostHelper.Json.View` | json.hpp:68 | a handle built from a node pointer is never a root |
| `BoostHelper.Json.Has` | json.hpp:131-134 | true exactly when some child's key equals the key; a function, so it cannot change the tree |
| `BoostHelper.Json.Val` | json.hpp:123-126 | the payload stored at the handle's node, unconverted; after `AssignValue(s)` on a non-root it is `s` |
| `BoostHelper.Json.Index` | json.hpp:95-100 | unchanged tree when the key exists; otherwise one empty child keyed `key` is appended at the end and nothing else changes; `Has(key)` holds afterwards; for a non-empty key the result is a non-root valid view of the first child with the key (the old subtree or the new empty one); for the empty key, the empty path, the result is a non-root valid view of this very node; every old position stays valid, and every position not on the way down to this node keeps its subtree |
| `BoostHelper.Json.AddValue` | json.hpp:105-110 | allowed on any node, the root included; appends one child `("", Leaf(value))`; the payload and old children are unchanged; every old position stays valid, and every position not above this node keeps its subtree |
| `BoostHelper.Json.AddNode` | json.hpp:115-118 | appends one child `("", t)`, where `t` is the other handle's subtree at call time; the old children are unchanged; another document is unchanged; old positions stay valid |
| `BoostHelper.Json.AssignValue` | json.hpp:84-90 | on a root, fails with `RootModification` and leaves the tree unchanged; otherwise succeeds, after which `Val()` is the string, the node's children are kept, and every position beside the node is unchanged |
| `BoostHelper.Json.AssignNode` | json.hpp:73-79 | on a root, fails with `RootModification` and leaves the tree unchanged; otherwise the node's subtree becomes a copy of the other handle's subtree at call time; the rest of the tree and any other document are unchanged |
| `BoostHelper.Json.Begin` | json.hpp:42-45 | a fresh iterator over this node's children at position 0 |
| `BoostHelper.Json.End` | json.hpp:50-53 | a fresh iterator over this node's children just past the last one |
| `BoostHelper.Json.Destroy` | json.hpp:149-153 | only a root frees the storage; a view's destruction changes nothing; the tree contents are not touched |
| `BoostHelper.Iterator.constructor` | json.hpp:31 | an iterator over the children of the node at a path, at a given position |
| `BoostHelper.Iterator.Deref` | json.hpp:33-36 | yields the current child's key, paired with a valid non-root view of exactly that child |
| `BoostHelper.Iterator.Equals` | json.hpp:28 | the inherited iterator comparison: compared with the end iterator of the same node, it holds exactly when every child has been passed, which is what ends the range-based for |
| `BoostHelper.Iterator.Next` | json.hpp:28 | the inherited increment moves to the next child and stays within range |
| `Usage.Entries` | json.hpp:27-53 | the range-based for from `begin()` to `end()` visits every child exactly once, in stored order; it pairs each key with a valid non-root view whose path is the child's index and whose subtree is that child |
| `Usage.AddMany` | json.hpp:105-110 | a run of `add(s)` calls on one handle leaves its node equal to `AddAll` of the old node, so by `AddAllInOrder` the strings sit behind the unchanged old children in call order; the whole document is the old one with only that subtree replaced |
| `Usage.NestedMutation` | json.hpp:84-100 | in `{"a":{"b":"1"}}`, `["a"]["b"].val()` is `"1"`; after assigning `"2"` to it the document is `{"a":{"b":"2"}}` |
| `Usage.RootAndAppend` | json.hpp:84-110 | starting from `{}`: the root assignment is refused; `has("a")` is false before `["a"]` and true after; a second `["a"]` reaches the same child and creates nothing new; `add("x")`, `add("y")`, `add("z")` give `{"a":["x","y","z"]}` |
| `Usage.EmptyKeyReachesRoot` | json.hpp:73-100 | on the array `["p"]`, assigning to the root is refused, but `root[""]` is a non-root view of the root itself: assigning `"x"` through it succeeds and the root's payload becomes `"x"`, and assigning another document through it replaces the whole tree |

## Left out

- Parsing and serialisation are not modelled: `read_json`, `write_json`, `to_string` and the string streams (json.hpp:61-62, json.hpp:139-144). The JSON grammar and the compact writer live inside Boost.PropertyTree, whose source is not part of this model. `Json.FromParsed` takes the parsed tree as input, so no `ParseError` path is modelled.
- Allocation and freeing with `new`/`delete` (json.hpp:60, json.hpp:152) are not modelled as heap operations. Ownership is the `isRoot` flag, and freeing clears `Document.live`. Every operation except destruction requires `Valid()`, which includes `live`; destruction has no precondition, since a view may be destroyed after its root. That precondition stands for the rule that a view must not outlive its root. Allocation failure is not modelled.
- BoostHelper.Json.Index: Boost's splitting of keys at `'.'` in `add_child` and `get_child` is not modelled (`find` takes keys literally), so `Index` requires a key without `'.'`. The empty key is modelled: `get_child("")` walks the empty path and returns the node itself, so `Index("")` returns a non-owning view onto the same node. When no child is keyed `""`, the model takes `add_child("", ...)` to append one child keyed `""`, as for any other key; the empty-path handling of Boost's `add_child` (including any assertion it makes) is not part of this model.
- `Find` stands for Boost's key lookup (`find`/`get_child`) as a first match in stored order. It does not model Boost's ordered key index, which agrees with stored order for children added only by appending.
- The Boost iterator base class (json.hpp:28-31) is modelled only as a position with an increment and an equality test. Iterating while the tree is changed is left out: `Iterator.Deref` requires that the position still exists.
- A view whose node has been replaced is not modelled beyond its precondition. After `AssignNode` on an ancestor, a view's path may no longer lead to a node, or may lead to a different one. In C++ the pointer would dangle. The model requires `Valid()` and does not say which node such a view sees.
- The implicitly generated copy constructor and copy of a handle are not modelled. In C++ it copies `is_root_`, so a copied root would free the storage a second time. The model has no copy operation, and only `FromParsed` makes a root.
- `operator=` returning `*this` for chaining is not modelled: the assignments return only their `Outcome`.
