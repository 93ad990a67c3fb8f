/**
 * Callers of the `json` handle: a range-based for over a node's children,
 * repeated appends, and a few usage scenarios, proved from the handle's
 * contracts alone.
 */
module Usage {
  import opened PropertyTree
  import opened BoostHelper

  /**
   * `for (auto entry : h)`: walks from `Begin()` to `End()` and collects the
   * dereferenced `(key, view)` pairs. Every child is visited once, in stored
   * order, and each view is a non-owning view onto that child.
   */
  method Entries(h: Json) returns (entries: seq<(string, Json)>)
    requires h.Valid()
    ensures |entries| == |h.Target().children|
    ensures forall i :: 0 <= i < |entries| ==>
              entries[i].0 == h.Target().children[i].0 &&
              entries[i].1.doc == h.doc && entries[i].1.path == h.path + [i] &&
              !entries[i].1.isRoot && entries[i].1.Valid() &&
              entries[i].1.Target() == h.Target().children[i].1
  {
    var it := h.Begin();
    var end := h.End();
    entries := [];
    while !it.Equals(end)
      invariant it.doc == h.doc && it.parent == h.path && it.Valid()
      invariant end.doc == h.doc && end.parent == h.path && end.pos == |h.Target().children|
      invariant |entries| == it.pos
      invariant forall i :: 0 <= i < |entries| ==>
                  entries[i].0 == h.Target().children[i].0 &&
                  entries[i].1.doc == h.doc && entries[i].1.path == h.path + [i] &&
                  !entries[i].1.isRoot && entries[i].1.Valid() &&
                  entries[i].1.Target() == h.Target().children[i].1
      decreases end.pos - it.pos
    {
      var key, view := it.Deref();
      entries := entries + [(key, view)];
      it.Next();
    }
  }

  /**
   * Successive `add(s)` calls append the strings behind the old children, in
   * call order; the rest of the document changes only by that subtree.
   */
  method AddMany(h: Json, ss: seq<string>)
    requires h.Valid()
    modifies h.doc
    ensures h.Valid() && h.Target() == AddAll(old(h.Target()), ss)
    ensures h.doc.root == Replace(old(h.doc.root), h.path, AddAll(old(h.Target()), ss))
  {
    ghost var r0 := h.doc.root;
    ghost var n0 := h.Target();
    ReplaceSame(r0, h.path);
    var i := 0;
    while i < |ss|
      invariant 0 <= i <= |ss|
      invariant h.Valid()
      invariant h.doc.root == Replace(r0, h.path, h.Target())
      invariant AddAll(h.Target(), ss[i..]) == AddAll(n0, ss)
    {
      assert ss[i..][1..] == ss[i + 1..];
      ghost var before := h.Target();
      h.AddValue(ss[i]);
      ReplaceTwice(r0, h.path, before, h.Target());
      i := i + 1;
    }
  }

  /**
   * Parse `{"a":{"b":"1"}}`, read `["a"]["b"]`, assign "2" to it: the
   * document becomes `{"a":{"b":"2"}}`.
   */
  method NestedMutation() returns (before: string, after: Node)
    ensures before == "1"
    ensures after == Node("", [("a", Node("", [("b", Leaf("2"))]))])
  {
    var root := new Json.FromParsed(Node("", [("a", Node("", [("b", Leaf("1"))]))]));
    var a := root.Index("a");
    var b := a.Index("b");
    before := b.Val();
    assert a.path == [0] && b.path == [0, 0] && b.Target().children == [];
    var r := b.AssignValue("2");
    assert b.Target() == Leaf("2");
    assert [0, 0][1..] == [0] && [0][1..] == [];
    assert Replace(Node("", [("b", Leaf("1"))]), [0], Leaf("2")) == Node("", [("b", Leaf("2"))]);
    assert root.doc.root == Replace(Node("", [("a", Node("", [("b", Leaf("1"))]))]), [0, 0], Leaf("2"));
    after := root.Target();
  }

  /**
   * `root[""]` on the array `["p"]`: the empty key walks the empty path, so
   * the result is a non-owning view onto the root node itself, and both
   * assignments through it succeed where the same assignments on the root
   * are refused: the string one sets the root's payload, the node one
   * replaces the whole document.
   */
  method EmptyKeyReachesRoot() returns (direct: Outcome, viaView: Outcome, payload: string, replaced: Node)
    ensures direct == Fail(RootModification) && viaView == Ok
    ensures payload == "x"
    ensures replaced == Leaf("q")
  {
    var root := new Json.FromParsed(Node("", [("", Leaf("p"))]));
    direct := root.AssignValue("x");
    var view := root.Index("");
    viaView := view.AssignValue("x");
    payload := root.Val();
    var other := new Json.FromParsed(Leaf("q"));
    var r := view.AssignNode(other);
    replaced := root.Target();
  }

  /**
   * From an empty object: assigning to the root is refused and changes
   * nothing; `has("a")` is false until `["a"]` creates the child; indexing
   * "a" twice creates one child; appending "x", "y", "z" keeps call order.
   */
  method RootAndAppend() returns (refused: Outcome, hadBefore: bool, hasAfter: bool, after: Node)
    ensures refused == Fail(RootModification)
    ensures !hadBefore && hasAfter
    ensures after == Node("", [("a", Node("", [("", Leaf("x")), ("", Leaf("y")), ("", Leaf("z"))]))])
  {
    var root := new Json.FromParsed(Empty);
    refused := root.AssignValue("x");
    hadBefore := root.Has("a");
    assert root.Target() == Empty;
    var a1 := root.Index("a");
    hasAfter := root.Has("a");
    var a2 := root.Index("a");
    assert a1.path == a2.path == [0];
    assert root.doc.root == Node("", [("a", Empty)]);
    assert [0][1..] == [];
    a2.AddValue("x");
    assert a2.doc == root.doc;
    assert a2.Target() == Node("", [("", Leaf("x"))]);
    assert root.doc.root == Replace(Node("", [("a", Empty)]), [0], Node("", [("", Leaf("x"))]));
    assert root.doc.root == Node("", [("a", Node("", [("", Leaf("x"))]))]);
    a2.AddValue("y");
    assert a2.Target() == Node("", [("", Leaf("x")), ("", Leaf("y"))]);
    assert root.doc.root == Node("", [("a", Node("", [("", Leaf("x")), ("", Leaf("y"))]))]);
    a2.AddValue("z");
    assert a2.Target() == Node("", [("", Leaf("x")), ("", Leaf("y")), ("", Leaf("z"))]);
    after := root.Target();
  }
}
