/**
 * The `boost_helper::json` handle: a reference onto one node of a mutable
 * ordered tree, plus a flag saying whether this handle owns the storage.
 *
 * The storage is a `Document`: one mutable tree and whether it is still
 * allocated. A handle is the document, the path from the document's root
 * to its node, and the root flag; the aliasing node pointer of the source
 * becomes "the node at `path` in `doc.root`", resolved afresh at each use.
 */
module BoostHelper {
  import opened PropertyTree

  datatype Error = RootModification

  datatype Outcome = Ok | Fail(error: Error)

  /** The tree storage that a root handle allocates and frees. */
  class Document {
    var root: Node
    var live: bool

    constructor (tree: Node)
      ensures root == tree && live
    {
      root := tree;
      live := true;
    }
  }

  class Json {
    const doc: Document
    const path: seq<nat>
    const isRoot: bool

    /**
     * The handle can be used: its storage has not been freed and its path
     * still leads to a node. Only the handle that owns the storage is a root,
     * and it points at the top of the tree.
     */
    predicate Valid()
      reads doc
    {
      doc.live && ValidPath(doc.root, path) && (isRoot ==> path == [])
    }

    /** The node this handle refers to. */
    function Target(): (r: Node)
      reads doc
      requires Valid()
    {
      At(doc.root, path)
    }

    /**
     * A document built from JSON text: the handle allocates fresh storage
     * holding the already-parsed tree and owns it.
     */
    constructor FromParsed(tree: Node)
      ensures Valid() && isRoot && path == []
      ensures fresh(doc) && doc.root == tree
      ensures Target() == tree
    {
      doc := new Document(tree);
      path := [];
      isRoot := true;
    }

    /** A non-owning view onto a node of existing storage. */
    constructor View(d: Document, p: seq<nat>)
      ensures doc == d && path == p && !isRoot
    {
      doc := d;
      path := p;
      isRoot := false;
    }

    /** Whether some child of this node has the key; only looks. */
    function Has(key: string): (r: bool)
      reads doc
      requires Valid()
      ensures r <==> exists i :: 0 <= i < |Target().children| && Target().children[i].0 == key
    {
      Find(Target().children, key) < |Target().children|
    }

    /**
     * The string payload stored at this node, as it is; a node created by
     * child access or holding children has the payload it was given.
     */
    function Val(): (r: string)
      reads doc
      requires Valid()
      ensures r == Target().value
    {
      Target().value
    }

    /**
     * Child access: when no child has the key, one empty child keyed `key`
     * is appended; the result views the first child with that key. The
     * empty key is the empty path, whose lookup is the node itself, so the
     * result is then a non-owning view onto this very node.
     */
    method Index(key: string) returns (child: Json)
      requires Valid() && '.' !in key
      modifies doc
      ensures Valid() && Has(key)
      ensures doc.root == Replace(old(doc.root), path, Vivify(old(Target()), key))
      ensures old(Has(key)) ==> doc.root == old(doc.root)
      ensures !old(Has(key)) ==>
                Target().value == old(Target()).value &&
                Target().children == old(Target()).children + [(key, Empty)]
      ensures child.doc == doc && !child.isRoot && child.Valid()
      ensures key == "" ==> child.path == path && child.Target() == Target()
      ensures key != "" ==> child.path == path + [Find(old(Target()).children, key)]
      ensures key != "" ==>
                child.Target() == if old(Has(key)) then old(Target()).children[Find(old(Target()).children, key)].1 else Empty
      ensures forall q :: ValidPath(old(doc.root), q) ==>
                ValidPath(doc.root, q) && (!(q <= path) ==> At(doc.root, q) == At(old(doc.root), q))
    {
      ghost var root0 := doc.root;
      var n := Target();
      VivifyAppendsOnce(n, key);
      if Find(n.children, key) == |n.children| {
        doc.root := Replace(doc.root, path, PushBack(n, key, Empty));
      } else {
        ReplaceSame(root0, path);
      }
      ReplaceAt(root0, path, Vivify(n, key));
      forall q | ValidPath(root0, q)
        ensures ValidPath(doc.root, q) && (!(q <= path) ==> At(doc.root, q) == At(root0, q))
      {
        GrowKeepsPaths(root0, path, Vivify(n, key), q);
      }
      if key == "" {
        child := new Json.View(doc, path);
      } else {
        var i := Find(Target().children, key);
        AtConcat(doc.root, path, [i]);
        child := new Json.View(doc, path + [i]);
      }
    }

    /** Appends a child keyed "" holding the string `value`. */
    method AddValue(value: string)
      requires Valid()
      modifies doc
      ensures Valid()
      ensures doc.root == Replace(old(doc.root), path, PushBack(old(Target()), "", Leaf(value)))
      ensures Target().value == old(Target()).value
      ensures Target().children == old(Target()).children + [("", Leaf(value))]
      ensures forall q :: ValidPath(old(doc.root), q) ==>
                ValidPath(doc.root, q) && (!(q <= path) ==> At(doc.root, q) == At(old(doc.root), q))
    {
      ghost var root0 := doc.root;
      var element := Leaf(value);
      var s := PushBack(Target(), "", element);
      doc.root := Replace(doc.root, path, s);
      ReplaceAt(root0, path, s);
      forall q | ValidPath(root0, q)
        ensures ValidPath(doc.root, q) && (!(q <= path) ==> At(doc.root, q) == At(root0, q))
      {
        GrowKeepsPaths(root0, path, s, q);
      }
    }

    /**
     * Appends a child keyed "" holding a copy of the subtree `other` views,
     * taken before the append (so `other` may be this node or an ancestor).
     */
    method AddNode(other: Json)
      requires Valid() && other.Valid()
      modifies doc
      ensures Valid()
      ensures doc.root == Replace(old(doc.root), path, PushBack(old(Target()), "", old(other.Target())))
      ensures Target().value == old(Target()).value
      ensures Target().children == old(Target()).children + [("", old(other.Target()))]
      ensures other.doc != doc ==> unchanged(other.doc)
      ensures forall q :: ValidPath(old(doc.root), q) ==>
                ValidPath(doc.root, q) && (!(q <= path) ==> At(doc.root, q) == At(old(doc.root), q))
    {
      ghost var root0 := doc.root;
      var s := PushBack(Target(), "", other.Target());
      doc.root := Replace(doc.root, path, s);
      ReplaceAt(root0, path, s);
      forall q | ValidPath(root0, q)
        ensures ValidPath(doc.root, q) && (!(q <= path) ==> At(doc.root, q) == At(root0, q))
      {
        GrowKeepsPaths(root0, path, s, q);
      }
    }

    /**
     * Sets this node's payload; its children stay. Refused on the root, which
     * then stays as it was.
     */
    method AssignValue(value: string) returns (r: Outcome)
      requires Valid()
      modifies doc
      ensures isRoot ==> r == Fail(RootModification) && doc.root == old(doc.root)
      ensures !isRoot ==> r == Ok && doc.root == Replace(old(doc.root), path, Node(value, old(Target()).children))
      ensures Valid()
      ensures !isRoot ==> Val() == value && Target().children == old(Target()).children
      ensures forall q :: ValidPath(old(doc.root), q) && !(q <= path) && !(path <= q) ==>
                ValidPath(doc.root, q) && At(doc.root, q) == At(old(doc.root), q)
    {
      if isRoot {
        return Fail(RootModification);
      }
      ghost var root0 := doc.root;
      var s := Node(value, Target().children);
      doc.root := Replace(doc.root, path, s);
      ReplaceAt(root0, path, s);
      forall q | ValidPath(root0, q) && !(q <= path) && !(path <= q)
        ensures ValidPath(doc.root, q) && At(doc.root, q) == At(root0, q)
      {
        ReplaceElsewhere(root0, path, q, s);
      }
      r := Ok;
    }

    /**
     * Replaces this node's whole subtree by a copy of the one `other` views
     * (possibly in another document). Refused on the root, which then stays
     * as it was.
     */
    method AssignNode(other: Json) returns (r: Outcome)
      requires Valid() && other.Valid()
      modifies doc
      ensures isRoot ==> r == Fail(RootModification) && doc.root == old(doc.root)
      ensures !isRoot ==> r == Ok && doc.root == Replace(old(doc.root), path, old(other.Target()))
      ensures Valid()
      ensures !isRoot ==> Target() == old(other.Target())
      ensures other.doc != doc ==> unchanged(other.doc)
      ensures forall q :: ValidPath(old(doc.root), q) && !(q <= path) && !(path <= q) ==>
                ValidPath(doc.root, q) && At(doc.root, q) == At(old(doc.root), q)
    {
      if isRoot {
        return Fail(RootModification);
      }
      ghost var root0 := doc.root;
      var s := other.Target();
      doc.root := Replace(doc.root, path, s);
      ReplaceAt(root0, path, s);
      forall q | ValidPath(root0, q) && !(q <= path) && !(path <= q)
        ensures ValidPath(doc.root, q) && At(doc.root, q) == At(root0, q)
      {
        ReplaceElsewhere(root0, path, q, s);
      }
      r := Ok;
    }

    /** An iterator at the first child of this node. */
    method Begin() returns (it: Iterator)
      requires Valid()
      ensures fresh(it)
      ensures it.doc == doc && it.parent == path && it.pos == 0 && it.Valid()
    {
      it := new Iterator(doc, path, 0);
    }

    /** An iterator just past the last child of this node. */
    method End() returns (it: Iterator)
      requires Valid()
      ensures fresh(it)
      ensures it.doc == doc && it.parent == path && it.pos == |Target().children| && it.Valid()
    {
      it := new Iterator(doc, path, |Target().children|);
    }

    /**
     * End of the handle's life: only the root frees the storage; the tree
     * itself is not touched.
     */
    method Destroy()
      modifies doc
      ensures doc.live == (old(doc.live) && !isRoot)
      ensures doc.root == old(doc.root)
    {
      if isRoot {
        doc.live := false;
      }
    }
  }

  /** A position among the children of the node at `parent`. */
  class Iterator {
    const doc: Document
    const parent: seq<nat>
    var pos: nat

    constructor (d: Document, p: seq<nat>, i: nat)
      ensures doc == d && parent == p && pos == i
    {
      doc := d;
      parent := p;
      pos := i;
    }

    predicate Valid()
      reads this, doc
    {
      doc.live && ValidPath(doc.root, parent) && pos <= |At(doc.root, parent).children|
    }

    /**
     * Two iterators over the same children at the same place. Compared with
     * the end iterator of the same node, it holds exactly when every child
     * has been passed.
     */
    predicate Equals(other: Iterator): (r: bool)
      reads this, other, doc
      ensures Valid() && doc == other.doc && parent == other.parent &&
              other.pos == |At(doc.root, parent).children| ==>
                (r <==> pos == |At(doc.root, parent).children|)
    {
      doc == other.doc && parent == other.parent && pos == other.pos
    }

    /** The key of the current child and a non-owning view onto it. */
    method Deref() returns (key: string, view: Json)
      requires Valid() && pos < |At(doc.root, parent).children|
      ensures key == At(doc.root, parent).children[pos].0
      ensures view.doc == doc && view.path == parent + [pos] && !view.isRoot
      ensures view.Valid() && view.Target() == At(doc.root, parent).children[pos].1
    {
      var c := At(doc.root, parent).children[pos];
      AtConcat(doc.root, parent, [pos]);
      key := c.0;
      view := new Json.View(doc, parent + [pos]);
    }

    /** Moves to the next child. */
    method Next()
      requires Valid() && pos < |At(doc.root, parent).children|
      modifies this
      ensures pos == old(pos) + 1 && Valid()
    {
      pos := pos + 1;
    }
  }
}
