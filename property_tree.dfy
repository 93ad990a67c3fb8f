/**
 * An abstract model of the ordered tree that stores a JSON document
 * (Boost.PropertyTree's `ptree` as the `json` wrapper uses it).
 *
 * A node carries a string payload and an ordered run of keyed children.
 * Keys may repeat, children keep insertion order, and a lookup by key
 * resolves to the first child with that key. A position in the tree is a
 * path: the sequence of child indices that leads to it from the root.
 */
module PropertyTree {

  datatype Node = Node(value: string, children: seq<(string, Node)>)

  /** A default-constructed tree: empty payload, no children. */
  const Empty: Node := Node("", [])

  /** A tree holding only a string payload. */
  function Leaf(s: string): (r: Node)
  {
    Node(s, [])
  }

  /**
   * The index of the first child keyed `key`, or `|cs|` (the "not found"
   * position) when there is none.
   */
  function Find(cs: seq<(string, Node)>, key: string): (r: nat)
    ensures r <= |cs|
    ensures r < |cs| ==> cs[r].0 == key
    ensures forall i :: 0 <= i < r ==> cs[i].0 != key
  {
    if cs == [] then 0
    else if cs[0].0 == key then 0
    else 1 + Find(cs[1..], key)
  }

  /** Appends one child at the end, after all existing children. */
  function PushBack(n: Node, key: string, sub: Node): (r: Node)
  {
    Node(n.value, n.children + [(key, sub)])
  }

  /** The tree after an indexed access: a missing key gets an empty child. */
  function Vivify(n: Node, key: string): (r: Node)
  {
    if Find(n.children, key) < |n.children| then n
    else PushBack(n, key, Empty)
  }

  /** `s` is `t` with possibly more children appended at the end. */
  predicate Extends(s: Node, t: Node)
  {
    s.value == t.value && t.children <= s.children
  }

  // ---------------------------------------------------------------------
  // Positions in a tree
  // ---------------------------------------------------------------------

  predicate ValidPath(n: Node, p: seq<nat>)
    decreases p
  {
    p == [] || (p[0] < |n.children| && ValidPath(n.children[p[0]].1, p[1..]))
  }

  /** The subtree at position `p`. */
  function At(n: Node, p: seq<nat>): (r: Node)
    requires ValidPath(n, p)
    decreases p
  {
    if p == [] then n else At(n.children[p[0]].1, p[1..])
  }

  /** The tree with the subtree at position `p` replaced by `s`. */
  function Replace(n: Node, p: seq<nat>, s: Node): (r: Node)
    requires ValidPath(n, p)
    decreases p
  {
    if p == [] then s
    else
      var c := n.children[p[0]];
      Node(n.value, n.children[p[0] := (c.0, Replace(c.1, p[1..], s))])
  }

  /** Walking `q` and then `t` is walking `q + t`. */
  lemma {:induction false} AtConcat(n: Node, q: seq<nat>, t: seq<nat>)
    requires ValidPath(n, q)
    ensures ValidPath(n, q + t) <==> ValidPath(At(n, q), t)
    ensures ValidPath(n, q + t) ==> At(n, q + t) == At(At(n, q), t)
    decreases q
  {
    if q != [] {
      assert (q + t)[0] == q[0] && (q + t)[1..] == q[1..] + t;
      AtConcat(n.children[q[0]].1, q[1..], t);
    } else {
      assert q + t == t;
    }
  }

  /**
   * On a position above the replaced one (or the replaced one itself) the
   * replacement is seen as the same replacement one level down.
   */
  lemma {:induction false} ReplacePrefix(n: Node, p: seq<nat>, q: seq<nat>, s: Node)
    requires ValidPath(n, p) && q <= p
    ensures ValidPath(Replace(n, p, s), q)
    ensures ValidPath(n, q) && ValidPath(At(n, q), p[|q|..])
    ensures At(Replace(n, p, s), q) == Replace(At(n, q), p[|q|..], s)
    decreases q
  {
    if q == [] {
      assert p[0..] == p;
    } else {
      assert q[0] == p[0] && q[1..] <= p[1..];
      assert p[|q|..] == p[1..][|q[1..]|..];
      ReplacePrefix(n.children[p[0]].1, p[1..], q[1..], s);
    }
  }

  /** After replacing the subtree at `p` by `s`, position `p` holds `s`. */
  lemma {:induction false} ReplaceAt(n: Node, p: seq<nat>, s: Node)
    requires ValidPath(n, p)
    ensures ValidPath(Replace(n, p, s), p) && At(Replace(n, p, s), p) == s
  {
    ReplacePrefix(n, p, p, s);
    assert p[|p|..] == [];
  }

  /** Writing back the subtree that is already there changes nothing. */
  lemma {:induction false} ReplaceSame(n: Node, p: seq<nat>)
    requires ValidPath(n, p)
    ensures Replace(n, p, At(n, p)) == n
    decreases p
  {
    if p != [] {
      var c := n.children[p[0]];
      ReplaceSame(c.1, p[1..]);
      assert n.children[p[0] := (c.0, c.1)] == n.children;
    }
  }

  /** A second replacement at the same position overrides the first. */
  lemma {:induction false} ReplaceTwice(n: Node, p: seq<nat>, s: Node, t: Node)
    requires ValidPath(n, p)
    ensures ValidPath(Replace(n, p, s), p)
    ensures Replace(Replace(n, p, s), p, t) == Replace(n, p, t)
    decreases p
  {
    ReplaceAt(n, p, s);
    if p != [] {
      var c := n.children[p[0]];
      ReplaceTwice(c.1, p[1..], s, t);
      assert Replace(n, p, s).children[p[0]] == (c.0, Replace(c.1, p[1..], s));
    }
  }

  /**
   * A replacement at `p` leaves every position beside it (neither above nor
   * below `p`) valid and holding the same subtree.
   */
  lemma {:induction false} ReplaceElsewhere(n: Node, p: seq<nat>, q: seq<nat>, s: Node)
    requires ValidPath(n, p) && ValidPath(n, q)
    requires !(q <= p) && !(p <= q)
    ensures ValidPath(Replace(n, p, s), q)
    ensures At(Replace(n, p, s), q) == At(n, q)
    decreases q
  {
    var r := Replace(n, p, s);
    if p[0] != q[0] {
      assert r.children[q[0]] == n.children[q[0]];
    } else {
      assert !(q[1..] <= p[1..]) && !(p[1..] <= q[1..]);
      ReplaceElsewhere(n.children[p[0]].1, p[1..], q[1..], s);
    }
  }

  /**
   * Growing the subtree at `p` by appended children keeps every position
   * valid, and every position not above `p` keeps its subtree.
   */
  lemma {:induction false} GrowKeepsPaths(n: Node, p: seq<nat>, s: Node, q: seq<nat>)
    requires ValidPath(n, p) && Extends(s, At(n, p)) && ValidPath(n, q)
    ensures ValidPath(Replace(n, p, s), q)
    ensures !(q <= p) ==> At(Replace(n, p, s), q) == At(n, q)
    decreases q
  {
    var r := Replace(n, p, s);
    if q == [] {
    } else if p == [] {
      assert r.children[q[0]] == n.children[q[0]];
    } else if p[0] != q[0] {
      assert r.children[q[0]] == n.children[q[0]];
    } else {
      assert (q[1..] <= p[1..]) == (q <= p);
      GrowKeepsPaths(n.children[p[0]].1, p[1..], s, q[1..]);
    }
  }

  // ---------------------------------------------------------------------
  // Lookup, auto-vivification and append
  // ---------------------------------------------------------------------

  /** Appending a child never moves the first match of a key already present. */
  lemma {:induction false} FindAppend(cs: seq<(string, Node)>, e: (string, Node), key: string)
    ensures Find(cs + [e], key) == if Find(cs, key) == |cs| && e.0 != key then |cs| + 1 else Find(cs, key)
    decreases |cs|
  {
    if cs != [] {
      assert (cs + [e])[0] == cs[0] && (cs + [e])[1..] == cs[1..] + [e];
      FindAppend(cs[1..], e, key);
    }
  }

  /**
   * Indexed access adds at most one child, at the end, keyed `key` and
   * empty, only when no child has that key; afterwards the key resolves to
   * the same index it resolved to before (the new child when it was missing).
   */
  lemma {:induction false} VivifyAppendsOnce(n: Node, key: string)
    ensures Extends(Vivify(n, key), n)
    ensures Find(n.children, key) < |n.children| ==> Vivify(n, key) == n
    ensures Find(n.children, key) == |n.children| ==>
              Vivify(n, key).children == n.children + [(key, Empty)]
    ensures Find(Vivify(n, key).children, key) == Find(n.children, key)
    ensures Find(n.children, key) < |Vivify(n, key).children|
  {
    FindAppend(n.children, (key, Empty), key);
  }

  /** Indexing twice with the same key gives the same tree as indexing once. */
  lemma {:induction false} VivifyIdempotent(n: Node, key: string)
    ensures Vivify(Vivify(n, key), key) == Vivify(n, key)
  {
    VivifyAppendsOnce(n, key);
  }

  /** The tree after appending one string element per entry of `ss`, in order. */
  function AddAll(n: Node, ss: seq<string>): (r: Node)
    decreases |ss|
  {
    if ss == [] then n else AddAll(PushBack(n, "", Leaf(ss[0])), ss[1..])
  }

  /** Successive string appends keep call order behind the old children. */
  lemma {:induction false} AddAllInOrder(n: Node, ss: seq<string>)
    ensures AddAll(n, ss).value == n.value
    ensures |AddAll(n, ss).children| == |n.children| + |ss|
    ensures n.children <= AddAll(n, ss).children
    ensures forall i :: 0 <= i < |ss| ==> AddAll(n, ss).children[|n.children| + i] == ("", Leaf(ss[i]))
    decreases |ss|
  {
    if ss != [] {
      var m := PushBack(n, "", Leaf(ss[0]));
      AddAllInOrder(m, ss[1..]);
      forall i | 0 <= i < |ss|
        ensures AddAll(n, ss).children[|n.children| + i] == ("", Leaf(ss[i]))
      {
        if i > 0 {
          assert AddAll(n, ss).children[|m.children| + (i - 1)] == ("", Leaf(ss[1..][i - 1]));
        } else {
          assert m.children <= AddAll(m, ss[1..]).children;
          assert m.children[|n.children|] == ("", Leaf(ss[0]));
        }
      }
    }
  }
}
