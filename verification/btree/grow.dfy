/**
 * Adding a key to a leaf, on the abstract tree: the key joins the leaf's key list at
 * its slot and the key set of every node on the path from the root down to the leaf.
 * This is the abstract effect of the key placement in `insertInto` of BTree/Tema.cpp.
 */
module BTreeGrow {
  import opened BTreeNodes
  import opened BTreeShape

  /** `s` with `v` placed at slot `i`. */
  function Spliced(s: seq<int>, i: int, v: int): (r: seq<int>)
    requires 0 <= i <= |s|
    ensures |r| == |s| + 1 && r[i] == v && r[..i] == s[..i] && r[i + 1..] == s[i..]
  {
    s[..i] + [v] + s[i..]
  }

  /** A key placed between its neighbours keeps a sorted list sorted. */
  lemma SplicedSorted(s: seq<int>, i: int, v: int)
    requires Sorted(s) && 0 <= i <= |s|
    requires forall j :: 0 <= j < i ==> s[j] < v
    requires i < |s| ==> v < s[i]
    ensures Sorted(Spliced(s, i, v))
    ensures forall y :: y in Spliced(s, i, v) <==> y in s || y == v
  {
    var r := Spliced(s, i, v);
    forall a, b | 0 <= a < b < |r|
      ensures r[a] < r[b]
    {
      if b < i {
        assert r[a] == s[a] && r[b] == s[b];
      } else if b == i {
        assert r[a] == s[a];
      } else if a < i {
        assert r[a] == s[a] && r[b] == s[b - 1];
      } else if a == i {
        assert r[b] == s[b - 1];
      } else {
        assert r[a] == s[a - 1] && r[b] == s[b - 1];
      }
    }
    assert s == s[..i] + s[i..];
  }

  /** `c` is on the path from the root down to leaf `x`: it is `x`, or its subtree holds the first key of `x`. */
  ghost predicate OnPath(t: Tree, x: Node, c: Node)
    requires x in t && c in t
  {
    c == x || (|t[x].vals| > 0 && t[x].vals[0] in t[c].keys)
  }

  /** The abstract tree after `v` is placed at slot `i` of leaf `x`. */
  ghost function Grow(t: Tree, x: Node, i: int, v: int): Tree
    requires x in t && 0 <= i <= |t[x].vals|
  {
    map c | c in t ::
      if c == x then t[x].(vals := Spliced(t[x].vals, i, v), keys := t[x].keys + {v})
      else if OnPath(t, x, c) then t[c].(keys := t[c].keys + {v})
      else t[c]
  }

  /**
   * The conditions under which `v` may join leaf `x` at slot `i`: `v` is new, falls
   * in the gap of `x` and between the keys around slot `i`, and `x` has room.
   */
  ghost predicate Growable(t: Tree, root: Node, order: int, x: Node, i: int, v: int)
  {
    Shape(t, root, order) && x in t && t[x].height == 0 &&
    |t[x].vals| < order && (x == root || |t[x].vals| > 0) &&
    v !in t[root].keys && InGap(t[root].keys, t[x].vals, v) &&
    0 <= i <= |t[x].vals| &&
    (forall j :: 0 <= j < i ==> t[x].vals[j] < v) &&
    (i < |t[x].vals| ==> v < t[x].vals[i])
  }

  /** A child on the path to `x` is a slot of its parent that `v` also falls in. */
  lemma PathSlot(t: Tree, root: Node, order: int, x: Node, i: int, v: int, c: Node, j: int)
    requires Growable(t, root, order, x, i, v)
    requires c in t && t[c].height > 0 && 0 <= j < |t[c].kids| && t[c].kids[j] in t
    requires OnPath(t, x, t[c].kids[j])
    ensures InSlot(t[c].vals, j, v)
  {
    var k := t[c].kids[j];
    assert Core(t, c, order) && ChildOK(t, c, j);
    if k == x {
      assert Up(t, x);
      assert x != root;
    }
    var w := t[x].vals[0];
    assert Core(t, x, order);
    assert w in t[x].keys;
    assert w in t[k].keys;
    assert InSlot(t[c].vals, j, w);
    ValsInKeys(t, c, order);
    InRoot(t, root, order, c);
    if 0 < j {
      var s := t[c].vals[j - 1];
      assert s !in t[x].vals by {
        if s in t[x].vals {
          ValsAbove(t, root, order, c, x, s);
          assert false;
        }
      }
      assert s < v;
    }
    if j < |t[c].vals| {
      var s := t[c].vals[j];
      assert s !in t[x].vals by {
        if s in t[x].vals {
          ValsAbove(t, root, order, c, x, s);
          assert false;
        }
      }
      assert v < s;
    }
  }

  /** A node on the path other than `x` itself is internal. */
  lemma PathInternal(t: Tree, root: Node, order: int, x: Node, i: int, v: int, c: Node)
    requires Growable(t, root, order, x, i, v) && c in t && c != x && OnPath(t, x, c)
    ensures t[c].height > 0
  {
    var w := t[x].vals[0];
    assert Core(t, x, order);
    assert w in t[x].keys;
    if t[c].height == 0 {
      KeyUnique(t, root, order, c, x, w);
      assert false;
    }
  }

  lemma GrowLocal(t: Tree, root: Node, order: int, x: Node, i: int, v: int, c: Node)
    requires Growable(t, root, order, x, i, v) && c in t
    ensures c in Grow(t, x, i, v) && Local(Grow(t, x, i, v)[c], order)
  {
    var t' := Grow(t, x, i, v);
    assert Core(t, c, order);
    if c == x {
      SplicedSorted(t[x].vals, i, v);
      assert t'[x].keys == set y | y in t'[x].vals;
    } else if OnPath(t, x, c) {
      PathInternal(t, root, order, x, i, v, c);
    }
  }

  lemma GrowDown(t: Tree, root: Node, order: int, x: Node, i: int, v: int, c: Node)
    requires Growable(t, root, order, x, i, v) && c in t
    ensures c in Grow(t, x, i, v) && Down(Grow(t, x, i, v), c)
  {
    var t' := Grow(t, x, i, v);
    assert Core(t, c, order);
    if t[c].height == 0 {
      return;
    }
    assert c != x;
    assert t'[c].vals == t[c].vals && t'[c].kids == t[c].kids;
    forall j | 0 <= j < |t'[c].kids|
      ensures ChildOK(t', c, j)
    {
      assert ChildOK(t, c, j);
      var k := t[c].kids[j];
      if OnPath(t, x, k) {
        PathSlot(t, root, order, x, i, v, c, j);
      }
    }
    GrowUnion(t, root, order, x, i, v, c);
  }

  lemma GrowUnion(t: Tree, root: Node, order: int, x: Node, i: int, v: int, c: Node)
    requires Growable(t, root, order, x, i, v) && c in t && t[c].height > 0
    ensures c in Grow(t, x, i, v) && KeysUnion(Grow(t, x, i, v), c)
  {
    var t' := Grow(t, x, i, v);
    assert Core(t, c, order);
    InRoot(t, root, order, c);
    assert v !in t[c].keys;
    if OnPath(t, x, c) {
      var w := t[x].vals[0];
      assert Core(t, x, order);
      assert w in t[x].keys;
      assert w !in t[c].vals by {
        if w in t[c].vals {
          ValsAbove(t, root, order, c, x, w);
          assert false;
        }
      }
      var j :| 0 <= j < |t[c].kids| && w in KeysOf(t, t[c].kids[j]);
      ChildFacts(t, root, order, c, j);
      assert v in KeysOf(t', t'[c].kids[j]);
      forall y
        ensures y in t'[c].keys <==>
          (y in t'[c].vals || exists k :: 0 <= k < |t'[c].kids| && y in KeysOf(t', t'[c].kids[k]))
      {
        if y != v {
          assert forall k :: 0 <= k < |t[c].kids| ==>
            (y in KeysOf(t', t[c].kids[k]) <==> y in KeysOf(t, t[c].kids[k]));
        }
      }
    } else {
      assert Core(t, x, order);
      forall j | 0 <= j < |t[c].kids|
        ensures KeysOf(t', t[c].kids[j]) == KeysOf(t, t[c].kids[j])
      {
        ChildFacts(t, root, order, c, j);
        assert t[t[c].kids[j]].parent == c;
      }
    }
  }

  lemma GrowCore(t: Tree, root: Node, order: int, x: Node, i: int, v: int, c: Node)
    requires Growable(t, root, order, x, i, v) && c in t
    ensures c in Grow(t, x, i, v) && Core(Grow(t, x, i, v), c, order)
  {
    GrowLocal(t, root, order, x, i, v, c);
    GrowDown(t, root, order, x, i, v, c);
    assert Core(t, c, order) && Up(t, c);
  }

  /**
   * Placing a new key `v` at its slot of a leaf with room keeps the shape invariant,
   * and the tree's key set gains exactly `v`.
   */
  lemma GrowShape(t: Tree, root: Node, order: int, x: Node, i: int, v: int)
    requires Growable(t, root, order, x, i, v)
    ensures Shape(Grow(t, x, i, v), root, order)
    ensures Grow(t, x, i, v)[root].keys == t[root].keys + {v}
  {
    var t' := Grow(t, x, i, v);
    assert t'.Keys == t.Keys;
    forall n | n in t'
      ensures t'[n].parent == t[n].parent && t'[n].height == t[n].height && t'[n].index == t[n].index
    {
    }
    forall c | c in t'
      ensures Core(t', c, order)
    {
      GrowCore(t, root, order, x, i, v, c);
    }
    if x != root {
      assert Core(t, x, order);
      InRoot(t, root, order, x);
      assert t[x].vals[0] in t[x].keys;
    }
  }

  /** Growing changes the key list of `x` and key sets only: links and heights stay. */
  lemma GrowFacts(t: Tree, x: Node, i: int, v: int)
    requires x in t && 0 <= i <= |t[x].vals|
    ensures Grow(t, x, i, v).Keys == t.Keys
    ensures forall n :: n in t ==>
      Grow(t, x, i, v)[n].parent == t[n].parent && Grow(t, x, i, v)[n].index == t[n].index &&
      Grow(t, x, i, v)[n].kids == t[n].kids && Grow(t, x, i, v)[n].height == t[n].height
    ensures forall n :: n in t && n != x ==> Grow(t, x, i, v)[n].vals == t[n].vals
    ensures Grow(t, x, i, v)[x].vals == Spliced(t[x].vals, i, v)
  {
  }

  /** The grown tree, described by what it keeps and what it changes. */
  lemma Grown(t: Tree, root: Node, order: int, x: Node, i: int, v: int) returns (t2: Tree)
    requires Growable(t, root, order, x, i, v)

    ensures Shape(t2, root, order) && t2[root].keys == t[root].keys + {v} && t2.Keys == t.Keys
    ensures forall n :: n in t ==>
      t2[n].parent == t[n].parent && t2[n].index == t[n].index &&
      t2[n].kids == t[n].kids && t2[n].height == t[n].height
    ensures forall n :: n in t && n != x ==> t2[n].vals == t[n].vals
    ensures t2[x].vals == Spliced(t[x].vals, i, v)
  {
    t2 := Grow(t, x, i, v);
    GrowShape(t, root, order, x, i, v);
    GrowFacts(t, x, i, v);
  }
}
