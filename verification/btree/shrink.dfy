/**
 * Taking a key out of the tree, on the abstract tree: `Shrink` removes a key from a leaf
 * and from the key set of every node above it (the key shift of `removeFrom` in
 * BTree/Tema.cpp), and `Replace` puts another key in place of a key of any node (the
 * swap of `removeFrom` with the predecessor, once that has left its leaf).
 */
module BTreeShrink {
  import opened BTreeNodes
  import opened BTreeShape

  /** `s` without its element at slot `i`. */
  function Cut(s: seq<int>, i: int): (r: seq<int>)
    requires 0 <= i < |s|
    ensures |r| == |s| - 1 && r[..i] == s[..i] && r[i..] == s[i + 1..]
  {
    s[..i] + s[i + 1..]
  }

  /** Cutting an element out of a sorted list keeps it sorted and loses exactly that element. */
  lemma CutSorted(s: seq<int>, i: int)
    requires Sorted(s) && 0 <= i < |s|
    ensures Sorted(Cut(s, i))
    ensures forall y :: y in Cut(s, i) <==> y in s && y != s[i]
  {
    var r := Cut(s, i);
    forall a, b | 0 <= a < b < |r|
      ensures r[a] < r[b]
    {
      if b < i {
        assert r[a] == s[a] && r[b] == s[b];
      } else if a < i {
        assert r[a] == s[a] && r[b] == s[b + 1];
      } else {
        assert r[a] == s[a + 1] && r[b] == s[b + 1];
      }
    }
    forall y
      ensures y in r <==> y in s && y != s[i]
    {
      if y in r {
        var k :| 0 <= k < |r| && r[k] == y;
        if k < i {
          assert r[k] == s[k];
        } else {
          assert r[k] == s[k + 1];
        }
      }
      if y in s && y != s[i] {
        var k :| 0 <= k < |s| && s[k] == y;
        if k < i {
          assert r[k] == s[k];
        } else {
          assert r[k - 1] == s[k];
        }
      }
    }
  }

  /** The abstract tree after the key at slot `i` of leaf `x` is taken out. */
  ghost function Shrink(t: Tree, x: Node, i: int): Tree
    requires x in t && 0 <= i < |t[x].vals|
  {
    var v := t[x].vals[i];
    map c | c in t ::
      if c == x then t[x].(vals := Cut(t[x].vals, i), keys := t[x].keys - {v})
      else if v in t[c].keys then t[c].(keys := t[c].keys - {v})
      else t[c]
  }

  ghost predicate Shrinkable(t: Tree, root: Node, order: int, x: Node, i: int)
  {
    Shape(t, root, order) && x in t && t[x].height == 0 && 0 <= i < |t[x].vals|
  }

  /** A node other than the leaf whose subtree holds the leaf's key is internal and does not list that key. */
  lemma AboveLeaf(t: Tree, root: Node, order: int, x: Node, i: int, c: Node)
    requires Shrinkable(t, root, order, x, i) && c in t && c != x && t[x].vals[i] in t[c].keys
    ensures t[c].height > 0 && t[x].vals[i] !in t[c].vals
  {
    var v := t[x].vals[i];
    assert Core(t, x, order);
    assert v in t[x].keys;
    if t[c].height == 0 {
      KeyUnique(t, root, order, c, x, v);
    }
    if v in t[c].vals {
      ValsAbove(t, root, order, c, x, v);
    }
  }

  lemma ShrinkLocal(t: Tree, root: Node, order: int, x: Node, i: int, c: Node)
    requires Shrinkable(t, root, order, x, i) && c in t
    ensures c in Shrink(t, x, i) && Local(Shrink(t, x, i)[c], order)
  {
    var t2 := Shrink(t, x, i);
    var v := t[x].vals[i];
    assert Core(t, c, order);
    if c == x {
      CutSorted(t[x].vals, i);
      assert t2[x].keys == set y | y in t2[x].vals;
    } else if v in t[c].keys {
      AboveLeaf(t, root, order, x, i, c);
    }
  }

  lemma ShrinkDown(t: Tree, root: Node, order: int, x: Node, i: int, c: Node)
    requires Shrinkable(t, root, order, x, i) && c in t && t[c].height > 0
    ensures c in Shrink(t, x, i) && Down(Shrink(t, x, i), c)
  {
    var t2 := Shrink(t, x, i);
    var v := t[x].vals[i];
    assert Core(t, c, order);
    assert c != x;
    forall j | 0 <= j < |t[c].kids|
      ensures ChildOK(t2, c, j) && KeysOf(t2, t[c].kids[j]) == KeysOf(t, t[c].kids[j]) - {v}
    {
      assert ChildOK(t, c, j);
    }
    if v in t[c].keys {
      AboveLeaf(t, root, order, x, i, c);
    }
  }

  lemma ShrinkCore(t: Tree, root: Node, order: int, x: Node, i: int, c: Node)
    requires Shrinkable(t, root, order, x, i) && c in t
    ensures c in Shrink(t, x, i) && Core(Shrink(t, x, i), c, order)
  {
    assert Core(t, c, order) && Up(t, c);
    ShrinkLocal(t, root, order, x, i, c);
    if t[c].height > 0 {
      ShrinkDown(t, root, order, x, i, c);
    }
  }

  /** Taking a key out of a leaf keeps the shape invariant, and the tree loses exactly that key. */
  lemma ShrinkShape(t: Tree, root: Node, order: int, x: Node, i: int)
    requires Shrinkable(t, root, order, x, i)
    ensures Shape(Shrink(t, x, i), root, order)
    ensures Shrink(t, x, i)[root].keys == t[root].keys - {t[x].vals[i]}
  {
    var t2 := Shrink(t, x, i);
    forall c | c in t2
      ensures Core(t2, c, order)
    {
      ShrinkCore(t, root, order, x, i, c);
    }
    assert Core(t, x, order);
    InRoot(t, root, order, x);
    assert t[x].vals[i] in t[x].keys;
  }

  /** The shrunk tree, described by what it keeps and what it changes. */
  lemma Shrunk(t: Tree, root: Node, order: int, x: Node, i: int) returns (t2: Tree)
    requires Shrinkable(t, root, order, x, i)
    ensures Shape(t2, root, order) && t2[root].keys == t[root].keys - {t[x].vals[i]} && t2.Keys == t.Keys
    ensures forall n :: n in t ==>
      t2[n].parent == t[n].parent && t2[n].index == t[n].index &&
      t2[n].kids == t[n].kids && t2[n].height == t[n].height
    ensures forall n :: n in t && n != x ==> t2[n].vals == t[n].vals
    ensures t2[x].vals == Cut(t[x].vals, i)
  {
    t2 := Shrink(t, x, i);
    ShrinkShape(t, root, order, x, i);
  }

  /** The abstract tree after the key at slot `i` of `x` gives way to `w`. */
  ghost function Replace(t: Tree, x: Node, i: int, w: int): Tree
    requires x in t && 0 <= i < |t[x].vals|
  {
    var v := t[x].vals[i];
    map c | c in t ::
      if c == x then t[x].(vals := t[x].vals[i := w], keys := t[x].keys - {v} + {w})
      else if v in t[c].keys then t[c].(keys := t[c].keys - {v} + {w})
      else t[c]
  }

  /**
   * `w` may take the place of the key at slot `i` of `x`: it is not a key of the tree,
   * it is below that key, and every key of the tree below that key is below `w` too.
   */
  ghost predicate Replaceable(t: Tree, root: Node, order: int, x: Node, i: int, w: int)
  {
    Shape(t, root, order) && x in t && 0 <= i < |t[x].vals| &&
    w !in t[root].keys && w < t[x].vals[i] &&
    forall y :: y in t[root].keys && y < t[x].vals[i] ==> y < w
  }

  /** `w` falls in every slot that the replaced key falls in. */
  lemma ReplaceSlot(t: Tree, root: Node, order: int, x: Node, i: int, w: int, vals: seq<int>, j: int)
    requires Replaceable(t, root, order, x, i, w)
    requires InSlot(vals, j, t[x].vals[i]) && forall k :: 0 <= k < |vals| ==> vals[k] in t[root].keys
    ensures InSlot(vals, j, w)
  {
  }

  /** The node whose key is replaced, and the nodes above it, are the nodes whose subtree holds that key. */
  lemma ReplacePath(t: Tree, root: Node, order: int, x: Node, i: int, w: int, c: Node)
    requires Replaceable(t, root, order, x, i, w) && c in t && c != x && t[x].vals[i] in t[c].keys
    ensures t[x].height < t[c].height && t[x].vals[i] !in t[c].vals && w !in t[c].vals
  {
    var v := t[x].vals[i];
    assert Core(t, x, order);
    ValsInKeys(t, x, order);
    InRoot(t, root, order, c);
    ValsInKeys(t, c, order);
    ValsAbove(t, root, order, x, c, v);
    if t[c].height == t[x].height {
      KeyUnique(t, root, order, c, x, v);
    }
    if v in t[c].vals {
      ValsAbove(t, root, order, c, x, v);
    }
  }

  /** The replaced key list stays sorted. */
  lemma ReplaceSorted(t: Tree, root: Node, order: int, x: Node, i: int, w: int)
    requires Replaceable(t, root, order, x, i, w)
    ensures Sorted(t[x].vals[i := w])
  {
    var s := t[x].vals;
    var v := s[i];
    assert Core(t, x, order);
    ValsInKeys(t, x, order);
    InRoot(t, root, order, x);
    var r := s[i := w];
    forall a, b | 0 <= a < b < |r|
      ensures r[a] < r[b]
    {
      if a == i {
        assert v < s[b];
      } else if b == i {
        assert s[a] < v && s[a] in t[root].keys;
      }
    }
  }

  /** In a sorted list, the key at slot `i` occurs nowhere else, so replacing it trades it for `w`. */
  lemma UpdateMembers(s: seq<int>, i: int, w: int)
    requires Sorted(s) && 0 <= i < |s|
    ensures forall y :: y in s[i := w] <==> (y in s && y != s[i]) || y == w
  {
    var r := s[i := w];
    forall y
      ensures y in r <==> (y in s && y != s[i]) || y == w
    {
      if y in s && y != s[i] {
        var k :| 0 <= k < |s| && s[k] == y;
        assert r[k] == y;
      }
      if y == w {
        assert r[i] == w;
      }
      if y in r && y != w {
        var k :| 0 <= k < |r| && r[k] == y;
        assert s[k] == y && k != i;
        if k < i {
          assert s[k] < s[i];
        } else {
          assert s[i] < s[k];
        }
      }
    }
  }

  lemma ReplaceLocal(t: Tree, root: Node, order: int, x: Node, i: int, w: int, c: Node)
    requires Replaceable(t, root, order, x, i, w) && c in t
    ensures c in Replace(t, x, i, w) && Local(Replace(t, x, i, w)[c], order)
  {
    var t2 := Replace(t, x, i, w);
    var v := t[x].vals[i];
    assert Core(t, c, order);
    if c == x {
      ReplaceSorted(t, root, order, x, i, w);
      if t[x].height == 0 {
        UpdateMembers(t[x].vals, i, w);
        assert t2[x].keys == set y | y in t2[x].vals;
      }
    } else if v in t[c].keys {
      ReplacePath(t, root, order, x, i, w, c);
    }
  }

  /** A child of a node of the replaced tree holds the key that is replaced, or is untouched. */
  lemma ReplaceChild(t: Tree, root: Node, order: int, x: Node, i: int, w: int, c: Node, j: int)
    requires Replaceable(t, root, order, x, i, w) && c in t && t[c].height > 0 && 0 <= j < |t[c].kids|
    ensures ChildOK(Replace(t, x, i, w), c, j)
    ensures var k := t[c].kids[j];
      KeysOf(Replace(t, x, i, w), k) ==
        if t[x].vals[i] in KeysOf(t, k) then KeysOf(t, k) - {t[x].vals[i]} + {w} else KeysOf(t, k)
  {
    var t2 := Replace(t, x, i, w);
    var v := t[x].vals[i];
    assert Core(t, c, order) && ChildOK(t, c, j);
    var k := t[c].kids[j];
    assert Core(t, x, order);
    ValsInKeys(t, x, order);
    InRoot(t, root, order, k);
    InRoot(t, root, order, c);
    ValsInKeys(t, c, order);
    assert t2[c].kids == t[c].kids;
    if v in t[k].keys {
      assert c != x by {
        if c == x {
          ChildSlots(t, x, order, j, v);
        }
      }
      assert t2[c].vals == t[c].vals;
      assert t2[k].keys == t[k].keys - {v} + {w};
      ReplaceSlot(t, root, order, x, i, w, t[c].vals, j);
    } else {
      assert k != x;
      assert t2[k] == t[k];
      if c == x {
        forall y | y in t[k].keys
          ensures InSlot(t[x].vals[i := w], j, y)
        {
          assert InSlot(t[x].vals, j, y);
          assert y != v;
        }
      } else {
        assert t2[c].vals == t[c].vals;
      }
    }
  }

  lemma ReplaceDown(t: Tree, root: Node, order: int, x: Node, i: int, w: int, c: Node)
    requires Replaceable(t, root, order, x, i, w) && c in t && t[c].height > 0
    ensures c in Replace(t, x, i, w) && Down(Replace(t, x, i, w), c)
  {
    var t2 := Replace(t, x, i, w);
    var v := t[x].vals[i];
    assert Core(t, c, order);
    forall j | 0 <= j < |t[c].kids|
      ensures ChildOK(t2, c, j)
      ensures KeysOf(t2, t[c].kids[j]) ==
        if v in KeysOf(t, t[c].kids[j]) then KeysOf(t, t[c].kids[j]) - {v} + {w} else KeysOf(t, t[c].kids[j])
    {
      ReplaceChild(t, root, order, x, i, w, c, j);
    }
    InRoot(t, root, order, c);
    assert w !in t[c].keys;
    if c != x && v in t[c].keys {
      ReplacePath(t, root, order, x, i, w, c);
    }
    if c == x {
      assert Core(t, x, order);
      ValsInKeys(t, x, order);
      forall j | 0 <= j < |t[c].kids|
        ensures v !in KeysOf(t, t[c].kids[j])
      {
        if v in KeysOf(t, t[c].kids[j]) {
          ChildSlots(t, x, order, j, v);
        }
      }
      ReplaceXUnion(t, root, order, x, i, w);
    }
  }

  /** The key set of `x` itself trades the replaced key for `w`, in its list and nowhere below. */
  lemma ReplaceXUnion(t: Tree, root: Node, order: int, x: Node, i: int, w: int)
    requires Replaceable(t, root, order, x, i, w) && t[x].height > 0
    requires forall j :: 0 <= j < |t[x].kids| ==>
      KeysOf(Replace(t, x, i, w), t[x].kids[j]) == KeysOf(t, t[x].kids[j])
    ensures KeysUnion(Replace(t, x, i, w), x)
  {
    var t2 := Replace(t, x, i, w);
    var s := t[x].vals;
    var v := s[i];
    assert Core(t, x, order) && KeysUnion(t, x);
    assert t2[x].kids == t[x].kids;
    forall y
      ensures y in t2[x].keys <==>
        (y in t2[x].vals || exists j :: 0 <= j < |t2[x].kids| && y in KeysOf(t2, t2[x].kids[j]))
    {
      UpdateMembers(s, i, w);
      if y == v {
        forall j | 0 <= j < |t[x].kids|
          ensures v !in KeysOf(t, t[x].kids[j])
        {
          ValsInKeys(t, x, order);
          if v in KeysOf(t, t[x].kids[j]) {
            ChildSlots(t, x, order, j, v);
          }
        }
        assert Sorted(s);
      }
    }
  }

  lemma ReplaceCore(t: Tree, root: Node, order: int, x: Node, i: int, w: int, c: Node)
    requires Replaceable(t, root, order, x, i, w) && c in t
    ensures c in Replace(t, x, i, w) && Core(Replace(t, x, i, w), c, order)
  {
    assert Core(t, c, order) && Up(t, c);
    ReplaceLocal(t, root, order, x, i, w, c);
    if t[c].height > 0 {
      ReplaceDown(t, root, order, x, i, w, c);
    }
  }

  /**
   * Putting `w` in place of a key keeps the shape invariant when `w` is new and
   * no key of the tree lies between the two; the tree's key set trades the key for `w`.
   */
  lemma ReplaceShape(t: Tree, root: Node, order: int, x: Node, i: int, w: int)
    requires Replaceable(t, root, order, x, i, w)
    ensures Shape(Replace(t, x, i, w), root, order)
    ensures Replace(t, x, i, w)[root].keys == t[root].keys - {t[x].vals[i]} + {w}
  {
    var t2 := Replace(t, x, i, w);
    forall c | c in t2
      ensures Core(t2, c, order)
    {
      ReplaceCore(t, root, order, x, i, w, c);
    }
    assert Core(t, x, order);
    ValsInKeys(t, x, order);
    InRoot(t, root, order, x);
  }

  /** The tree after the replacement, described by what it keeps and what it changes. */
  lemma Replaced(t: Tree, root: Node, order: int, x: Node, i: int, w: int) returns (t2: Tree)
    requires Replaceable(t, root, order, x, i, w)
    ensures Shape(t2, root, order) && t2[root].keys == t[root].keys - {t[x].vals[i]} + {w} && t2.Keys == t.Keys
    ensures forall n :: n in t ==>
      t2[n].parent == t[n].parent && t2[n].index == t[n].index &&
      t2[n].kids == t[n].kids && t2[n].height == t[n].height
    ensures forall n :: n in t && n != x ==> t2[n].vals == t[n].vals
    ensures t2[x].vals == t[x].vals[i := w]
  {
    t2 := Replace(t, x, i, w);
    ReplaceShape(t, root, order, x, i, w);
  }

  /**
   * The swap of `removeFrom`: the key `v` at slot `i` of the internal node `x` gives way to
   * its predecessor `w`, the key at slot `j` of the leaf `y`, and `y` loses slot `j`. The tree
   * keeps its shape and loses exactly `v`.
   */
  lemma Swapped(t: Tree, root: Node, order: int, x: Node, i: int, y: Node, j: int) returns (t2: Tree)
    requires Shape(t, root, order) && x in t && y in t && t[x].height > 0 && t[y].height == 0
    requires 0 <= i < |t[x].vals| && 0 <= j < |t[y].vals|
    requires t[y].vals[j] in t[root].keys && t[y].vals[j] < t[x].vals[i]
    requires forall z :: z in t[root].keys && z < t[x].vals[i] ==> z <= t[y].vals[j]
    ensures Shape(t2, root, order) && t2[root].keys == t[root].keys - {t[x].vals[i]} && t2.Keys == t.Keys
    ensures forall n :: n in t ==>
      t2[n].parent == t[n].parent && t2[n].index == t[n].index &&
      t2[n].kids == t[n].kids && t2[n].height == t[n].height
    ensures forall n :: n in t && n != x && n != y ==> t2[n].vals == t[n].vals
    ensures t2[x].vals == t[x].vals[i := t[y].vals[j]] && t2[y].vals == Cut(t[y].vals, j)
  {
    var v, w := t[x].vals[i], t[y].vals[j];
    var t1 := Shrunk(t, root, order, y, j);
    assert t1[x].vals == t[x].vals;
    t2 := Replaced(t1, root, order, x, i, w);
    assert t2[root].keys == t[root].keys - {v} by {
      assert w in t[root].keys && w != v;
    }
  }
}
