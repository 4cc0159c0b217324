/**
 * The two rotations of `rebalance` in BTree/Tema.cpp on the abstract tree. Both cut
 * the joined run of two adjacent siblings at another slot `a` and lift the key there
 * into the parent: a right rotation cuts one slot to the left of the separator (the
 * left sibling's last key goes up, the old separator comes down into the right one),
 * a left rotation one slot to the right. The children of the two siblings are dealt
 * out the same way: the first `a + 1` to the left sibling, the rest to the right one.
 */
module BTreeRotate {
  import opened BTreeNodes
  import opened BTreeShape
  import opened BTreeShrink
  import opened BTreeSiblings

  /** The abstract tree after the joined run under separator `k` of `p` is cut at slot `a`. */
  ghost function Redistribute(t: Tree, p: Node, k: int, a: int): Tree
    requires p in t && 0 <= k < |t[p].vals| && k + 1 < |t[p].kids|
    requires t[p].kids[k] in t && t[p].kids[k + 1] in t
    requires 0 <= a < |Joined(t, p, k)|
    requires t[t[p].kids[k]].height > 0 ==> a < |JoinedKids(t, p, k)|
  {
    var l, r := t[p].kids[k], t[p].kids[k + 1];
    var s, ks, u := Joined(t, p, k), JoinedKids(t, p, k), Pool(t, p, k);
    var leaf := t[l].height == 0;
    map c | c in t ::
      if c == p then t[p].(vals := t[p].vals[k := s[a]])
      else if c == l then
        t[l].(vals := s[..a], keys := (set y | y in u && y < s[a]), kids := if leaf then [] else ks[..a + 1])
      else if c == r then
        t[r].(vals := s[a + 1..], keys := (set y | y in u && s[a] < y), kids := if leaf then [] else ks[a + 1..])
      else if t[c].parent == l || t[c].parent == r then
        (if Pos(t, l, c) <= a then t[c].(parent := l, index := Pos(t, l, c))
         else t[c].(parent := r, index := Pos(t, l, c) - a - 1))
      else t[c]
  }

  /** A cut at slot `a` leaves both siblings within capacity. */
  ghost predicate Redistributable(t: Tree, root: Node, order: int, p: Node, k: int, a: int)
  {
    Siblings(t, root, order, p, k) && 0 <= a < |Joined(t, p, k)| &&
    a <= order && |Joined(t, p, k)| - a - 1 <= order
  }

  /** Setting one key of a sorted list to a value between its neighbours keeps it sorted. */
  lemma SortedSet(s: seq<int>, k: int, w: int)
    requires Sorted(s) && 0 <= k < |s|
    requires (0 < k ==> s[k - 1] < w) && (k + 1 < |s| ==> w < s[k + 1])
    ensures Sorted(s[k := w])
  {
    var r := s[k := w];
    forall a, b | 0 <= a < b < |r|
      ensures r[a] < r[b]
    {
      if a == k {
        assert s[k + 1] <= s[b];
      } else if b == k {
        assert s[a] <= s[k - 1];
      }
    }
  }

  /** The key lifted into `p` is one of the pool and lies in the separator's slot. */
  lemma LiftedKey(t: Tree, root: Node, order: int, p: Node, k: int, a: int)
    requires Redistributable(t, root, order, p, k, a)
    ensures var s := Joined(t, p, k);
      s[a] in Pool(t, p, k) && Sorted(s) && Sorted(t[p].vals[k := s[a]])
  {
    var s := Joined(t, p, k);
    PoolMembers(t, root, order, p, k);
    PoolSlot(t, root, order, p, k);
    JoinedSorted(t, root, order, p, k);
    assert s[a] in s;
    assert Local(t[p], order);
    SortedSet(t[p].vals, k, s[a]);
  }

  /** The parent's keys trade the separator for the lifted key, its subtree keeps its key set. */
  lemma RedistParentUnion(t: Tree, root: Node, order: int, p: Node, k: int, a: int)
    requires Redistributable(t, root, order, p, k, a)
    requires var l, r := t[p].kids[k], t[p].kids[k + 1];
      forall j :: 0 <= j < |t[p].kids| && j != k && j != k + 1 ==>
        KeysOf(Redistribute(t, p, k, a), t[p].kids[j]) == KeysOf(t, t[p].kids[j])
    ensures KeysUnion(Redistribute(t, p, k, a), p)
  {
    var t2 := Redistribute(t, p, k, a);
    var l, r := t[p].kids[k], t[p].kids[k + 1];
    var s, u := Joined(t, p, k), Pool(t, p, k);
    var v := t[p].vals;
    assert u == t[l].keys + {v[k]} + t[r].keys;
    LiftedKey(t, root, order, p, k, a);
    assert KeysUnion(t, p);
    assert t2[p].kids == t[p].kids && t2[p].keys == t[p].keys && t2[p].vals == v[k := s[a]];
    assert t2[l].keys == set y | y in u && y < s[a];
    assert t2[r].keys == set y | y in u && s[a] < y;
    UpdateMembers(v, k, s[a]);
    forall y
      ensures y in t2[p].keys <==>
        (y in t2[p].vals || exists j :: 0 <= j < |t2[p].kids| && y in KeysOf(t2, t2[p].kids[j]))
    {
      if y in u {
        if y == s[a] {
          assert t2[p].vals[k] == y;
        } else if y < s[a] {
          assert y in KeysOf(t2, t2[p].kids[k]);
        } else {
          assert y in KeysOf(t2, t2[p].kids[k + 1]);
        }
        assert y in t[p].keys by {
          if y == v[k] {
          } else if y in t[l].keys {
            assert y in KeysOf(t, t[p].kids[k]);
          } else {
            assert y in KeysOf(t, t[p].kids[k + 1]);
          }
        }
      } else {
        assert y !in KeysOf(t, l) && y !in KeysOf(t, r) && y != v[k];
        assert y !in KeysOf(t2, l) && y !in KeysOf(t2, r) && y != s[a];
      }
    }
  }

  /** Child `j` of `p` stays linked; the children other than the two siblings keep their keys. */
  lemma RedistParentChild(t: Tree, root: Node, order: int, p: Node, k: int, a: int, j: int)
    requires Redistributable(t, root, order, p, k, a) && 0 <= j < |t[p].kids|
    ensures ChildOK(Redistribute(t, p, k, a), p, j)
    ensures j != k && j != k + 1 ==>
      KeysOf(Redistribute(t, p, k, a), t[p].kids[j]) == KeysOf(t, t[p].kids[j])
  {
    var t2 := Redistribute(t, p, k, a);
    var l, r := t[p].kids[k], t[p].kids[k + 1];
    var s, u := Joined(t, p, k), Pool(t, p, k);
    var c := t[p].kids[j];
    assert ChildOK(t, p, j);
    assert t2[p].kids == t[p].kids && t2[p].vals == t[p].vals[k := s[a]];
    PoolSlot(t, root, order, p, k);
    if j == k {
      assert t2[l].keys == set y | y in u && y < s[a];
    } else if j == k + 1 {
      assert t2[r].keys == set y | y in u && s[a] < y;
    } else {
      assert c != l && c != r && c != p && t[c].parent == p;
      assert t2[c] == t[c];
    }
  }

  /** The parent keeps its links, its layout and its key set. */
  lemma RedistParent(t: Tree, root: Node, order: int, p: Node, k: int, a: int)
    requires Redistributable(t, root, order, p, k, a)
    ensures Core(Redistribute(t, p, k, a), p, order)
  {
    var t2 := Redistribute(t, p, k, a);
    var l, r := t[p].kids[k], t[p].kids[k + 1];
    LiftedKey(t, root, order, p, k, a);
    forall j | 0 <= j < |t[p].kids|
      ensures ChildOK(t2, p, j)
      ensures j != k && j != k + 1 ==> KeysOf(t2, t[p].kids[j]) == KeysOf(t, t[p].kids[j])
    {
      RedistParentChild(t, root, order, p, k, a, j);
    }
    RedistParentUnion(t, root, order, p, k, a);
    var q := t[p].parent;
    if q != null {
      assert Up(t, p) && Core(t, q, order) && ChildOK(t, q, t[p].index);
      assert q != l && q != r;
      assert t2[q].kids == t[q].kids;
    }
  }

  /** In a sorted list the members below the one at slot `a` are the prefix, those above it the suffix. */
  lemma CutParts(s: seq<int>, a: int, y: int)
    requires Sorted(s) && 0 <= a < |s| && y in s
    ensures y < s[a] <==> y in s[..a]
    ensures s[a] < y <==> y in s[a + 1..]
  {
    var i :| 0 <= i < |s| && s[i] == y;
    if i < a {
      assert s[..a][i] == y;
    } else if a < i {
      assert s[a + 1..][i - a - 1] == y;
    }
  }

  /** A left sibling that is a leaf holds exactly the pool's keys below the lifted one. */
  lemma LeftLeafKeys(t: Tree, root: Node, order: int, p: Node, k: int, a: int)
    requires Redistributable(t, root, order, p, k, a) && t[t[p].kids[k]].height == 0
    ensures var s := Joined(t, p, k);
      (set y | y in Pool(t, p, k) && y < s[a]) == set y | y in s[..a]
  {
    var s := Joined(t, p, k);
    PoolMembers(t, root, order, p, k);
    JoinedSorted(t, root, order, p, k);
    forall y | y in s
      ensures y < s[a] <==> y in s[..a]
    {
      CutParts(s, a, y);
    }
  }

  /** A right sibling that is a leaf holds exactly the pool's keys above the lifted one. */
  lemma RightLeafKeys(t: Tree, root: Node, order: int, p: Node, k: int, a: int)
    requires Redistributable(t, root, order, p, k, a) && t[t[p].kids[k]].height == 0
    ensures var s := Joined(t, p, k); var b := s[a + 1..];
      (set y | y in Pool(t, p, k) && s[a] < y) == set y | y in b
  {
    var s := Joined(t, p, k);
    PoolMembers(t, root, order, p, k);
    JoinedSorted(t, root, order, p, k);
    forall y | y in s
      ensures s[a] < y <==> y in s[a + 1..]
    {
      CutParts(s, a, y);
    }
  }

  /** Joined child `j` moves to slot `j` of the left sibling or slot `j - a - 1` of the right one, and keeps its keys. */
  lemma RedistKid(t: Tree, root: Node, order: int, p: Node, k: int, a: int, j: int)
    requires Redistributable(t, root, order, p, k, a) && t[t[p].kids[k]].height > 0
    requires 0 <= j < |JoinedKids(t, p, k)|
    ensures var t2, l, r, c := Redistribute(t, p, k, a), t[p].kids[k], t[p].kids[k + 1], JoinedKids(t, p, k)[j];
      c in t2 && t2[c].keys == t[c].keys && t2[c].height == t[c].height && t[c].height + 1 == t[l].height &&
      (j <= a ==> t2[c].parent == l && t2[c].index == j) &&
      (a < j ==> t2[c].parent == r && t2[c].index == j - a - 1) &&
      forall y :: y in t[c].keys ==> InSlot(Joined(t, p, k), j, y)
  {
    JoinedSlot(t, root, order, p, k, j);
  }

  lemma RedistLeftUnion(t: Tree, root: Node, order: int, p: Node, k: int, a: int)
    requires Redistributable(t, root, order, p, k, a) && t[t[p].kids[k]].height > 0
    ensures KeysUnion(Redistribute(t, p, k, a), t[p].kids[k])
  {
    var t2 := Redistribute(t, p, k, a);
    var l := t[p].kids[k];
    var s, ks, u := Joined(t, p, k), JoinedKids(t, p, k), Pool(t, p, k);
    JoinedCount(t, root, order, p, k);
    JoinedSorted(t, root, order, p, k);
    PoolMembers(t, root, order, p, k);
    assert t2[l].vals == s[..a] && t2[l].kids == ks[..a + 1];
    assert t2[l].keys == set y | y in u && y < s[a];
    forall y
      ensures y in t2[l].keys <==>
        (y in t2[l].vals || exists j :: 0 <= j < |t2[l].kids| && y in KeysOf(t2, t2[l].kids[j]))
    {
      if y in s {
        CutParts(s, a, y);
      }
      if y in u && y < s[a] && y !in s {
        var j :| 0 <= j < |ks| && y in KeysOf(t, ks[j]);
        RedistKid(t, root, order, p, k, a, j);
        assert j <= a;
        assert KeysOf(t2, t2[l].kids[j]) == KeysOf(t, ks[j]);
      }
      if exists j :: 0 <= j < |t2[l].kids| && y in KeysOf(t2, t2[l].kids[j]) {
        var j :| 0 <= j < |t2[l].kids| && y in KeysOf(t2, t2[l].kids[j]);
        RedistKid(t, root, order, p, k, a, j);
        assert y in KeysOf(t, ks[j]);
        assert s[j] <= s[a];
      }
    }
  }

  lemma RedistRightUnion(t: Tree, root: Node, order: int, p: Node, k: int, a: int)
    requires Redistributable(t, root, order, p, k, a) && t[t[p].kids[k]].height > 0
    ensures KeysUnion(Redistribute(t, p, k, a), t[p].kids[k + 1])
  {
    var t2 := Redistribute(t, p, k, a);
    var r := t[p].kids[k + 1];
    var s, ks, u := Joined(t, p, k), JoinedKids(t, p, k), Pool(t, p, k);
    JoinedCount(t, root, order, p, k);
    JoinedSorted(t, root, order, p, k);
    PoolMembers(t, root, order, p, k);
    assert t2[r].vals == s[a + 1..] && t2[r].kids == ks[a + 1..];
    assert t2[r].keys == set y | y in u && s[a] < y;
    forall y
      ensures y in t2[r].keys <==>
        (y in t2[r].vals || exists j :: 0 <= j < |t2[r].kids| && y in KeysOf(t2, t2[r].kids[j]))
    {
      if y in s {
        CutParts(s, a, y);
      }
      if y in u && s[a] < y && y !in s {
        var j :| 0 <= j < |ks| && y in KeysOf(t, ks[j]);
        RedistKid(t, root, order, p, k, a, j);
        assert a < j;
        assert KeysOf(t2, t2[r].kids[j - a - 1]) == KeysOf(t, ks[j]);
      }
      if exists j :: 0 <= j < |t2[r].kids| && y in KeysOf(t2, t2[r].kids[j]) {
        var j :| 0 <= j < |t2[r].kids| && y in KeysOf(t2, t2[r].kids[j]);
        RedistKid(t, root, order, p, k, a, j + a + 1);
        assert y in KeysOf(t, ks[j + a + 1]);
        assert s[a] <= s[j + a];
      }
    }
  }

  /** The left sibling keeps its layout and its links, with the joined children up to slot `a`. */
  lemma RedistLeft(t: Tree, root: Node, order: int, p: Node, k: int, a: int)
    requires Redistributable(t, root, order, p, k, a)
    ensures Core(Redistribute(t, p, k, a), t[p].kids[k], order)
  {
    var t2 := Redistribute(t, p, k, a);
    var l := t[p].kids[k];
    var s, ks := Joined(t, p, k), JoinedKids(t, p, k);
    JoinedSorted(t, root, order, p, k);
    JoinedCount(t, root, order, p, k);
    assert t2[l].vals == s[..a];
    if t[l].height == 0 {
      LeftLeafKeys(t, root, order, p, k, a);
    } else {
      assert t2[l].kids == ks[..a + 1];
      forall j | 0 <= j <= a
        ensures ChildOK(t2, l, j)
      {
        RedistKid(t, root, order, p, k, a, j);
      }
      RedistLeftUnion(t, root, order, p, k, a);
    }
    assert t2[p].kids == t[p].kids;
  }

  /** The right sibling keeps its layout and its links, with the joined children after slot `a`. */
  lemma RedistRight(t: Tree, root: Node, order: int, p: Node, k: int, a: int)
    requires Redistributable(t, root, order, p, k, a)
    ensures Core(Redistribute(t, p, k, a), t[p].kids[k + 1], order)
  {
    var t2 := Redistribute(t, p, k, a);
    var r := t[p].kids[k + 1];
    var s, ks := Joined(t, p, k), JoinedKids(t, p, k);
    JoinedSorted(t, root, order, p, k);
    JoinedCount(t, root, order, p, k);
    assert t2[r].vals == s[a + 1..];
    if t[r].height == 0 {
      RightLeafKeys(t, root, order, p, k, a);
    } else {
      assert t2[r].kids == ks[a + 1..];
      forall j | 0 <= j < |ks| - a - 1
        ensures ChildOK(t2, r, j)
      {
        RedistKid(t, root, order, p, k, a, j + a + 1);
        var c, b := ks[j + a + 1], s[a + 1..];
        forall y | y in t[c].keys
          ensures InSlot(b, j, y)
        {
          assert InSlot(s, j + a + 1, y);
        }
      }
      RedistRightUnion(t, root, order, p, k, a);
    }
    assert t2[p].kids == t[p].kids;
  }

  /** A node other than the parent and the two siblings keeps its layout and its children. */
  lemma RedistDown(t: Tree, root: Node, order: int, p: Node, k: int, a: int, c: Node)
    requires Redistributable(t, root, order, p, k, a) && c in t
    requires c != p && c != t[p].kids[k] && c != t[p].kids[k + 1]
    ensures var t2 := Redistribute(t, p, k, a);
      c in t2 && Local(t2[c], order) && Down(t2, c)
  {
    var t2 := Redistribute(t, p, k, a);
    var l, r := t[p].kids[k], t[p].kids[k + 1];
    assert Core(t, c, order);
    assert t2[c].vals == t[c].vals && t2[c].kids == t[c].kids && t2[c].keys == t[c].keys && t2[c].height == t[c].height;
    forall j | 0 <= j < |t[c].kids|
      ensures ChildOK(t2, c, j) && KeysOf(t2, t[c].kids[j]) == KeysOf(t, t[c].kids[j])
    {
      assert ChildOK(t, c, j);
      var n := t[c].kids[j];
      if n != p {
        assert n != l && n != r;
        assert t[n].parent != l && t[n].parent != r by {
          assert Core(t, l, order) && Core(t, r, order);
        }
        assert t2[n] == t[n];
      }
    }
  }

  /** The children of the two siblings point to their new slots, and every other node keeps its upward link. */
  lemma RedistUp(t: Tree, root: Node, order: int, p: Node, k: int, a: int, c: Node)
    requires Redistributable(t, root, order, p, k, a) && c in t
    requires c != p && c != t[p].kids[k] && c != t[p].kids[k + 1]
    ensures var t2 := Redistribute(t, p, k, a);
      c in t2 && Up(t2, c)
  {
    var t2 := Redistribute(t, p, k, a);
    var l, r := t[p].kids[k], t[p].kids[k + 1];
    var q := t[c].parent;
    if q == l || q == r {
      MovedKid(t, root, order, p, k, c);
      RedistKid(t, root, order, p, k, a, Pos(t, l, c));
      JoinedCount(t, root, order, p, k);
    } else if q != null {
      assert Core(t, c, order) && Up(t, c);
      assert t2[c].parent == q && t2[c].index == t[c].index;
      assert t2[q].kids == t[q].kids;
    }
  }

  lemma RedistCore(t: Tree, root: Node, order: int, p: Node, k: int, a: int, c: Node)
    requires Redistributable(t, root, order, p, k, a) && c in t
    ensures c in Redistribute(t, p, k, a) && Core(Redistribute(t, p, k, a), c, order)
  {
    var l, r := t[p].kids[k], t[p].kids[k + 1];
    if c == p {
      RedistParent(t, root, order, p, k, a);
    } else if c == l {
      RedistLeft(t, root, order, p, k, a);
    } else if c == r {
      RedistRight(t, root, order, p, k, a);
    } else {
      RedistDown(t, root, order, p, k, a, c);
      RedistUp(t, root, order, p, k, a, c);
    }
  }

  /** A rotation moves no node to or from the top: parents and heights are kept or moved within a level. */
  lemma RedistTop(t: Tree, root: Node, order: int, p: Node, k: int, a: int)
    requires Redistributable(t, root, order, p, k, a)
    ensures var t2 := Redistribute(t, p, k, a);
      t2.Keys == t.Keys && t2[root] == t[root].(vals := t2[root].vals) &&
      (forall c :: c in t2 && t2[c].parent == null ==> c == root) &&
      (forall c :: c in t2 ==> t2[c].height == t[c].height)
  {
    var t2 := Redistribute(t, p, k, a);
    var l, r := t[p].kids[k], t[p].kids[k + 1];
    forall c | c in t2 && c != root
      ensures t2[c].parent != null
    {
      assert t[c].parent != null;
    }
  }

  /** A rotation keeps the shape invariant and the tree's key set. */
  lemma RedistShape(t: Tree, root: Node, order: int, p: Node, k: int, a: int)
    requires Redistributable(t, root, order, p, k, a)
    ensures Shape(Redistribute(t, p, k, a), root, order)
    ensures Redistribute(t, p, k, a)[root].keys == t[root].keys
  {
    var t2 := Redistribute(t, p, k, a);
    forall c | c in t2
      ensures Core(t2, c, order)
    {
      RedistCore(t, root, order, p, k, a, c);
    }
    RedistTop(t, root, order, p, k, a);
  }
}
