/**
 * The merge and the root collapse of `rebalance` in BTree/Tema.cpp on the abstract
 * tree. A merge gathers the joined run of two adjacent siblings, the separator
 * between them included, into the left sibling, which takes over all their children;
 * the right sibling leaves the tree and the parent loses the separator and the slot of
 * the right sibling (`Merge`). A root left without keys hands its place to its only
 * child (`Collapse`).
 */
module BTreeMerge {
  import opened BTreeNodes
  import opened BTreeShape
  import opened BTreeShrink
  import opened BTreeSiblings

  /** `s` without its element at slot `i`, for the child list of a node. */
  function CutKid(s: seq<Node>, i: int): (r: seq<Node>)
    requires 0 <= i < |s|
    ensures |r| == |s| - 1 && r[..i] == s[..i] && r[i..] == s[i + 1..]
    ensures forall j :: 0 <= j < |r| ==> r[j] == if j < i then s[j] else s[j + 1]
  {
    s[..i] + s[i + 1..]
  }

  /** The abstract tree after the siblings under separator `k` of `p` are merged into the left one. */
  ghost function Merge(t: Tree, p: Node, k: int): Tree
    requires p in t && 0 <= k < |t[p].vals| && k + 1 < |t[p].kids|
    requires t[p].kids[k] in t && t[p].kids[k + 1] in t
  {
    var l, r := t[p].kids[k], t[p].kids[k + 1];
    map c | c in t && c != r ::
      if c == p then t[p].(vals := Cut(t[p].vals, k), kids := CutKid(t[p].kids, k + 1))
      else if c == l then t[l].(vals := Joined(t, p, k), keys := Pool(t, p, k), kids := JoinedKids(t, p, k))
      else if t[c].parent == l || t[c].parent == r then t[c].(parent := l, index := Pos(t, l, c))
      else if t[c].parent == p && t[c].index > k + 1 then t[c].(index := t[c].index - 1)
      else t[c]
  }

  /** The joined run fits into one node. */
  ghost predicate Mergeable(t: Tree, root: Node, order: int, p: Node, k: int)
  {
    Siblings(t, root, order, p, k) && |Joined(t, p, k)| <= order
  }

  /** Child `j` of the merged parent is its old child `j`, the merged node, or its old child `j + 1`. */
  lemma MergeParentChild(t: Tree, root: Node, order: int, p: Node, k: int, j: int)
    requires Mergeable(t, root, order, p, k) && 0 <= j < |t[p].kids| - 1
    ensures var t2 := Merge(t, p, k);
      p in t2 && j < |t2[p].kids| && ChildOK(t2, p, j) &&
      (j < k ==> KeysOf(t2, t2[p].kids[j]) == KeysOf(t, t[p].kids[j])) &&
      (j == k ==> KeysOf(t2, t2[p].kids[j]) == Pool(t, p, k)) &&
      (k < j ==> KeysOf(t2, t2[p].kids[j]) == KeysOf(t, t[p].kids[j + 1]))
  {
    var t2 := Merge(t, p, k);
    var l, r := t[p].kids[k], t[p].kids[k + 1];
    var v := t[p].vals;
    assert t2[p].kids == CutKid(t[p].kids, k + 1) && t2[p].vals == Cut(v, k);
    PoolSlot(t, root, order, p, k);
    if j < k {
      var c := t[p].kids[j];
      assert ChildOK(t, p, j) && c != l && c != r && c != p;
      assert t2[c] == t[c];
    } else if j == k {
      assert t2[l].keys == Pool(t, p, k);
    } else {
      var c := t[p].kids[j + 1];
      assert ChildOK(t, p, j + 1) && c != l && c != r && c != p;
      assert t2[c] == t[c].(index := j);
      forall y | y in t[c].keys
        ensures InSlot(t2[p].vals, j, y)
      {
        assert InSlot(v, j + 1, y);
      }
    }
  }

  /** The facts about the merged parent's children that its key set depends on. */
  ghost predicate MergedKids(t: Tree, p: Node, k: int, t2: Tree)
    requires p in t && 0 <= k < |t[p].vals| && k + 1 < |t[p].kids|
    requires t[p].kids[k] in t && t[p].kids[k + 1] in t
  {
    p in t2 && |t2[p].kids| == |t[p].kids| - 1 &&
    (forall j :: 0 <= j < k ==> KeysOf(t2, t2[p].kids[j]) == KeysOf(t, t[p].kids[j])) &&
    KeysOf(t2, t2[p].kids[k]) == Pool(t, p, k) &&
    (forall j :: k < j < |t2[p].kids| ==> KeysOf(t2, t2[p].kids[j]) == KeysOf(t, t[p].kids[j + 1]))
  }

  /** A key outside the pool lies under a child of the parent before the merge iff it does after. */
  lemma MergeOtherKey(t: Tree, root: Node, order: int, p: Node, k: int, t2: Tree, y: int)
    requires Mergeable(t, root, order, p, k) && MergedKids(t, p, k, t2) && y !in Pool(t, p, k)
    ensures (exists j :: 0 <= j < |t[p].kids| && y in KeysOf(t, t[p].kids[j])) <==>
      (exists j :: 0 <= j < |t2[p].kids| && y in KeysOf(t2, t2[p].kids[j]))
  {
    var l, r := t[p].kids[k], t[p].kids[k + 1];
    assert Pool(t, p, k) == t[l].keys + {t[p].vals[k]} + t[r].keys;
    if exists j :: 0 <= j < |t[p].kids| && y in KeysOf(t, t[p].kids[j]) {
      var j :| 0 <= j < |t[p].kids| && y in KeysOf(t, t[p].kids[j]);
      assert j != k && j != k + 1;
      if j < k {
        assert y in KeysOf(t2, t2[p].kids[j]);
      } else {
        assert y in KeysOf(t2, t2[p].kids[j - 1]);
      }
    }
    if exists j :: 0 <= j < |t2[p].kids| && y in KeysOf(t2, t2[p].kids[j]) {
      var j :| 0 <= j < |t2[p].kids| && y in KeysOf(t2, t2[p].kids[j]);
      if j < k {
        assert y in KeysOf(t, t[p].kids[j]);
      } else {
        assert j != k;
        assert y in KeysOf(t, t[p].kids[j + 1]);
      }
    }
  }

  /** The merged parent keeps its key set: the separator and the right sibling's keys now sit in the merged node. */
  lemma MergeParentUnion(t: Tree, root: Node, order: int, p: Node, k: int)
    requires Mergeable(t, root, order, p, k) && MergedKids(t, p, k, Merge(t, p, k))
    ensures KeysUnion(Merge(t, p, k), p)
  {
    var t2 := Merge(t, p, k);
    var l, r := t[p].kids[k], t[p].kids[k + 1];
    var v := t[p].vals;
    var u := Pool(t, p, k);
    assert u == t[l].keys + {v[k]} + t[r].keys;
    assert KeysUnion(t, p) && Local(t[p], order);
    assert t2[p].vals == Cut(v, k) && t2[p].keys == t[p].keys;
    CutSorted(v, k);
    forall y
      ensures y in t2[p].keys <==>
        (y in t2[p].vals || exists j :: 0 <= j < |t2[p].kids| && y in KeysOf(t2, t2[p].kids[j]))
    {
      if y in u {
        assert y in KeysOf(t2, t2[p].kids[k]);
        assert y in t[p].keys by {
          if y == v[k] {
          } else if y in t[l].keys {
            assert y in KeysOf(t, t[p].kids[k]);
          } else {
            assert y in KeysOf(t, t[p].kids[k + 1]);
          }
        }
      } else {
        MergeOtherKey(t, root, order, p, k, t2, y);
      }
    }
  }

  lemma MergeParentKids(t: Tree, root: Node, order: int, p: Node, k: int)
    requires Mergeable(t, root, order, p, k)
    ensures p in Merge(t, p, k) && MergedKids(t, p, k, Merge(t, p, k))
    ensures forall j :: 0 <= j < |Merge(t, p, k)[p].kids| ==> ChildOK(Merge(t, p, k), p, j)
  {
    var t2 := Merge(t, p, k);
    assert |t2[p].kids| == |t[p].kids| - 1;
    forall j | 0 <= j < |t2[p].kids|
      ensures ChildOK(t2, p, j)
      ensures j < k ==> KeysOf(t2, t2[p].kids[j]) == KeysOf(t, t[p].kids[j])
      ensures j == k ==> KeysOf(t2, t2[p].kids[j]) == Pool(t, p, k)
      ensures k < j ==> KeysOf(t2, t2[p].kids[j]) == KeysOf(t, t[p].kids[j + 1])
    {
      MergeParentChild(t, root, order, p, k, j);
    }
  }

  /** The parent keeps its links and its key set, with one key and one child fewer. */
  lemma MergeParent(t: Tree, root: Node, order: int, p: Node, k: int)
    requires Mergeable(t, root, order, p, k)
    ensures p in Merge(t, p, k) && Core(Merge(t, p, k), p, order)
  {
    var t2 := Merge(t, p, k);
    var l, r := t[p].kids[k], t[p].kids[k + 1];
    assert Local(t[p], order);
    CutSorted(t[p].vals, k);
    assert t2[p].vals == Cut(t[p].vals, k) && |t2[p].kids| == |t[p].kids| - 1;
    MergeParentKids(t, root, order, p, k);
    MergeParentUnion(t, root, order, p, k);
    var q := t[p].parent;
    if q != null {
      assert Up(t, p) && Core(t, q, order) && ChildOK(t, q, t[p].index);
      assert q != l && q != r;
      assert t2[q].kids == t[q].kids;
    }
  }

  /** The merged node holds the joined run and all the children of both siblings. */
  lemma MergeLeft(t: Tree, root: Node, order: int, p: Node, k: int)
    requires Mergeable(t, root, order, p, k)
    ensures t[p].kids[k] in Merge(t, p, k) && Core(Merge(t, p, k), t[p].kids[k], order)
  {
    var t2 := Merge(t, p, k);
    var l := t[p].kids[k];
    var s, ks := Joined(t, p, k), JoinedKids(t, p, k);
    JoinedSorted(t, root, order, p, k);
    JoinedCount(t, root, order, p, k);
    PoolMembers(t, root, order, p, k);
    assert t2[l].vals == s && t2[l].kids == ks && t2[l].keys == Pool(t, p, k);
    if t[l].height > 0 {
      forall j | 0 <= j < |ks|
        ensures ChildOK(t2, l, j) && KeysOf(t2, ks[j]) == KeysOf(t, ks[j])
      {
        JoinedSlot(t, root, order, p, k, j);
      }
    }
    assert t2[p].kids == CutKid(t[p].kids, k + 1);
  }

  /** A node other than the parent and the two siblings keeps its layout and its children. */
  lemma MergeDown(t: Tree, root: Node, order: int, p: Node, k: int, c: Node)
    requires Mergeable(t, root, order, p, k) && c in t
    requires c != p && c != t[p].kids[k] && c != t[p].kids[k + 1]
    ensures var t2 := Merge(t, p, k);
      c in t2 && Local(t2[c], order) && Down(t2, c)
  {
    var t2 := Merge(t, p, k);
    var l, r := t[p].kids[k], t[p].kids[k + 1];
    assert Core(t, c, order);
    assert t2[c].vals == t[c].vals && t2[c].kids == t[c].kids && t2[c].keys == t[c].keys && t2[c].height == t[c].height;
    forall j | 0 <= j < |t[c].kids|
      ensures ChildOK(t2, c, j) && KeysOf(t2, t[c].kids[j]) == KeysOf(t, t[c].kids[j])
    {
      assert ChildOK(t, c, j);
      var n := t[c].kids[j];
      if n != p {
        assert n != l && n != r;
        assert t[n].parent != l && t[n].parent != r && t[n].parent != p;
        assert t2[n] == t[n];
      }
    }
  }

  /** The children of both siblings point to the merged node, later children of the parent one slot down. */
  lemma MergeUp(t: Tree, root: Node, order: int, p: Node, k: int, c: Node)
    requires Mergeable(t, root, order, p, k) && c in t
    requires c != p && c != t[p].kids[k] && c != t[p].kids[k + 1]
    ensures var t2 := Merge(t, p, k);
      c in t2 && Up(t2, c)
  {
    var t2 := Merge(t, p, k);
    var l, r := t[p].kids[k], t[p].kids[k + 1];
    var q := t[c].parent;
    if q == l || q == r {
      MovedKid(t, root, order, p, k, c);
      assert t2[l].kids == JoinedKids(t, p, k);
    } else if q != null {
      assert Core(t, c, order) && Up(t, c);
      assert t2[p].kids == CutKid(t[p].kids, k + 1);
      if q == p {
        var i := t[c].index;
        assert ChildOK(t, p, i) && i != k && i != k + 1;
      } else {
        assert t2[q].kids == t[q].kids;
      }
    }
  }

  lemma MergeCore(t: Tree, root: Node, order: int, p: Node, k: int, c: Node)
    requires Mergeable(t, root, order, p, k) && c in Merge(t, p, k)
    ensures Core(Merge(t, p, k), c, order)
  {
    if c == p {
      MergeParent(t, root, order, p, k);
    } else if c == t[p].kids[k] {
      MergeLeft(t, root, order, p, k);
    } else {
      MergeDown(t, root, order, p, k, c);
      MergeUp(t, root, order, p, k, c);
    }
  }

  /** A merge takes the right sibling out of the tree and keeps the root, the heights and the key set. */
  lemma MergeTop(t: Tree, root: Node, order: int, p: Node, k: int)
    requires Mergeable(t, root, order, p, k)
    ensures var t2 := Merge(t, p, k);
      t2.Keys == t.Keys - {t[p].kids[k + 1]} && root in t2 &&
      t2[root].parent == null && t2[root].index == 0 && t2[root].keys == t[root].keys &&
      (forall c :: c in t2 && t2[c].parent == null ==> c == root) &&
      (forall c :: c in t2 ==> t2[c].height == t[c].height)
  {
    var t2 := Merge(t, p, k);
    var l, r := t[p].kids[k], t[p].kids[k + 1];
    forall c | c in t2 && c != root
      ensures t2[c].parent != null
    {
      assert t[c].parent != null;
    }
  }

  /** A merge keeps the shape invariant and the tree's key set. */
  lemma MergeShape(t: Tree, root: Node, order: int, p: Node, k: int)
    requires Mergeable(t, root, order, p, k)
    ensures Shape(Merge(t, p, k), root, order)
    ensures Merge(t, p, k)[root].keys == t[root].keys
  {
    var t2 := Merge(t, p, k);
    forall c | c in t2
      ensures Core(t2, c, order)
    {
      MergeCore(t, root, order, p, k, c);
    }
    MergeTop(t, root, order, p, k);
  }

  /** The abstract tree after an empty root gives way to its only child. */
  ghost function Collapse(t: Tree, root: Node): Tree
    requires root in t && |t[root].kids| == 1
  {
    var c := t[root].kids[0];
    map n | n in t && n != root :: if n == c then t[c].(parent := null) else t[n]
  }

  lemma CollapseCore(t: Tree, root: Node, order: int, n: Node)
    requires Shape(t, root, order) && t[root].height > 0 && |t[root].vals| == 0
    requires n in t && n != root
    ensures |t[root].kids| == 1 && n in Collapse(t, root) && Core(Collapse(t, root), n, order)
  {
    assert Core(t, root, order) && ChildOK(t, root, 0);
    var c := t[root].kids[0];
    var t2 := Collapse(t, root);
    assert Core(t, n, order) && Up(t, n);
    assert t[n].parent == root ==> n == c;
    forall j | 0 <= j < |t[n].kids|
      ensures ChildOK(t2, n, j) && KeysOf(t2, t[n].kids[j]) == KeysOf(t, t[n].kids[j])
    {
      assert ChildOK(t, n, j);
    }
  }

  /** The only child of a root without keys becomes the root, with the same key set. */
  lemma CollapseShape(t: Tree, root: Node, order: int)
    requires Shape(t, root, order) && t[root].height > 0 && |t[root].vals| == 0
    ensures |t[root].kids| == 1 && t[root].kids[0] in t && t[root].kids[0] != root
    ensures Shape(Collapse(t, root), t[root].kids[0], order)
    ensures Collapse(t, root)[t[root].kids[0]].keys == t[root].keys
    ensures Collapse(t, root).Keys == t.Keys - {root}
  {
    assert Core(t, root, order) && ChildOK(t, root, 0);
    var c := t[root].kids[0];
    var t2 := Collapse(t, root);
    forall n | n in t2
      ensures Core(t2, n, order)
    {
      CollapseCore(t, root, order, n);
    }
    forall n | n in t2
      ensures t2[n].height <= t2[c].height
    {
      if t[n].height == t[root].height {
        TopIsRoot(t, root, order, n);
      }
    }
    assert KeysUnion(t, root);
    assert forall y :: y in t[root].keys <==> y in KeysOf(t, t[root].kids[0]);
  }
}
