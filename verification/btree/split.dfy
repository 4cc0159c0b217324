/**
 * Splitting an overflowing node, on the abstract tree (`split` of BTree/Tema.cpp):
 * a node `x` holding `order` keys is replaced by a left node with the keys before its
 * median slot and a right node with the keys after it; the median joins the parent
 * between them, and a new root is made first when `x` is the root.
 */
module BTreeSplit {
  import opened BTreeNodes
  import opened BTreeShape
  import opened BTreeGrow

  /** The view of a node after the split, for every node that is neither `x`, the halves nor the parent. */
  ghost function Moved(v: View, x: Node, l: Node, r: Node, p: Node, ci: int, med: int): View
  {
    if v.parent == x then
      (if v.index <= med then v.(parent := l) else v.(parent := r, index := v.index - med - 1))
    else if v.parent == p && v.index > ci then v.(index := v.index + 1)
    else v
  }

  /**
   * The conditions of a split: `x` overflows with `order` keys, `l` and `r` are new
   * nodes, and `p` is the parent of `x`, or a new node when `x` is the root.
   */
  ghost predicate Splittable(t: Tree, root: Node, order: int, x: Node, l: Node, r: Node, p: Node)
  {
    Shape(t, root, order) && x in t && |t[x].vals| == order &&
    (t[x].height > 0 ==> |t[x].kids| == order + 1) &&
    l !in t && r !in t && l != r && p != l && p != r &&
    (x == root ==> p !in t) &&
    (x != root ==> p == t[x].parent && p in t && |t[p].vals| < order &&
                   0 <= t[x].index <= |t[p].vals| < |t[p].kids|)
  }

  /** The abstract tree after `x` is split into `l` and `r` under `p`. */
  ghost function SplitTree(t: Tree, root: Node, order: int, x: Node, l: Node, r: Node, p: Node): Tree
    requires Splittable(t, root, order, x, l, r, p)
  {
    var vx := t[x];
    var med := MinKeys(order);
    var m := vx.vals[med];
    var ci := vx.index;
    var vl := Half(vx, 0, med, p, ci);
    var vr := Half(vx, med + 1, order, p, ci + 1);
    var vp := ParentView(t, order, x, l, r, p);
    map c | c in (t.Keys - {x}) + {l, r, p} ::
      if c == l then vl else if c == r then vr else if c == p then vp
      else Moved(t[c], x, l, r, p, ci, med)
  }

  /** The nodes after the split are the old ones and the three new or re-used ones. */
  lemma SplitDomain(t: Tree, root: Node, order: int, x: Node, l: Node, r: Node, p: Node)
    requires Splittable(t, root, order, x, l, r, p)
    ensures forall n :: n in SplitTree(t, root, order, x, l, r, p) ==> n in t || n == l || n == r || n == p
  {
  }

  /** The root after the split: the new node `p` when `x` was the root. */
  function NewRoot(root: Node, x: Node, p: Node): Node
  {
    if x == root then p else root
  }

  /** Facts about `x` and its parent that every part of the proof uses. */
  lemma SplitFacts(t: Tree, root: Node, order: int, x: Node, l: Node, r: Node, p: Node)
    requires Splittable(t, root, order, x, l, r, p)
    ensures Core(t, x, order) && MinKeys(order) < order
    ensures t[x].vals[MinKeys(order)] in t[x].keys
    ensures x != root ==> t[p].height == t[x].height + 1 && t[p].kids[t[x].index] == x && Core(t, p, order)
    ensures x == root ==> t[x].index == 0 && t[x].parent == null
  {
    assert Core(t, x, order);
    ValsInKeys(t, x, order);
    if x != root {
      ParentStep(t, root, order, x);
      assert Core(t, p, order);
    }
  }

  /** A child of `x` is some other node than `x`, the halves and the parent. */
  lemma KidOfX(t: Tree, root: Node, order: int, x: Node, l: Node, r: Node, p: Node, j: int)
    requires Splittable(t, root, order, x, l, r, p) && t[x].height > 0 && 0 <= j < |t[x].kids|
    ensures t[x].kids[j] in t && ChildOK(t, x, j)
    ensures t[x].kids[j] != x && t[x].kids[j] != l && t[x].kids[j] != r && t[x].kids[j] != p
  {
    SplitFacts(t, root, order, x, l, r, p);
    assert ChildOK(t, x, j);
  }

  /**
   * The half of `x` that keeps its keys in slots `a` to `b - 1` and its children in
   * slots `a` to `b`, as a child of `p` at slot `ci`: its subtree keys are those of
   * `x` between the separators around that run.
   */
  ghost function Half(vx: View, a: int, b: int, p: Node, ci: int): View
    requires 0 <= a <= b <= |vx.vals| && (vx.height > 0 ==> |vx.kids| == |vx.vals| + 1)
  {
    View(vx.vals[a..b],
         (set y | y in vx.keys && (0 < a ==> vx.vals[a - 1] < y) && (b < |vx.vals| ==> y < vx.vals[b])),
         vx.height, p, ci,
         if vx.height == 0 then [] else vx.kids[a..b + 1])
  }

  /** Where a half's children come from: the children of `x` in slots `a` to `b`, renumbered from 0 and pointing back to `h`. */
  ghost predicate HalfKids(t: Tree, x: Node, t2: Tree, h: Node, a: int, b: int)
    requires x in t && 0 <= a && b < |t[x].kids|
  {
    forall k :: a <= k <= b ==>
      t[x].kids[k] in t && t[x].kids[k] in t2 &&
      t2[t[x].kids[k]] == t[t[x].kids[k]].(parent := h, index := k - a)
  }

  /** A half's key list is the run of `x`'s keys between its separators. */
  lemma HalfVals(t: Tree, root: Node, order: int, x: Node, a: int, b: int, p: Node, ci: int, y: int)
    requires Shape(t, root, order) && x in t && 0 <= a <= b <= |t[x].vals| && y in t[x].vals
    requires t[x].height > 0 ==> |t[x].kids| == |t[x].vals| + 1
    ensures y in Half(t[x], a, b, p, ci).vals <==>
      (0 < a ==> t[x].vals[a - 1] < y) && (b < |t[x].vals| ==> y < t[x].vals[b])
  {
    var vx := t[x];
    assert Core(t, x, order);
    var k :| 0 <= k < |vx.vals| && vx.vals[k] == y;
    if a <= k < b {
      assert vx.vals[a..b][k - a] == y;
    }
  }

  /** A child of a half holds only keys of `x` between the separators around its slot. */
  lemma HalfChild(t: Tree, root: Node, order: int, x: Node, t2: Tree, h: Node, a: int, b: int, p: Node, ci: int, j: int)
    requires Shape(t, root, order) && x in t && t[x].height > 0 && 0 <= a <= b <= |t[x].vals|
    requires |t[x].kids| == |t[x].vals| + 1
    requires h in t2 && t2[h] == Half(t[x], a, b, p, ci) && HalfKids(t, x, t2, h, a, b)
    requires 0 <= j <= b - a
    ensures ChildOK(t2, h, j) && KeysOf(t2, t2[h].kids[j]) == KeysOf(t, t[x].kids[a + j])
  {
    assert Core(t, x, order) && ChildOK(t, x, a + j);
    var c := t[x].kids[a + j];
    assert t2[h].kids[j] == c;
    assert t2[c] == t[c].(parent := h, index := j);
  }

  /** A child of `x` holding a key of the half lies within the half's run of slots. */
  lemma HalfSlot(t: Tree, root: Node, order: int, x: Node, a: int, b: int, p: Node, ci: int, k: int, y: int)
    requires Shape(t, root, order) && x in t && t[x].height > 0 && 0 <= a <= b <= |t[x].vals|
    requires |t[x].kids| == |t[x].vals| + 1
    requires 0 <= k < |t[x].kids| && y in KeysOf(t, t[x].kids[k])
    ensures y in Half(t[x], a, b, p, ci).keys <==> a <= k <= b
  {
    var vx := t[x];
    assert Core(t, x, order) && ChildOK(t, x, k);
    if k < a {
      assert vx.vals[k] <= vx.vals[a - 1];
    }
    if b < k {
      assert vx.vals[b] <= vx.vals[k - 1];
    }
    if a <= k <= b {
      if 0 < a && a < k {
        assert vx.vals[a - 1] < vx.vals[k - 1];
      }
      if b < |vx.vals| && k < b {
        assert vx.vals[k] < vx.vals[b];
      }
    }
  }

  /** Whether `y` is a subtree key of a half is decided by its own keys and its children's. */
  lemma HalfKey(t: Tree, root: Node, order: int, x: Node, t2: Tree, h: Node, a: int, b: int, p: Node, ci: int, y: int)
    requires Shape(t, root, order) && x in t && t[x].height > 0 && 0 <= a <= b <= |t[x].vals|
    requires |t[x].kids| == |t[x].vals| + 1
    requires h in t2 && t2[h] == Half(t[x], a, b, p, ci) && HalfKids(t, x, t2, h, a, b)
    requires y !in t[x].vals
    ensures y in t2[h].keys <==> exists j :: 0 <= j < |t2[h].kids| && y in KeysOf(t2, t2[h].kids[j])
  {
    var vx := t[x];
    var vh := t2[h];
    assert Core(t, x, order);
    if y in vh.keys {
      var k :| 0 <= k < |vx.kids| && y in KeysOf(t, vx.kids[k]);
      HalfSlot(t, root, order, x, a, b, p, ci, k, y);
      HalfChild(t, root, order, x, t2, h, a, b, p, ci, k - a);
      assert y in KeysOf(t2, vh.kids[k - a]);
    }
    if exists j :: 0 <= j < |vh.kids| && y in KeysOf(t2, vh.kids[j]) {
      var j :| 0 <= j < |vh.kids| && y in KeysOf(t2, vh.kids[j]);
      HalfChild(t, root, order, x, t2, h, a, b, p, ci, j);
      HalfSlot(t, root, order, x, a, b, p, ci, a + j, y);
    }
  }

  /** A key of `x`'s own list is in no child of a half. */
  lemma HalfVal(t: Tree, root: Node, order: int, x: Node, t2: Tree, h: Node, a: int, b: int, p: Node, ci: int, y: int)
    requires Shape(t, root, order) && x in t && t[x].height > 0 && 0 <= a <= b <= |t[x].vals|
    requires |t[x].kids| == |t[x].vals| + 1
    requires h in t2 && t2[h] == Half(t[x], a, b, p, ci) && HalfKids(t, x, t2, h, a, b)
    requires y in t[x].vals
    ensures y in t2[h].keys <==> y in t2[h].vals
    ensures forall j :: 0 <= j < |t2[h].kids| ==> y !in KeysOf(t2, t2[h].kids[j])
  {
    var vx := t[x];
    var vh := t2[h];
    assert Core(t, x, order);
    ValsInKeys(t, x, order);
    HalfVals(t, root, order, x, a, b, p, ci, y);
    forall j | 0 <= j < |vh.kids|
      ensures y !in KeysOf(t2, vh.kids[j])
    {
      HalfChild(t, root, order, x, t2, h, a, b, p, ci, j);
      if y in KeysOf(t, t[x].kids[a + j]) {
        ChildSlots(t, x, order, a + j, y);
      }
    }
  }

  /** The subtree keys of a half are its own keys and those of its children. */
  lemma HalfUnion(t: Tree, root: Node, order: int, x: Node, t2: Tree, h: Node, a: int, b: int, p: Node, ci: int)
    requires Shape(t, root, order) && x in t && t[x].height > 0 && 0 <= a <= b <= |t[x].vals|
    requires |t[x].kids| == |t[x].vals| + 1
    requires h in t2 && t2[h] == Half(t[x], a, b, p, ci) && HalfKids(t, x, t2, h, a, b)
    ensures KeysUnion(t2, h)
  {
    var vh := t2[h];
    forall y
      ensures y in vh.keys <==> (y in vh.vals || exists j :: 0 <= j < |vh.kids| && y in KeysOf(t2, vh.kids[j]))
    {
      if y in t[x].vals {
        HalfVal(t, root, order, x, t2, h, a, b, p, ci, y);
      } else {
        HalfKey(t, root, order, x, t2, h, a, b, p, ci, y);
      }
    }
  }

  /**
   * A half of `x` placed in a tree `t2` whose children of the half are those of `x`,
   * renumbered and pointing back to it, and whose parent lists it at slot `ci`, has
   * its local layout and its links.
   */
  lemma HalfCore(t: Tree, root: Node, order: int, x: Node, t2: Tree, h: Node, a: int, b: int, p: Node, ci: int)
    requires Shape(t, root, order) && x in t && 0 <= a <= b <= |t[x].vals|
    requires t[x].height > 0 ==> |t[x].kids| == |t[x].vals| + 1
    requires h in t2 && t2[h] == Half(t[x], a, b, p, ci)
    requires t[x].height > 0 ==> HalfKids(t, x, t2, h, a, b)
    requires p in t2 && 0 <= ci < |t2[p].kids| && t2[p].kids[ci] == h
    ensures Core(t2, h, order)
  {
    var vx := t[x];
    var vh := t2[h];
    assert Core(t, x, order);
    forall y | y in vx.vals
      ensures y in vh.vals <==> (0 < a ==> vx.vals[a - 1] < y) && (b < |vx.vals| ==> y < vx.vals[b])
    {
      HalfVals(t, root, order, x, a, b, p, ci, y);
    }
    if vx.height > 0 {
      forall j | 0 <= j < |vh.kids|
        ensures ChildOK(t2, h, j)
      {
        HalfChild(t, root, order, x, t2, h, a, b, p, ci, j);
      }
      HalfUnion(t, root, order, x, t2, h, a, b, p, ci);
    }
  }

  /** The parent's view after the split: the median at slot `ci`, and the halves in place of `x`. */
  ghost function Raised(vp: View, ci: int, m: int, l: Node, r: Node): View
    requires 0 <= ci <= |vp.vals| && ci < |vp.kids|
  {
    vp.(vals := Spliced(vp.vals, ci, m), kids := vp.kids[..ci] + [l, r] + vp.kids[ci + 1..])
  }

  /** The two halves are in `t2` with their views. */
  ghost predicate Placed(t: Tree, root: Node, order: int, x: Node, l: Node, r: Node, p: Node, t2: Tree)
  {
    Splittable(t, root, order, x, l, r, p) && l in t2 && r in t2 && p in t2 &&
    t2[l] == Half(t[x], 0, MinKeys(order), p, t[x].index) &&
    t2[r] == Half(t[x], MinKeys(order) + 1, order, p, t[x].index + 1)
  }

  /** The other children of the parent keep their views in `t2`, those after slot `ci` one slot further on. */
  ghost predicate ParentKids(t: Tree, p: Node, ci: int, t2: Tree)
    requires p in t
  {
    forall k :: 0 <= k < |t[p].kids| && k != ci ==>
      t[p].kids[k] in t && t[p].kids[k] in t2 &&
      t2[t[p].kids[k]] == t[t[p].kids[k]].(index := if k < ci then k else k + 1)
  }

  /** The parent as it stands in `t2` after the split. */
  ghost predicate ParentPlaced(t: Tree, root: Node, order: int, x: Node, l: Node, r: Node, p: Node, t2: Tree)
  {
    Placed(t, root, order, x, l, r, p, t2) && x != root &&
    t2[p] == Raised(t[p], t[x].index, t[x].vals[MinKeys(order)], l, r) &&
    ParentKids(t, p, t[x].index, t2)
  }

  /** A child slot of the parent before `x`'s keeps its child. */
  lemma ParentBefore(t: Tree, root: Node, order: int, x: Node, l: Node, r: Node, p: Node, t2: Tree, j: int)
    requires ParentPlaced(t, root, order, x, l, r, p, t2) && 0 <= j < t[x].index
    ensures j < |t2[p].kids| && ChildOK(t2, p, j) && KeysOf(t2, t2[p].kids[j]) == KeysOf(t, t[p].kids[j])
  {
    SplitFacts(t, root, order, x, l, r, p);
    var ci := t[x].index;
    var vp := t[p];
    assert ChildOK(t, p, j);
    assert t2[p].kids[j] == vp.kids[j];
    assert t2[p].vals[..ci] == vp.vals[..ci];
    assert t2[p].vals[j] == vp.vals[j];
  }

  /** A child slot of the parent after `x`'s holds the child that was one slot earlier. */
  lemma ParentAfter(t: Tree, root: Node, order: int, x: Node, l: Node, r: Node, p: Node, t2: Tree, j: int)
    requires ParentPlaced(t, root, order, x, l, r, p, t2) && t[x].index + 1 < j < |t2[p].kids|
    ensures ChildOK(t2, p, j) && KeysOf(t2, t2[p].kids[j]) == KeysOf(t, t[p].kids[j - 1])
  {
    SplitFacts(t, root, order, x, l, r, p);
    var ci := t[x].index;
    var vp := t[p];
    assert ChildOK(t, p, j - 1);
    assert t2[p].kids[j] == vp.kids[j - 1];
    assert t2[p].vals[ci + 1..] == vp.vals[ci..];
    assert t2[p].vals[j - 1] == vp.vals[j - 2];
    assert j < |t2[p].vals| ==> t2[p].vals[j] == vp.vals[j - 1];
  }

  /** The two child slots of the parent that hold the halves. */
  lemma ParentHalves(t: Tree, root: Node, order: int, x: Node, l: Node, r: Node, p: Node, t2: Tree)
    requires ParentPlaced(t, root, order, x, l, r, p, t2)
    ensures t[x].index + 1 < |t2[p].kids| && ChildOK(t2, p, t[x].index) && ChildOK(t2, p, t[x].index + 1)
  {
    SplitFacts(t, root, order, x, l, r, p);
    var ci := t[x].index;
    var vp := t[p];
    var vals := t2[p].vals;
    assert ChildOK(t, p, ci);
    assert t2[p].kids[ci] == l && t2[p].kids[ci + 1] == r;
    assert 0 < ci ==> vals[ci - 1] == vp.vals[ci - 1];
    assert ci < |vp.vals| ==> vals[ci + 1] == vp.vals[ci];
    forall y | y in t2[l].keys
      ensures InSlot(vals, ci, y)
    {
      assert InSlot(vp.vals, ci, y);
    }
    forall y | y in t2[r].keys
      ensures InSlot(vals, ci + 1, y)
    {
      assert InSlot(vp.vals, ci, y);
    }
  }

  /** The median of `x` fits in the slot of `x` in its parent. */
  lemma MedianSlot(t: Tree, root: Node, order: int, x: Node, l: Node, r: Node, p: Node)
    requires Splittable(t, root, order, x, l, r, p) && x != root
    ensures 0 <= t[x].index <= |t[p].vals|
    ensures Sorted(Spliced(t[p].vals, t[x].index, t[x].vals[MinKeys(order)]))
    ensures forall y :: y in Spliced(t[p].vals, t[x].index, t[x].vals[MinKeys(order)]) <==> y in t[p].vals || y == t[x].vals[MinKeys(order)]
    ensures t[x].keys <= t[p].keys
  {
    SplitFacts(t, root, order, x, l, r, p);
    var ci := t[x].index;
    var vp := t[p];
    var m := t[x].vals[MinKeys(order)];
    assert ChildOK(t, p, ci);
    assert InSlot(vp.vals, ci, m);
    assert forall j :: 0 <= j < ci ==> vp.vals[j] <= vp.vals[ci - 1];
    SplicedSorted(vp.vals, ci, m);
    ChildFacts(t, root, order, p, ci);
  }

  /** A key of the parent's subtree is a key of the raised parent or of one of its children. */
  lemma ParentKeyDown(t: Tree, root: Node, order: int, x: Node, l: Node, r: Node, p: Node, t2: Tree, y: int)
    requires ParentPlaced(t, root, order, x, l, r, p, t2) && y in t[p].keys && y !in t2[p].vals
    ensures exists j :: 0 <= j < |t2[p].kids| && y in KeysOf(t2, t2[p].kids[j])
  {
    SplitFacts(t, root, order, x, l, r, p);
    MedianSlot(t, root, order, x, l, r, p);
    ParentHalves(t, root, order, x, l, r, p, t2);
    var ci := t[x].index;
    var vp := t[p];
    var m := t[x].vals[MinKeys(order)];
    var k :| 0 <= k < |vp.kids| && y in KeysOf(t, vp.kids[k]);
    if k < ci {
      ParentBefore(t, root, order, x, l, r, p, t2, k);
    } else if k == ci {
      assert y in KeysOf(t2, t2[p].kids[if y < m then ci else ci + 1]);
    } else {
      ParentAfter(t, root, order, x, l, r, p, t2, k + 1);
    }
  }

  /** A key of a child of the raised parent is a key of the parent's subtree. */
  lemma ParentKeyUp(t: Tree, root: Node, order: int, x: Node, l: Node, r: Node, p: Node, t2: Tree, y: int, j: int)
    requires ParentPlaced(t, root, order, x, l, r, p, t2)
    requires 0 <= j < |t2[p].kids| && y in KeysOf(t2, t2[p].kids[j])
    ensures y in t[p].keys
  {
    SplitFacts(t, root, order, x, l, r, p);
    MedianSlot(t, root, order, x, l, r, p);
    var ci := t[x].index;
    if j < ci {
      ParentBefore(t, root, order, x, l, r, p, t2, j);
      ChildFacts(t, root, order, p, j);
    } else if j <= ci + 1 {
      ParentHalves(t, root, order, x, l, r, p, t2);
      assert y in t[x].keys;
    } else {
      ParentAfter(t, root, order, x, l, r, p, t2, j);
      ChildFacts(t, root, order, p, j - 1);
    }
  }

  /** The parent's subtree keys are unchanged, and are still its own keys and its children's. */
  lemma ParentUnion(t: Tree, root: Node, order: int, x: Node, l: Node, r: Node, p: Node, t2: Tree)
    requires ParentPlaced(t, root, order, x, l, r, p, t2)
    ensures KeysUnion(t2, p)
  {
    SplitFacts(t, root, order, x, l, r, p);
    MedianSlot(t, root, order, x, l, r, p);
    var vp := t[p];
    var kids := t2[p].kids;
    assert t2[p].keys == vp.keys;
    forall y
      ensures y in vp.keys <==> (y in t2[p].vals || exists j :: 0 <= j < |kids| && y in KeysOf(t2, kids[j]))
    {
      if y in vp.keys && y !in t2[p].vals {
        ParentKeyDown(t, root, order, x, l, r, p, t2, y);
      }
      if exists j :: 0 <= j < |kids| && y in KeysOf(t2, kids[j]) {
        var j :| 0 <= j < |kids| && y in KeysOf(t2, kids[j]);
        ParentKeyUp(t, root, order, x, l, r, p, t2, y, j);
      }
    }
  }

  /** The parent after the split: the median at the slot of `x`, and the halves around it. */
  lemma ParentCore(t: Tree, root: Node, order: int, x: Node, l: Node, r: Node, p: Node, t2: Tree)
    requires ParentPlaced(t, root, order, x, l, r, p, t2)
    requires t[p].parent != null ==> t[p].parent in t && t[p].parent in t2 && t2[t[p].parent].kids == t[t[p].parent].kids
    ensures Core(t2, p, order)
  {
    SplitFacts(t, root, order, x, l, r, p);
    var ci := t[x].index;
    var vp := t[p];
    MedianSlot(t, root, order, x, l, r, p);
    forall j | 0 <= j < |t2[p].kids|
      ensures ChildOK(t2, p, j)
    {
      if j < ci {
        ParentBefore(t, root, order, x, l, r, p, t2, j);
      } else if j <= ci + 1 {
        ParentHalves(t, root, order, x, l, r, p, t2);
      } else {
        ParentAfter(t, root, order, x, l, r, p, t2, j);
      }
    }
    ParentUnion(t, root, order, x, l, r, p, t2);
    assert Up(t, p);
  }

  /** A new root holds the median alone, with the halves as its two children. */
  lemma NewRootCore(t: Tree, root: Node, order: int, x: Node, l: Node, r: Node, p: Node, t2: Tree)
    requires Placed(t, root, order, x, l, r, p, t2) && x == root
    requires t2[p] == View([t[x].vals[MinKeys(order)]], t[x].keys, t[x].height + 1, null, 0, [l, r])
    ensures Core(t2, p, order)
  {
    SplitFacts(t, root, order, x, l, r, p);
    assert ChildOK(t2, p, 0) && ChildOK(t2, p, 1);
  }

  /** The view of the parent after the split, raised or new. */
  ghost function ParentView(t: Tree, order: int, x: Node, l: Node, r: Node, p: Node): View
    requires x in t && 0 <= MinKeys(order) < |t[x].vals|
    requires p in t ==> 0 <= t[x].index <= |t[p].vals| && t[x].index < |t[p].kids|
  {
    var m := t[x].vals[MinKeys(order)];
    if p in t then Raised(t[p], t[x].index, m, l, r) else View([m], t[x].keys, t[x].height + 1, null, 0, [l, r])
  }

  /** `t2` is, node by node, the tree after the split. */
  ghost predicate Layout(t: Tree, root: Node, order: int, x: Node, l: Node, r: Node, p: Node, t2: Tree)
  {
    Placed(t, root, order, x, l, r, p, t2) &&
    t2.Keys == (t.Keys - {x}) + {l, r, p} &&
    t2[p] == ParentView(t, order, x, l, r, p) &&
    forall c :: c in t && c != x && c != p ==> t2[c] == Moved(t[c], x, l, r, p, t[x].index, MinKeys(order))
  }

  lemma SplitLayout(t: Tree, root: Node, order: int, x: Node, l: Node, r: Node, p: Node)
    requires Splittable(t, root, order, x, l, r, p)
    ensures Layout(t, root, order, x, l, r, p, SplitTree(t, root, order, x, l, r, p))
  {
  }

  /** In the split tree, the children of `x` are the children of the halves. */
  lemma SplitHalfKids(t: Tree, root: Node, order: int, x: Node, l: Node, r: Node, p: Node, t2: Tree)
    requires Layout(t, root, order, x, l, r, p, t2) && t[x].height > 0
    ensures HalfKids(t, x, t2, l, 0, MinKeys(order))
    ensures HalfKids(t, x, t2, r, MinKeys(order) + 1, order)
  {
    forall k | 0 <= k <= order
      ensures t[x].kids[k] in t && t[x].kids[k] in t2
      ensures t2[t[x].kids[k]] == Moved(t[t[x].kids[k]], x, l, r, p, t[x].index, MinKeys(order))
      ensures t[t[x].kids[k]].parent == x && t[t[x].kids[k]].index == k
    {
      KidOfX(t, root, order, x, l, r, p, k);
    }
  }

  /** In the split tree, the other children of the parent keep their views, renumbered past the halves. */
  lemma SplitParentKids(t: Tree, root: Node, order: int, x: Node, l: Node, r: Node, p: Node, t2: Tree)
    requires Layout(t, root, order, x, l, r, p, t2) && x != root
    ensures ParentKids(t, p, t[x].index, t2)
  {
    SplitFacts(t, root, order, x, l, r, p);
    forall k | 0 <= k < |t[p].kids| && k != t[x].index
      ensures t[p].kids[k] in t && t[p].kids[k] in t2
      ensures t2[t[p].kids[k]] == t[t[p].kids[k]].(index := if k < t[x].index then k else k + 1)
    {
      assert ChildOK(t, p, k);
      assert ChildOK(t, p, t[x].index);
    }
  }

  /** The children of a node other than `x` and its parent keep their views, apart from the parent itself. */
  lemma OtherDown(t: Tree, root: Node, order: int, x: Node, l: Node, r: Node, p: Node, t2: Tree, c: Node)
    requires Layout(t, root, order, x, l, r, p, t2) && c in t && c != x && c != p
    ensures c in t2 && Down(t2, c)
  {
    SplitFacts(t, root, order, x, l, r, p);
    assert Core(t, c, order);
    assert t2[c] == Moved(t[c], x, l, r, p, t[x].index, MinKeys(order));
    forall j | 0 <= j < |t[c].kids|
      ensures ChildOK(t2, c, j) && KeysOf(t2, t[c].kids[j]) == KeysOf(t, t[c].kids[j])
    {
      assert ChildOK(t, c, j);
      var k := t[c].kids[j];
      if k == p {
        assert t2[p] == Raised(t[p], t[x].index, t[x].vals[MinKeys(order)], l, r);
      } else {
        assert t2[k] == t[k];
      }
    }
    if t[c].height > 0 {
      UnionKept(t, t2, c);
    }
  }

  /** A node other than `x` and its parent is listed by its new parent at its new slot. */
  lemma OtherUp(t: Tree, root: Node, order: int, x: Node, l: Node, r: Node, p: Node, t2: Tree, c: Node)
    requires Layout(t, root, order, x, l, r, p, t2) && c in t && c != x && c != p
    ensures c in t2 && Up(t2, c)
  {
    assert Core(t, c, order) && Up(t, c);
    var q := t[c].parent;
    if q == x {
      OtherUpFromX(t, root, order, x, l, r, p, t2, c);
    } else if q == p && q in t {
      OtherUpFromP(t, root, order, x, l, r, p, t2, c);
    } else if q != null {
      assert t2[c] == t[c];
      assert t2[q] == Moved(t[q], x, l, r, p, t[x].index, MinKeys(order));
    }
  }

  lemma OtherUpFromX(t: Tree, root: Node, order: int, x: Node, l: Node, r: Node, p: Node, t2: Tree, c: Node)
    requires Layout(t, root, order, x, l, r, p, t2) && c in t && c != x && c != p && t[c].parent == x
    ensures c in t2 && Up(t2, c)
  {
    SplitFacts(t, root, order, x, l, r, p);
    assert Core(t, c, order) && Up(t, c);
    var med := MinKeys(order);
    var i := t[c].index;
    assert t[x].kids[i] == c;
    if i <= med {
      assert t2[c] == t[c].(parent := l);
      assert t2[l].kids[i] == t[x].kids[i];
    } else {
      assert t2[c] == t[c].(parent := r, index := i - med - 1);
      assert t2[r].kids[i - med - 1] == t[x].kids[i];
    }
  }

  lemma OtherUpFromP(t: Tree, root: Node, order: int, x: Node, l: Node, r: Node, p: Node, t2: Tree, c: Node)
    requires Layout(t, root, order, x, l, r, p, t2) && c in t && c != x && c != p && t[c].parent == p && p in t
    ensures c in t2 && Up(t2, c)
  {
    SplitFacts(t, root, order, x, l, r, p);
    assert Core(t, c, order) && Up(t, c);
    var ci := t[x].index;
    var i := t[c].index;
    assert t[p].kids[i] == c && i != ci;
    assert t2[p].kids == t[p].kids[..ci] + [l, r] + t[p].kids[ci + 1..];
    if i < ci {
      assert t2[c] == t[c];
      assert t2[p].kids[i] == c;
    } else {
      assert t2[c] == t[c].(index := i + 1);
      assert t2[p].kids[i + 1] == c;
    }
  }

  /** The whole split tree is sound, given its layout. */
  lemma LayoutShape(t: Tree, root: Node, order: int, x: Node, l: Node, r: Node, p: Node, t2: Tree)
    requires Layout(t, root, order, x, l, r, p, t2)
    ensures Shape(t2, NewRoot(root, x, p), order)
    ensures t2[NewRoot(root, x, p)].keys == t[root].keys
  {
    LayoutCore(t, root, order, x, l, r, p, t2);
    LayoutRoot(t, root, order, x, l, r, p, t2);
  }

  /** Every node of the split tree satisfies the local invariant. */
  lemma LayoutCore(t: Tree, root: Node, order: int, x: Node, l: Node, r: Node, p: Node, t2: Tree)
    requires Layout(t, root, order, x, l, r, p, t2)
    ensures forall c :: c in t2 ==> Core(t2, c, order)
  {
    SplitFacts(t, root, order, x, l, r, p);
    var med := MinKeys(order);
    var ci := t[x].index;
    if t[x].height > 0 {
      SplitHalfKids(t, root, order, x, l, r, p, t2);
    }
    HalfCore(t, root, order, x, t2, l, 0, med, p, ci);
    HalfCore(t, root, order, x, t2, r, med + 1, order, p, ci + 1);
    if x == root {
      NewRootCore(t, root, order, x, l, r, p, t2);
    } else {
      OldParentCore(t, root, order, x, l, r, p, t2);
    }
    forall c | c in t2
      ensures Core(t2, c, order)
    {
      if c != l && c != r && c != p {
        OtherCore(t, root, order, x, l, r, p, t2, c);
      }
    }
  }

  /** The parent of a split non-root node satisfies the local invariant with its new key and child. */
  lemma OldParentCore(t: Tree, root: Node, order: int, x: Node, l: Node, r: Node, p: Node, t2: Tree)
    requires Layout(t, root, order, x, l, r, p, t2) && x != root
    ensures Core(t2, p, order)
  {
    SplitFacts(t, root, order, x, l, r, p);
    SplitParentKids(t, root, order, x, l, r, p, t2);
    if t[p].parent != null {
      ParentStep(t, root, order, p);
      assert t[p].parent != x;
    }
    ParentCore(t, root, order, x, l, r, p, t2);
  }


  lemma OtherCore(t: Tree, root: Node, order: int, x: Node, l: Node, r: Node, p: Node, t2: Tree, c: Node)
    requires Layout(t, root, order, x, l, r, p, t2) && c in t2 && c != l && c != r && c != p
    ensures Core(t2, c, order)
  {
    OtherDown(t, root, order, x, l, r, p, t2, c);
    OtherUp(t, root, order, x, l, r, p, t2, c);
    assert Core(t, c, order);
  }

  /** After the split the root is the one parentless node, at the greatest height, and holds the same keys. */
  lemma LayoutRoot(t: Tree, root: Node, order: int, x: Node, l: Node, r: Node, p: Node, t2: Tree)
    requires Layout(t, root, order, x, l, r, p, t2)
    ensures NewRoot(root, x, p) in t2 && t2[NewRoot(root, x, p)].parent == null && t2[NewRoot(root, x, p)].index == 0
    ensures forall n :: n in t2 && t2[n].parent == null ==> n == NewRoot(root, x, p)
    ensures forall n :: n in t2 ==> t2[n].height <= t2[NewRoot(root, x, p)].height
    ensures t2[NewRoot(root, x, p)].keys == t[root].keys
  {
    SplitFacts(t, root, order, x, l, r, p);
    var ci := t[x].index;
    var med := MinKeys(order);
    if x != root {
      assert t2[root] == (if root == p then Raised(t[p], ci, t[x].vals[med], l, r) else Moved(t[root], x, l, r, p, ci, med));
    }
    forall n | n in t2
      ensures t2[n].parent == null ==> n == NewRoot(root, x, p)
      ensures t2[n].height <= t2[NewRoot(root, x, p)].height
    {
      if n != l && n != r && n != p {
        assert t2[n] == Moved(t[n], x, l, r, p, ci, med);
      }
    }
  }

  /**
   * Splitting an overflowing node keeps the shape invariant: the halves, the raised
   * parent (or the new root) and every other node are sound, and the tree's key set
   * is unchanged.
   */
  lemma SplitShape(t: Tree, root: Node, order: int, x: Node, l: Node, r: Node, p: Node)
    requires Splittable(t, root, order, x, l, r, p)
    ensures Shape(SplitTree(t, root, order, x, l, r, p), NewRoot(root, x, p), order)
    ensures SplitTree(t, root, order, x, l, r, p)[NewRoot(root, x, p)].keys == t[root].keys
  {
    SplitLayout(t, root, order, x, l, r, p);
    LayoutShape(t, root, order, x, l, r, p, SplitTree(t, root, order, x, l, r, p));
  }
}
