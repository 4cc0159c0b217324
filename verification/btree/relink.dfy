/**
 * The stored side of `split` (BTree/Tema.cpp:104-188): once the node surgery has
 * moved keys and child pointers and repaired the back-links, the fields of every
 * node agree with its view in the abstract split tree.
 */
module BTreeRelink {
  import opened BTreeNodes
  import opened BTreeShape
  import opened BTreeGrow
  import opened BTreeSplit
  import opened BTreeMoves

  /** The link fields of every node of the split tree agree with its view, given what the surgery wrote. */
  lemma SplitLinked(t: Tree, root: Node, order: int, x: Node, l: Node, r: Node, p: Node, t2: Tree,
                    xc: seq<Node?>, pc: seq<Node?>)
    requires Layout(t, root, order, x, l, r, p, t2)
    requires Slots(xc, t[x].kids, order)
    requires p in t ==> Slots(pc, t[p].kids, order)
    requires p in t ==> p.parent == t[p].parent && p.childIndex == t[p].index
    requires p !in t ==> pc == seq(order + 1, _ => null) && p.parent == null && p.childIndex == 0
    requires forall c :: c in t && c != x && c != p ==> Slots(c.children, t[c].kids, order)
    requires forall c :: c in t && c != x && t[c].parent != x ==> c.parent == t[c].parent
    requires forall c :: c in t && c != x && t[c].parent != x && !(t[c].parent == p && t[c].index > t[x].index) ==>
      c.childIndex == t[c].index
    requires forall j :: 0 <= j <= order && xc[j] != null ==>
      xc[j].parent == (if j <= MinKeys(order) then l else r) &&
      xc[j].childIndex == (if j <= MinKeys(order) then j else j - MinKeys(order) - 1)
    requires p in t ==> forall j :: t[x].index < j <= |t[p].vals| && pc[j] != null ==> pc[j].childIndex == j + 1
    requires l.parent == p && l.childIndex == t[x].index && r.parent == p && r.childIndex == t[x].index + 1
    requires |l.children| == order + 1 &&
      forall k :: 0 <= k <= order ==> l.children[k] == if k <= MinKeys(order) then xc[k] else null
    requires |r.children| == order + 1 &&
      forall k :: 0 <= k <= order ==> r.children[k] == if k < order - MinKeys(order) then xc[MinKeys(order) + 1 + k] else null
    requires |p.children| == order + 1 &&
      forall k {:trigger p.children[k]} :: 0 <= k <= order ==>
        p.children[k] ==
          if k == t[x].index then l else if k == t[x].index + 1 then r
          else if p in t && t[x].index + 1 < k <= |t[p].vals| + 1 then pc[k - 1] else pc[k]
    ensures forall n :: n in t2 ==> Linked(n, t2[n], order)
  {
    SplitFacts(t, root, order, x, l, r, p);
    var med := MinKeys(order);
    var ci := t[x].index;
    forall n | n in t2
      ensures Linked(n, t2[n], order)
    {
      if n == l || n == r {
        HalfLinked(t, root, order, x, l, r, p, t2, xc, n);
      } else if n == p {
        ParentLinked(t, root, order, x, l, r, p, t2, pc);
      } else {
        OtherLinked(t, root, order, x, l, r, p, t2, xc, pc, n);
      }
    }
  }

  /** The parent of the halves, raised or new, is linked. */
  lemma ParentLinked(t: Tree, root: Node, order: int, x: Node, l: Node, r: Node, p: Node, t2: Tree, pc: seq<Node?>)
    requires Layout(t, root, order, x, l, r, p, t2)
    requires p in t ==> Slots(pc, t[p].kids, order) && p.parent == t[p].parent && p.childIndex == t[p].index
    requires p !in t ==> pc == seq(order + 1, _ => null) && p.parent == null && p.childIndex == 0
    requires |p.children| == order + 1 &&
      forall k {:trigger p.children[k]} :: 0 <= k <= order ==>
        p.children[k] ==
          if k == t[x].index then l else if k == t[x].index + 1 then r
          else if p in t && t[x].index + 1 < k <= |t[p].vals| + 1 then pc[k - 1] else pc[k]
    ensures Linked(p, t2[p], order)
  {
    SplitFacts(t, root, order, x, l, r, p);
    var ci := t[x].index;
    if p in t {
      assert Core(t, p, order);
      var kids := t[p].kids[..ci] + [l, r] + t[p].kids[ci + 1..];
      assert t2[p].kids == kids;
      forall k | 0 <= k <= order
        ensures p.children[k] == if k < |kids| then kids[k] else null
      {
        if k < ci {
          assert kids[k] == t[p].kids[k];
        } else if k == ci {
          assert kids[k] == l;
        } else if k == ci + 1 {
          assert kids[k] == r;
        } else if k < |kids| {
          assert kids[k] == t[p].kids[k - 1];
        } else {
          assert pc[k] == null;
        }
      }
    } else {
      assert t2[p].kids == [l, r] && ci == 0;
      forall k | 0 <= k <= order
        ensures p.children[k] == if k < 2 then [l, r][k] else null
      {
        assert pc[k] == null;
      }
    }
  }

  /** A node other than the halves and their parent is linked, whether or not the surgery moved it. */
  lemma OtherLinked(t: Tree, root: Node, order: int, x: Node, l: Node, r: Node, p: Node, t2: Tree,
                    xc: seq<Node?>, pc: seq<Node?>, n: Node)
    requires Layout(t, root, order, x, l, r, p, t2) && n in t2 && n != l && n != r && n != p
    requires Slots(xc, t[x].kids, order)
    requires p in t ==> Slots(pc, t[p].kids, order)
    requires forall c :: c in t && c != x && c != p ==> Slots(c.children, t[c].kids, order)
    requires forall c :: c in t && c != x && t[c].parent != x ==> c.parent == t[c].parent
    requires forall c :: c in t && c != x && t[c].parent != x && !(t[c].parent == p && t[c].index > t[x].index) ==>
      c.childIndex == t[c].index
    requires forall j :: 0 <= j <= order && xc[j] != null ==>
      xc[j].parent == (if j <= MinKeys(order) then l else r) &&
      xc[j].childIndex == (if j <= MinKeys(order) then j else j - MinKeys(order) - 1)
    requires p in t ==> forall j :: t[x].index < j <= |t[p].vals| && pc[j] != null ==> pc[j].childIndex == j + 1
    ensures Linked(n, t2[n], order)
  {
    SplitFacts(t, root, order, x, l, r, p);
    var med := MinKeys(order);
    var ci := t[x].index;
    assert t2[n] == Moved(t[n], x, l, r, p, ci, med);
    assert Core(t, n, order);
    if t[n].parent == x {
      assert xc[t[n].index] == n;
    } else if t[n].parent == p && t[n].index > ci {
      assert Core(t, p, order);
      assert pc[t[n].index] == n;
    }
  }

  /** A half of the split node is linked: its parent is `p` and its children are a run of those of `x`. */
  lemma HalfLinked(t: Tree, root: Node, order: int, x: Node, l: Node, r: Node, p: Node, t2: Tree,
                   xc: seq<Node?>, h: Node)
    requires Layout(t, root, order, x, l, r, p, t2) && (h == l || h == r)
    requires Slots(xc, t[x].kids, order)
    requires l.parent == p && l.childIndex == t[x].index && r.parent == p && r.childIndex == t[x].index + 1
    requires |l.children| == order + 1 &&
      forall k :: 0 <= k <= order ==> l.children[k] == if k <= MinKeys(order) then xc[k] else null
    requires |r.children| == order + 1 &&
      forall k :: 0 <= k <= order ==> r.children[k] == if k < order - MinKeys(order) then xc[MinKeys(order) + 1 + k] else null
    ensures Linked(h, t2[h], order)
  {
    SplitFacts(t, root, order, x, l, r, p);
  }

  /**
   * The stored keys of every node of the split tree but the parent agree with its
   * view, and every such node is within its fill bounds; the parent holds its old
   * keys, with the median due at the slot of `x`.
   */
  lemma SplitStored(t: Tree, root: Node, order: int, x: Node, l: Node, r: Node, p: Node, t2: Tree)
    requires Layout(t, root, order, x, l, r, p, t2)
    requires forall c :: c in t && c != x ==> Stored(c, t[c], order) && Fill(t[c], c == root, order)
    requires Stored(x, t[x], order)
    requires l.degree == MinKeys(order) && |l.data| == order && forall k :: 0 <= k < MinKeys(order) ==> l.data[k] == x.data[k]
    requires r.degree == order - MinKeys(order) - 1 && |r.data| == order &&
      forall k :: 0 <= k < order - MinKeys(order) - 1 ==> r.data[k] == x.data[MinKeys(order) + 1 + k]
    requires p !in t ==> p.degree == 0 && |p.data| == order
    ensures forall n :: n in t2 && n != p ==> Stored(n, t2[n], order) && Fill(t2[n], n == NewRoot(root, x, p), order)
    ensures 0 <= t[x].index < |t2[p].vals| <= order && t2[p].vals[t[x].index] == t[x].vals[MinKeys(order)]
    ensures |p.data| == order && p.degree + 1 == |t2[p].vals|
    ensures p.data[..p.degree] == t2[p].vals[..t[x].index] + t2[p].vals[t[x].index + 1..]
    ensures p != NewRoot(root, x, p) ==> |t2[p].vals| >= MinKeys(order)
  {
    SplitFacts(t, root, order, x, l, r, p);
    var med := MinKeys(order);
    var ci := t[x].index;
    forall n | n in t2 && n != p
      ensures Stored(n, t2[n], order) && Fill(t2[n], n == NewRoot(root, x, p), order)
    {
      if n == l || n == r {
        HalfStored(t, root, order, x, l, r, p, t2, n);
      } else {
        assert t2[n] == Moved(t[n], x, l, r, p, ci, med);
      }
    }
    if p in t {
      assert Stored(p, t[p], order) && Fill(t[p], p == root, order);
      assert t2[p].vals == Spliced(t[p].vals, ci, t[x].vals[med]);
      assert t2[p].vals[..ci] + t2[p].vals[ci + 1..] == t[p].vals;
    }
  }

  /** A half of the split node stores its run of the keys of `x` and is at least half full. */
  lemma HalfStored(t: Tree, root: Node, order: int, x: Node, l: Node, r: Node, p: Node, t2: Tree, h: Node)
    requires Layout(t, root, order, x, l, r, p, t2) && (h == l || h == r)
    requires Stored(x, t[x], order)
    requires l.degree == MinKeys(order) && |l.data| == order && forall k :: 0 <= k < MinKeys(order) ==> l.data[k] == x.data[k]
    requires r.degree == order - MinKeys(order) - 1 && |r.data| == order &&
      forall k :: 0 <= k < order - MinKeys(order) - 1 ==> r.data[k] == x.data[MinKeys(order) + 1 + k]
    ensures Stored(h, t2[h], order) && Fill(t2[h], false, order)
  {
    SplitFacts(t, root, order, x, l, r, p);
    var med := MinKeys(order);
    if h == l {
      assert l.data[..l.degree] == t[x].vals[..med];
    } else {
      assert r.data[..r.degree] == t[x].vals[med + 1..];
    }
  }

  /** The child slots of a node hold distinct nodes, each a child of it at that slot and one level lower. */
  lemma SlotKids(t: Tree, root: Node, order: int, n: Node, s: seq<Node?>)
    requires Shape(t, root, order) && n in t && Slots(s, t[n].kids, order)
    ensures Injective(s)
    ensures forall j :: 0 <= j < |s| && s[j] != null ==>
      j < |t[n].kids| && s[j] == t[n].kids[j] && s[j] in t && t[s[j]].parent == n && t[s[j]].index == j &&
      t[s[j]].height + 1 == t[n].height
  {
    assert Core(t, n, order);
    forall j | 0 <= j < |s| && s[j] != null
      ensures j < |t[n].kids| && s[j] == t[n].kids[j] && s[j] in t && t[s[j]].parent == n && t[s[j]].index == j
      ensures t[s[j]].height + 1 == t[n].height
    {
      assert ChildOK(t, n, j);
    }
  }

  /** The parent of `x` is neither a child of `x` nor of itself. */
  lemma ParentAbove(t: Tree, root: Node, order: int, x: Node, l: Node, r: Node, p: Node)
    requires Splittable(t, root, order, x, l, r, p)
    ensures p in t ==> t[p].parent != x && t[p].parent != p
  {
    SplitFacts(t, root, order, x, l, r, p);
    if p in t && t[p].parent != null {
      assert Core(t, root, order);
      ParentStep(t, root, order, p);
    }
  }

  /** What the surgery of `split` needs of the nodes it touches, drawn from the tree before it. */
  lemma SplitPrep(t: Tree, root: Node, order: int, x: Node, l: Node, r: Node, p: Node, t2: Tree)
    requires Layout(t, root, order, x, l, r, p, t2)
    requires forall c :: c in t && c != x ==> Linked(c, t[c], order)
    requires Slots(x.children, t[x].kids, order)
    requires p !in t ==> p.children == seq(order + 1, _ => null) && p.degree == 0
    requires p in t ==> Stored(p, t[p], order)
    ensures Injective(x.children) && Injective(p.children)
    ensures forall j :: 0 <= j < |x.children| && x.children[j] != null ==>
      x.children[j] in t && t[x.children[j]].parent == x && x.children[j] != x && x.children[j] != p
    ensures 0 <= t[x].index <= p.degree && p.degree + 1 < |p.children| == order + 1
    ensures forall j :: t[x].index < j <= p.degree && p.children[j] != null ==>
      p in t && p.children[j] in t && t[p.children[j]].parent == p && t[p.children[j]].index == j &&
      p.children[j].childIndex == j && p.children[j] != x
  {
    SplitFacts(t, root, order, x, l, r, p);
    SlotKids(t, root, order, x, x.children);
    if p in t {
      assert Core(t, p, order) && Linked(p, t[p], order);
      SlotKids(t, root, order, p, p.children);
      forall j | t[x].index < j <= p.degree && p.children[j] != null
        ensures p.children[j].childIndex == j
      {
        assert Linked(p.children[j], t[p.children[j]], order);
      }
    } else {
      forall j | 0 <= j < |p.children|
        ensures p.children[j] == null
      {
      }
    }
  }

  /**
   * The node surgery of `split` together with what it leaves alone: the nodes of the
   * tree before it keep their child slots, back-links and stored keys, apart from `x`,
   * its children and the later children of `p`.
   */
  method SplitFramed(ghost t: Tree, order: int, x: Node, p: Node, left: Node, right: Node, med: int,
                     ghost xc: seq<Node?>, ghost pc: seq<Node?>)
    requires x != p && x != left && x != right && p != left && p != right && left != right
    requires 0 <= med < x.degree <= |x.data| && x.degree + 1 == |x.children|
    requires left.degree == 0 && right.degree == 0
    requires x.degree <= |left.data| && x.degree <= |left.children| && x.degree <= |right.data| && x.degree <= |right.children|
    requires 0 <= x.childIndex <= p.degree && p.degree + 1 < |p.children|
    requires x.children == xc && p.children == pc && Injective(xc) && Injective(pc)
    requires forall j :: 0 <= j < |xc| && xc[j] != null ==> xc[j] != x && xc[j] != p
    requires forall j, k :: 0 <= j < |xc| && x.childIndex < k <= p.degree && xc[j] != null ==> xc[j] != pc[k]
    requires forall j :: x.childIndex < j <= p.degree && pc[j] != null ==> pc[j].childIndex == j && pc[j] != x
    requires left !in t && right !in t && (p in t ==> t[p].parent != x && t[p].parent != p)
    requires forall c :: c in t && c != x ==> Linked(c, t[c], order) && Stored(c, t[c], order)
    requires forall j :: 0 <= j < |xc| && xc[j] != null ==> xc[j] in t && t[xc[j]].parent == x
    requires forall j :: x.childIndex < j <= p.degree && pc[j] != null ==>
      pc[j] in t && t[pc[j]].parent == p && t[pc[j]].index == j
    modifies x`children, left`data, left`children, left`degree, right`data, right`children, right`degree, p`children
    modifies Among(xc, 0, |xc|)`parent, Among(xc, 0, |xc|)`childIndex
    modifies Among(pc, x.childIndex + 1, p.degree + 1)`childIndex
    ensures x.childIndex == old(x.childIndex)
    ensures left.degree == med && right.degree == x.degree - med - 1
    ensures |left.data| == old(|left.data|) && |right.data| == old(|right.data|)
    ensures forall k :: 0 <= k < med ==> left.data[k] == x.data[k]
    ensures forall k :: 0 <= k < x.degree - med - 1 ==> right.data[k] == x.data[med + 1 + k]
    ensures |left.children| == old(|left.children|) && |right.children| == old(|right.children|)
    ensures forall k :: 0 <= k < |left.children| ==>
      left.children[k] == if k <= med then xc[k] else old(left.children[k])
    ensures forall k :: 0 <= k < |right.children| ==>
      right.children[k] == if k < x.degree - med then xc[med + 1 + k] else old(right.children[k])
    ensures |p.children| == old(|p.children|)
    ensures forall k {:trigger p.children[k]} :: 0 <= k < |p.children| ==>
      p.children[k] ==
        if k == x.childIndex then left else if k == x.childIndex + 1 then right
        else if x.childIndex + 1 < k <= p.degree + 1 then pc[k - 1] else pc[k]
    ensures forall j :: 0 <= j <= x.degree && xc[j] != null ==>
      xc[j].parent == (if j <= med then left else right) &&
      xc[j].childIndex == (if j <= med then j else j - med - 1)
    ensures forall j :: x.childIndex < j <= p.degree && pc[j] != null ==> pc[j].childIndex == j + 1
    ensures forall c :: c in t && c != x && c != p ==> Slots(c.children, t[c].kids, order)
    ensures forall c :: c in t && c != x && t[c].parent != x ==> c.parent == t[c].parent
    ensures forall c :: c in t && c != x && t[c].parent != x && !(t[c].parent == p && t[c].index > x.childIndex) ==>
      c.childIndex == t[c].index
    ensures forall c :: c in t && c != x ==> Stored(c, t[c], order)
    ensures left.parent == old(left.parent) && left.childIndex == old(left.childIndex)
    ensures right.parent == old(right.parent) && right.childIndex == old(right.childIndex)
    ensures p.parent == old(p.parent) && p.childIndex == old(p.childIndex)
  {
    SplitEntries(x, p, left, right, med, xc, pc);
    forall c | c in t && c != x && c != p
      ensures Slots(c.children, t[c].kids, order)
    {
      assert old(Linked(c, t[c], order));
    }
    forall c | c in t && c != x && t[c].parent != x
      ensures c.parent == t[c].parent
      ensures !(t[c].parent == p && t[c].index > x.childIndex) ==> c.childIndex == t[c].index
    {
      assert old(Linked(c, t[c], order));
    }
    forall c | c in t && c != x
      ensures Stored(c, t[c], order)
    {
      assert old(Stored(c, t[c], order));
    }
  }

  /**
   * The node surgery of `split` (Tema.cpp:123-177), and what it leaves of the fields of
   * the nodes it did not touch. `xc` and `pc` are the child slots of `x` and `p` before it.
   */
  method SplitMoves(ghost t: Tree, order: int, x: Node, l: Node, r: Node, p: Node)
      returns (ghost xc: seq<Node?>, ghost pc: seq<Node?>)
    requires order >= 3 && x in t && l !in t && r !in t && l != r && p != x && p != l && p != r
    requires p in t ==> t[p].parent != x && t[p].parent != p
    requires forall c :: c in t && c != x ==> Linked(c, t[c], order)
    requires forall c :: c in t && c != x ==> Stored(c, t[c], order)
    requires Slots(x.children, t[x].kids, order) && Stored(x, t[x], order) && |t[x].vals| == order
    requires x.childIndex == t[x].index
    requires l.degree == 0 && |l.data| == order && l.children == seq(order + 1, _ => null)
    requires l.parent == p && l.childIndex == t[x].index
    requires r.degree == 0 && |r.data| == order && r.children == seq(order + 1, _ => null)
    requires r.parent == p && r.childIndex == t[x].index + 1
    requires p !in t ==> p.degree == 0 && |p.data| == order && p.children == seq(order + 1, _ => null)
    requires p !in t ==> p.parent == null && p.childIndex == 0
    requires Injective(x.children) && Injective(p.children)
    requires forall j :: 0 <= j < |x.children| && x.children[j] != null ==>
      x.children[j] in t && t[x.children[j]].parent == x && x.children[j] != x && x.children[j] != p
    requires 0 <= t[x].index <= p.degree && p.degree + 1 < |p.children| == order + 1
    requires forall j :: t[x].index < j <= p.degree && p.children[j] != null ==>
      p in t && p.children[j] in t && t[p.children[j]].parent == p && t[p.children[j]].index == j &&
      p.children[j].childIndex == j && p.children[j] != x
    modifies x`children, l`data, l`children, l`degree, r`data, r`children, r`degree, p`children
    modifies (set c | c in t && t[c].parent == x)`parent, (set c | c in t && t[c].parent == x)`childIndex
    modifies (set c | c in t && t[c].parent == p && t[c].index > t[x].index)`childIndex
    ensures Slots(xc, t[x].kids, order)
    ensures p in t ==> Slots(pc, t[p].kids, order)
    ensures p in t ==> p.parent == t[p].parent && p.childIndex == t[p].index
    ensures p !in t ==> pc == seq(order + 1, _ => null) && p.parent == null && p.childIndex == 0
    ensures forall c :: c in t && c != x && c != p ==> Slots(c.children, t[c].kids, order)
    ensures forall c :: c in t && c != x && t[c].parent != x ==> c.parent == t[c].parent
    ensures forall c :: c in t && c != x && t[c].parent != x && !(t[c].parent == p && t[c].index > t[x].index) ==>
      c.childIndex == t[c].index
    ensures forall j :: 0 <= j <= order && xc[j] != null ==>
      xc[j].parent == (if j <= MinKeys(order) then l else r) &&
      xc[j].childIndex == (if j <= MinKeys(order) then j else j - MinKeys(order) - 1)
    ensures |pc| == order + 1 && (p in t ==> p.degree == |t[p].vals| < order)
    ensures p in t ==> forall j :: t[x].index < j <= |t[p].vals| && pc[j] != null ==> pc[j].childIndex == j + 1
    ensures l.parent == p && l.childIndex == t[x].index && r.parent == p && r.childIndex == t[x].index + 1
    ensures |l.children| == order + 1 &&
      forall k :: 0 <= k <= order ==> l.children[k] == if k <= MinKeys(order) then xc[k] else null
    ensures |r.children| == order + 1 &&
      forall k :: 0 <= k <= order ==> r.children[k] == if k < order - MinKeys(order) then xc[MinKeys(order) + 1 + k] else null
    ensures |p.children| == order + 1 &&
      forall k {:trigger p.children[k]} :: 0 <= k <= order ==>
        p.children[k] ==
          if k == t[x].index then l else if k == t[x].index + 1 then r
          else if p in t && t[x].index + 1 < k <= |t[p].vals| + 1 then pc[k - 1] else pc[k]
    ensures forall c :: c in t && c != x ==> Stored(c, t[c], order)
    ensures Stored(x, t[x], order)
    ensures l.degree == MinKeys(order) && |l.data| == order && forall k :: 0 <= k < MinKeys(order) ==> l.data[k] == x.data[k]
    ensures r.degree == order - MinKeys(order) - 1 && |r.data| == order &&
      forall k :: 0 <= k < order - MinKeys(order) - 1 ==> r.data[k] == x.data[MinKeys(order) + 1 + k]
    ensures p !in t ==> p.degree == 0 && |p.data| == order
    ensures x.childIndex == t[x].index && x.data == old(x.data)
  {
    xc := x.children;
    pc := p.children;
    SplitFramed(t, order, x, p, l, r, MinKeys(order), xc, pc);
  }

  /**
   * The node surgery of `split` (Tema.cpp:123-177) with what it achieves: afterwards
   * the fields of every node of the split tree `t2` agree with its view, except that
   * the median is not yet stored in the parent `p`.
   */
  method SplitNode(ghost t: Tree, ghost root: Node, order: int, x: Node, l: Node, r: Node, p: Node, ghost t2: Tree)
    requires Layout(t, root, order, x, l, r, p, t2)
    requires forall c :: c in t && c != x ==> Linked(c, t[c], order)
    requires forall c :: c in t && c != x ==> Stored(c, t[c], order) && Fill(t[c], c == root, order)
    requires Slots(x.children, t[x].kids, order) && Stored(x, t[x], order) && x.childIndex == t[x].index
    requires l.degree == 0 && |l.data| == order && l.children == seq(order + 1, _ => null)
    requires l.parent == p && l.childIndex == t[x].index
    requires r.degree == 0 && |r.data| == order && r.children == seq(order + 1, _ => null)
    requires r.parent == p && r.childIndex == t[x].index + 1
    requires p !in t ==> p.degree == 0 && |p.data| == order && p.children == seq(order + 1, _ => null)
    requires p !in t ==> p.parent == null && p.childIndex == 0
    modifies x`children, l`data, l`children, l`degree, r`data, r`children, r`degree, p`children
    modifies (set c | c in t && t[c].parent == x)`parent, (set c | c in t && t[c].parent == x)`childIndex
    modifies (set c | c in t && t[c].parent == p && t[c].index > t[x].index)`childIndex
    ensures forall n :: n in t2 ==> Linked(n, t2[n], order)
    ensures forall n :: n in t2 && n != p ==> Stored(n, t2[n], order) && Fill(t2[n], n == NewRoot(root, x, p), order)
    ensures 0 <= t[x].index < |t2[p].vals| <= order && t2[p].vals[t[x].index] == t[x].vals[MinKeys(order)]
    ensures |p.data| == order && p.degree + 1 == |t2[p].vals|
    ensures p.data[..p.degree] == t2[p].vals[..t[x].index] + t2[p].vals[t[x].index + 1..]
    ensures p != NewRoot(root, x, p) ==> |t2[p].vals| >= MinKeys(order)
    ensures x.childIndex == t[x].index && x.data == old(x.data) && x.data[MinKeys(order)] == t[x].vals[MinKeys(order)]
  {
    SplitFacts(t, root, order, x, l, r, p);
    SplitPrep(t, root, order, x, l, r, p, t2);
    ParentAbove(t, root, order, x, l, r, p);
    ghost var xc, pc := SplitMoves(t, order, x, l, r, p);
    SplitLinked(t, root, order, x, l, r, p, t2, xc, pc);
    SplitStored(t, root, order, x, l, r, p, t2);
  }

  /**
   * The new nodes of `split` (Tema.cpp:113-121): a new parent above `x` when `x` is the
   * root, and the two empty halves that are to take the slots `x.childIndex` and the one
   * after it there. Nothing else changes.
   */
  method NewHalves(ghost t: Tree, root: Node, order: int, x: Node) returns (p: Node, l: Node, r: Node)
    requires order >= 3 && x in t
    requires forall c :: c in t && c != x ==>
      Linked(c, t[c], order) && Stored(c, t[c], order) && Fill(t[c], c == root, order)
    requires Slots(x.children, t[x].kids, order) && Stored(x, t[x], order) && x.childIndex == t[x].index
    requires x == root ==> x.parent == null && x.childIndex == 0
    requires x != root ==> x.parent == t[x].parent && x.parent in t
    modifies x`parent
    ensures forall c :: c in t && c != x ==>
      Linked(c, t[c], order) && Stored(c, t[c], order) && Fill(t[c], c == root, order)
    ensures Slots(x.children, t[x].kids, order) && Stored(x, t[x], order) && x.childIndex == t[x].index
    ensures x.parent == p && (x == root ==> fresh(p) && p !in t) && (x != root ==> p == t[x].parent)
    ensures fresh(l) && fresh(r) && l !in t && r !in t && l != r && p != l && p != r
    ensures l.degree == 0 && |l.data| == order && l.children == seq(order + 1, _ => null)
    ensures l.parent == p && l.childIndex == t[x].index
    ensures r.degree == 0 && |r.data| == order && r.children == seq(order + 1, _ => null)
    ensures r.parent == p && r.childIndex == t[x].index + 1
    ensures p !in t ==> p.degree == 0 && |p.data| == order && p.children == seq(order + 1, _ => null)
    ensures p !in t ==> p.parent == null && p.childIndex == 0
  {
    if x == root {
      x.parent := new Node(order, 0, null);
    }
    p := x.parent;
    l := new Node(order, x.childIndex, x.parent);
    r := new Node(order, x.childIndex + 1, x.parent);
  }

  /**
   * The nodes of `t` after a split that lifted `m` into slot `i` of `p`: every node is linked,
   * every node but `p` stores its keys and is within its bounds, and `p` stores its keys
   * without `m`.
   */
  ghost predicate PendingAt(t: Tree, root: Node, order: int, p: Node, i: int, m: int)
    reads t.Keys
  {
    Shape(t, root, order) &&
    (forall n :: n in t ==> Linked(n, t[n], order)) &&
    (forall n :: n in t && n != p ==> Stored(n, t[n], order) && Fill(t[n], n == root, order)) &&
    p in t && 0 <= i < |t[p].vals| <= order && t[p].vals[i] == m &&
    |p.data| == order && p.degree + 1 == |t[p].vals| &&
    p.data[..p.degree] == t[p].vals[..i] + t[p].vals[i + 1..] &&
    (p != root ==> |t[p].vals| >= MinKeys(order))
  }

  /**
   * Tema.cpp `split` up to the recursive call (lines 110-180): the new nodes, then the
   * surgery; `p` is the parent and `median` the slot of the key of `x` that is to go up
   * into it. Afterwards `t2` is the split tree, its root is `p` when `x` was the root,
   * and it holds the same keys.
   */
  method SplitOff(ghost t: Tree, root: Node, order: int, x: Node) returns (p: Node, median: int, ghost t2: Tree)
    requires Shape(t, root, order) && x in t && |t[x].vals| == order
    requires t[x].height > 0 ==> |t[x].kids| == order + 1
    requires forall c :: c in t && c != x ==>
      Linked(c, t[c], order) && Stored(c, t[c], order) && Fill(t[c], c == root, order)
    requires Slots(x.children, t[x].kids, order) && Stored(x, t[x], order) && x.childIndex == t[x].index
    requires x == root ==> x.parent == null && x.childIndex == 0
    requires x != root ==>
      x.parent == t[x].parent && x.parent in t && |t[x.parent].vals| < order &&
      0 <= t[x].index <= |t[x.parent].vals| < |t[x.parent].kids|
    modifies t.Keys
    ensures median == MinKeys(order) && 0 <= median < |x.data| && x.data[median] == t[x].vals[median]
    ensures x == root ==> fresh(p)
    ensures x != root ==> p == t[x].parent
    ensures forall n :: n in t2 ==> n in t || fresh(n)
    ensures PendingAt(t2, NewRoot(root, x, p), order, p, x.childIndex, x.data[median])
    ensures t2[NewRoot(root, x, p)].keys == t[root].keys && t2[p].height == t[x].height + 1
    ensures x == root ==> |t2[p].vals| == 1
    ensures x != root ==> root in t2 && t2[root].height == t[root].height
  {
    median := (x.degree - 1) / 2;
    var left, right;
    p, left, right := NewHalves(t, root, order, x);
    SplitFacts(t, root, order, x, left, right, p);
    t2 := SplitTree(t, root, order, x, left, right, p);
    SplitDomain(t, root, order, x, left, right, p);
    SplitLayout(t, root, order, x, left, right, p);
    SplitShape(t, root, order, x, left, right, p);
    SplitNode(t, root, order, x, left, right, p, t2);
  }
}
