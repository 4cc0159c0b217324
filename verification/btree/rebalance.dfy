/**
 * The stored side of `rebalance` (BTree/Tema.cpp:215-421): after the node surgery of a
 * rotation, of a merge or of the root collapse, the fields of every node agree with its
 * view in the abstract tree that `Redistribute`, `Merge` or `Collapse` describes.
 */
module BTreeRebalance {
  import opened BTreeNodes
  import opened BTreeShape
  import opened BTreeMoves
  import opened BTreeShrink
  import opened BTreeShifts
  import opened BTreeSiblings
  import opened BTreeRotate
  import opened BTreeMerge
  import opened BTreeRelink

  /** Every node of `t` has the links and the stored keys its view says. */
  ghost predicate Mirrors(t: Tree, order: int)
    reads t.Keys
  {
    forall n :: n in t ==> Linked(n, t[n], order) && Stored(n, t[n], order)
  }

  /** The live children of `a` and of `b`. */
  ghost function Under(t: Tree, a: Node, b: Node): set<Node>
  {
    set c | c in t && (t[c].parent == a || t[c].parent == b)
  }

  /** The parent of `p` is neither of its children `l` and `r`. */
  lemma ParentNotKid(t: Tree, root: Node, order: int, p: Node, k: int)
    requires Siblings(t, root, order, p, k)
    ensures t[p].parent != t[p].kids[k] && t[p].parent != t[p].kids[k + 1]
  {
    if p != root {
      ParentStep(t, root, order, p);
    }
  }

  /**
   * The links of every node agree with the tree after a cut at slot `a`, given the links of
   * the two siblings and of their children as a rotation leaves them, and the old links of
   * every other node.
   */
  lemma RedistLinked(t: Tree, root: Node, order: int, p: Node, k: int, a: int, l: Node, r: Node)
    requires Redistributable(t, root, order, p, k, a) && l == t[p].kids[k] && r == t[p].kids[k + 1]
    requires forall c :: c in t && c != l && c != r ==> Slots(c.children, t[c].kids, order)
    requires forall c :: c in t && t[c].parent != l && t[c].parent != r ==>
      c.parent == t[c].parent && c.childIndex == t[c].index
    requires forall c :: c in t && (t[c].parent == l || t[c].parent == r) ==>
      c.parent == (if Pos(t, l, c) <= a then l else r) &&
      c.childIndex == (if Pos(t, l, c) <= a then Pos(t, l, c) else Pos(t, l, c) - a - 1)
    requires Slots(l.children, Redistribute(t, p, k, a)[l].kids, order)
    requires Slots(r.children, Redistribute(t, p, k, a)[r].kids, order)
    ensures forall n :: n in Redistribute(t, p, k, a) ==> Linked(n, Redistribute(t, p, k, a)[n], order)
  {
    var t2 := Redistribute(t, p, k, a);
    ParentNotKid(t, root, order, p, k);
    forall n | n in t2
      ensures Linked(n, t2[n], order)
    {
      if (t[n].parent == l || t[n].parent == r) && n != p {
        assert Core(t, l, order) && Core(t, r, order);
        assert n != l && n != r;
      }
    }
  }

  /** What the surgery of a rotation needs of the parent, the two siblings and their child slots. */
  lemma RotationPrep(t: Tree, root: Node, order: int, p: Node, k: int, l: Node, r: Node)
    requires Siblings(t, root, order, p, k) && l == t[p].kids[k] && r == t[p].kids[k + 1] && Mirrors(t, order)
    ensures Linked(p, t[p], order) && Stored(p, t[p], order) && 0 <= k < |p.data|
    ensures Linked(l, t[l], order) && Stored(l, t[l], order) && Injective(l.children)
    ensures Linked(r, t[r], order) && Stored(r, t[r], order) && Injective(r.children)
    ensures l.degree == |t[l].vals| && r.degree == |t[r].vals|
    ensures forall j :: 0 <= j < |l.children| && l.children[j] != null ==>
      l.children[j] in t && t[l.children[j]].parent == l && t[l.children[j]].index == j
    ensures forall j :: 0 <= j < |r.children| && r.children[j] != null ==>
      r.children[j] in t && t[r.children[j]].parent == r && t[r.children[j]].index == j
    ensures forall j :: 0 <= j <= l.degree ==> (l.children[j] == null <==> t[l].height == 0)
    ensures forall j :: 0 <= j <= r.degree ==> (r.children[j] == null <==> t[l].height == 0)
  {
    assert Linked(p, t[p], order) && Stored(p, t[p], order) && Local(t[p], order);
    assert Linked(l, t[l], order) && Stored(l, t[l], order);
    assert Linked(r, t[r], order) && Stored(r, t[r], order);
    SlotKids(t, root, order, l, l.children);
    SlotKids(t, root, order, r, r.children);
  }

  /**
   * The node surgery of the right rotation (Tema.cpp:236-269) with the back-links it leaves:
   * the last child of `l` now points to slot 0 of `r`, the children of `r` one slot further,
   * and every other node keeps its back-link to `t`.
   */
  method RightRotationLinks(ghost t: Tree, p: Node, k: int, l: Node, r: Node, ghost lc: seq<Node?>, ghost rc: seq<Node?>)
    requires p != l && p != r && l != r && 0 <= k < |p.data|
    requires 0 < l.degree <= |l.data| && l.degree < |l.children| && l.children == lc
    requires 0 <= r.degree < |r.data| && r.degree + 1 < |r.children| && r.children == rc && Injective(rc)
    requires forall j :: 0 <= j <= r.degree ==> (rc[j] == null <==> lc[0] == null)
    requires lc[l.degree] == null <==> lc[0] == null
    requires lc[l.degree] !in Among(rc, 0, r.degree + 1)
    requires forall c :: c in t ==> c.parent == t[c].parent && c.childIndex == t[c].index
    requires forall j :: 0 <= j < |rc| && rc[j] != null ==> rc[j] in t && t[rc[j]].index == j
    modifies p`data, l`data, l`children, l`degree, r`data, r`children, r`degree
    modifies Among(rc, 0, r.degree + 1)`childIndex, {lc[l.degree]}`parent, {lc[l.degree]}`childIndex
    ensures forall c :: c in t && c != lc[old(l.degree)] ==> c.parent == t[c].parent
    ensures forall c :: c in t && c != lc[old(l.degree)] && c !in Among(rc, 0, old(r.degree) + 1) ==>
      c.childIndex == t[c].index
    ensures forall j :: 0 <= j <= old(r.degree) && rc[j] != null ==> rc[j].childIndex == j + 1
    ensures lc[old(l.degree)] != null ==> lc[old(l.degree)].parent == r && lc[old(l.degree)].childIndex == 0
    ensures l.children == if lc[0] == null then lc else lc[old(l.degree) := null]
    ensures |r.children| == |rc| && forall i {:trigger r.children[i]} :: 0 <= i < |r.children| ==>
      r.children[i] == if i == 0 then lc[old(l.degree)] else if i <= r.degree then rc[i - 1] else rc[i]
    ensures p.data == old(p.data[k := l.data[l.degree - 1]])
    ensures l.degree == old(l.degree) - 1 && l.data == old(l.data[l.degree - 1 := 0])
    ensures r.degree == old(r.degree) + 1 && |r.data| == old(|r.data|)
    ensures forall i {:trigger r.data[i]} :: 0 <= i < |r.data| ==>
      r.data[i] == if i == 0 then old(p.data[k]) else if i < r.degree then old(r.data[i - 1]) else old(r.data[i])
  {
    RotateRightMoves(p, l, r, k, lc, rc);
  }

  /**
   * The node surgery of the right rotation (Tema.cpp:236-269) under separator `k` of `p`,
   * and what it leaves of the nodes it does not touch. `lc` and `rc` are the child slots of
   * the siblings `l` and `r` before it.
   */
  method RotateRightFramed(ghost t: Tree, ghost root: Node, order: int, p: Node, k: int, l: Node, r: Node,
                           ghost lc: seq<Node?>, ghost rc: seq<Node?>)
    requires Siblings(t, root, order, p, k) && l == t[p].kids[k] && r == t[p].kids[k + 1] && Mirrors(t, order)
    requires 0 < |t[l].vals| && |t[r].vals| < order
    requires lc == l.children && rc == r.children && Slots(lc, t[l].kids, order) && Slots(rc, t[r].kids, order)
    modifies p`data, l`data, l`children, l`degree, r`data, r`children, r`degree
    modifies Under(t, l, r)`parent, Under(t, l, r)`childIndex
    ensures forall c :: c in t && c != l && c != r ==> Slots(c.children, t[c].kids, order)
    ensures forall c :: c in t && c != p && c != l && c != r ==> Stored(c, t[c], order)
    ensures forall c :: c in t && c != lc[|t[l].vals|] ==> c.parent == t[c].parent
    ensures forall c :: c in t && c != lc[|t[l].vals|] && c !in Among(rc, 0, |t[r].vals| + 1) ==>
      c.childIndex == t[c].index
    ensures forall j :: 0 <= j <= |t[r].vals| && rc[j] != null ==> rc[j].childIndex == j + 1
    ensures lc[|t[l].vals|] != null ==> lc[|t[l].vals|].parent == r && lc[|t[l].vals|].childIndex == 0
    ensures l.children == if lc[0] == null then lc else lc[|t[l].vals| := null]
    ensures |r.children| == |rc| && forall i {:trigger r.children[i]} :: 0 <= i < |r.children| ==>
      r.children[i] == if i == 0 then lc[|t[l].vals|] else if i <= |t[r].vals| + 1 then rc[i - 1] else rc[i]
    ensures p.degree == old(p.degree) && p.data == old(p.data[k := l.data[l.degree - 1]])
    ensures l.degree == old(l.degree) - 1 && l.data == old(l.data[l.degree - 1 := 0])
    ensures r.degree == old(r.degree) + 1 && |r.data| == old(|r.data|)
    ensures forall i {:trigger r.data[i]} :: 0 <= i < |r.data| ==>
      r.data[i] == if i == 0 then old(p.data[k]) else if i < r.degree then old(r.data[i - 1]) else old(r.data[i])
  {
    RotationPrep(t, root, order, p, k, l, r);
    ghost var m, n := |t[l].vals|, |t[r].vals|;
    assert Among(rc, 0, n + 1) <= Under(t, l, r);
    assert lc[m] != null ==> lc[m] in Under(t, l, r);
    assert lc[m] !in Among(rc, 0, n + 1);
    forall c | c in t
      ensures c.parent == t[c].parent && c.childIndex == t[c].index
    {
      assert Linked(c, t[c], order);
    }
    RightRotationLinks(t, p, k, l, r, lc, rc);
    forall c | c in t && c != l && c != r
      ensures Slots(c.children, t[c].kids, order)
    {
      assert old(Linked(c, t[c], order));
    }
    forall c | c in t && c != p && c != l && c != r
      ensures Stored(c, t[c], order)
    {
      assert old(Stored(c, t[c], order));
    }
  }

  /** The back-links the right rotation leaves on the children of the two siblings, by slot of the joined children. */
  lemma RightRotationKids(t: Tree, root: Node, order: int, p: Node, k: int, l: Node, r: Node,
                          lc: seq<Node?>, rc: seq<Node?>, a: int)
    requires Siblings(t, root, order, p, k) && l == t[p].kids[k] && r == t[p].kids[k + 1]
    requires a + 1 == |t[l].vals|
    requires 0 < |t[l].vals| && |t[r].vals| < order
    requires Slots(lc, t[l].kids, order) && Slots(rc, t[r].kids, order)
    requires forall c :: c in t && c != lc[|t[l].vals|] ==> c.parent == t[c].parent
    requires forall c :: c in t && c != lc[|t[l].vals|] && c !in Among(rc, 0, |t[r].vals| + 1) ==>
      c.childIndex == t[c].index
    requires forall j :: 0 <= j <= |t[r].vals| && rc[j] != null ==> rc[j].childIndex == j + 1
    requires lc[|t[l].vals|] != null ==> lc[|t[l].vals|].parent == r && lc[|t[l].vals|].childIndex == 0
    ensures forall c :: c in t && (t[c].parent == l || t[c].parent == r) ==>
        c.parent == (if Pos(t, l, c) <= a then l else r) &&
        c.childIndex == (if Pos(t, l, c) <= a then Pos(t, l, c) else Pos(t, l, c) - a - 1)
  {
    var m, n := |t[l].vals|, |t[r].vals|;
    SlotKids(t, root, order, l, lc);
    SlotKids(t, root, order, r, rc);
    forall c | c in t && (t[c].parent == l || t[c].parent == r)
      ensures c.parent == (if Pos(t, l, c) <= a then l else r)
      ensures c.childIndex == (if Pos(t, l, c) <= a then Pos(t, l, c) else Pos(t, l, c) - a - 1)
    {
      assert Core(t, c, order) && Up(t, c);
      var i := t[c].index;
      if t[c].parent == l {
        assert lc[i] == c;
        if i < m {
          assert c != lc[m];
        }
      } else {
        assert rc[i] == c && c != lc[m];
      }
    }
  }

  /** The child slots the right rotation leaves in the two siblings are those of the tree cut one slot left of the separator. */
  lemma RightRotationSlots(t: Tree, root: Node, order: int, p: Node, k: int, l: Node, r: Node,
                           lc: seq<Node?>, rc: seq<Node?>, a: int)
    requires Siblings(t, root, order, p, k) && l == t[p].kids[k] && r == t[p].kids[k + 1]
    requires a + 1 == |t[l].vals|
    requires 0 < |t[l].vals| && |t[r].vals| < order
    requires Slots(lc, t[l].kids, order) && Slots(rc, t[r].kids, order)
    requires l.children == if lc[0] == null then lc else lc[|t[l].vals| := null]
    requires |r.children| == |rc| && forall i {:trigger r.children[i]} :: 0 <= i < |r.children| ==>
      r.children[i] == if i == 0 then lc[|t[l].vals|] else if i <= |t[r].vals| + 1 then rc[i - 1] else rc[i]
    ensures Redistributable(t, root, order, p, k, a)
    ensures var t2 := Redistribute(t, p, k, a);
      Slots(l.children, t2[l].kids, order) && Slots(r.children, t2[r].kids, order)
  {
    var m, n := |t[l].vals|, |t[r].vals|;
    var ks := JoinedKids(t, p, k);
    JoinedCount(t, root, order, p, k);
    assert Redistributable(t, root, order, p, k, a);
    var t2 := Redistribute(t, p, k, a);
    if t[l].height > 0 {
      assert t2[l].kids == ks[..m];
      assert t2[r].kids == ks[m..];
      forall i | 0 <= i < |r.children|
        ensures r.children[i] == if i < |ks[m..]| then ks[m..][i] else null
      {
        if 0 < i <= n + 1 {
          assert ks[m..][i] == ks[m + i] == t[r].kids[i - 1];
        }
      }
    } else {
      assert t2[l].kids == [] && t2[r].kids == [];
      forall i | 0 <= i < |r.children|
        ensures r.children[i] == null
      {
      }
    }
  }

  /** Keys stored after a new first key `w`, each one slot further than in `rd`, are `w` and then the keys of `rd`. */
  lemma Prepended(d: seq<int>, w: int, rd: seq<int>, vs: seq<int>)
    requires |vs| < |d| <= |rd| && rd[..|vs|] == vs
    requires forall i {:trigger d[i]} :: 0 <= i < |d| ==>
      d[i] == if i == 0 then w else if i < |vs| + 1 then rd[i - 1] else rd[i]
    ensures d[..|vs| + 1] == [w] + vs
  {
    forall i | 0 < i < |vs| + 1
      ensures d[i] == vs[i - 1]
    {
      assert rd[..|vs|][i - 1] == rd[i - 1];
    }
  }

  /** The keys the right rotation leaves in the parent and the two siblings are those of the tree cut one slot left of the separator. */
  lemma RightRotationStored(t: Tree, root: Node, order: int, p: Node, k: int, l: Node, r: Node,
                            pd: seq<int>, ld: seq<int>, rd: seq<int>, a: int)
    requires Siblings(t, root, order, p, k) && l == t[p].kids[k] && r == t[p].kids[k + 1]
    requires a + 1 == |t[l].vals|
    requires 0 < |t[l].vals| && |t[r].vals| < order
    requires forall c :: c in t && c != p && c != l && c != r ==> Stored(c, t[c], order)
    requires |pd| == order && |t[p].vals| <= order && pd[..|t[p].vals|] == t[p].vals
    requires |ld| == order && |t[l].vals| <= order && ld[..|t[l].vals|] == t[l].vals
    requires |rd| == order && rd[..|t[r].vals|] == t[r].vals
    requires p.degree == |t[p].vals| && p.data == pd[k := ld[|t[l].vals| - 1]]
    requires l.degree == |t[l].vals| - 1 && l.data == ld[|t[l].vals| - 1 := 0]
    requires r.degree == |t[r].vals| + 1 && |r.data| == order
    requires forall i {:trigger r.data[i]} :: 0 <= i < |r.data| ==>
      r.data[i] == if i == 0 then pd[k] else if i < |t[r].vals| + 1 then rd[i - 1] else rd[i]
    ensures Redistributable(t, root, order, p, k, a)
    ensures var t2 := Redistribute(t, p, k, a); forall n :: n in t2 ==> Stored(n, t2[n], order)
  {
    var m, n := |t[l].vals|, |t[r].vals|;
    JoinedCount(t, root, order, p, k);
    assert Redistributable(t, root, order, p, k, a);
    var t2 := Redistribute(t, p, k, a);
    var s := Joined(t, p, k);
    assert s[a] == ld[..m][a];
    assert Stored(p, t2[p], order) by {
      assert p.data[..p.degree] == pd[..p.degree][k := s[a]];
    }
    assert Stored(l, t2[l], order) by {
      assert s[..a] == t[l].vals[..a];
      assert l.data[..l.degree] == ld[..m][..a];
    }
    assert Stored(r, t2[r], order) by {
      assert s[a + 1..] == [t[p].vals[k]] + t[r].vals;
      assert pd[k] == pd[..|t[p].vals|][k];
      Prepended(r.data, pd[k], rd, t[r].vals);
    }
    forall c | c in t2
      ensures Stored(c, t2[c], order)
    {
      if c != p && c != l && c != r {
        assert t2[c].vals == t[c].vals;
      }
    }
  }

  /**
   * The right rotation of `rebalance` (Tema.cpp:236-269) under separator `k` of `p`: the last
   * key of the left sibling `l` goes up, the separator comes down into `r`, and the last child
   * of `l` becomes the first of `r`. Afterwards every node agrees with the tree cut one slot
   * left of the separator.
   */
  method RotateRightNode(ghost t: Tree, ghost root: Node, order: int, p: Node, k: int, l: Node, r: Node, ghost a: int, ghost t2: Tree)
    requires Siblings(t, root, order, p, k) && l == t[p].kids[k] && r == t[p].kids[k + 1] && Mirrors(t, order)
    requires 0 < |t[l].vals| && |t[r].vals| < order
    modifies p`data, l`data, l`children, l`degree, r`data, r`children, r`degree
    modifies Under(t, l, r)`parent, Under(t, l, r)`childIndex
    requires a + 1 == |t[l].vals| && t2 == Redistribute(t, p, k, a)
    ensures Redistributable(t, root, order, p, k, a) && Mirrors(t2, order)
  {
    RotationPrep(t, root, order, p, k, l, r);
    ghost var lc, rc := l.children, r.children;
    ghost var pd, ld, rd := p.data, l.data, r.data;
    RotateRightFramed(t, root, order, p, k, l, r, lc, rc);
    RightRotationKids(t, root, order, p, k, l, r, lc, rc, a);
    RightRotationSlots(t, root, order, p, k, l, r, lc, rc, a);
    RedistLinked(t, root, order, p, k, a, l, r);
    RightRotationStored(t, root, order, p, k, l, r, pd, ld, rd, a);
  }

  /**
   * The node surgery of the left rotation (Tema.cpp:282-322) with the back-links it leaves:
   * the first child of `r` now points to the last slot of `l`, the other children of `r` one
   * slot nearer, and every other node keeps its back-link to `t`.
   */
  method LeftRotationLinks(ghost t: Tree, p: Node, k: int, l: Node, r: Node, ghost lc: seq<Node?>, ghost rc: seq<Node?>)
    requires p != l && p != r && l != r && 0 <= k < |p.data|
    requires 0 <= l.degree < |l.data| && l.degree + 1 < |l.children| && l.children == lc
    requires 1 <= r.degree <= |r.data| && r.degree < |r.children| && r.children == rc && Injective(rc)
    requires forall j :: 0 <= j <= r.degree ==> (rc[j] == null <==> rc[0] == null)
    requires forall c :: c in t ==> c.parent == t[c].parent && c.childIndex == t[c].index
    requires forall j :: 0 <= j < |rc| && rc[j] != null ==> rc[j] in t && t[rc[j]].index == j
    modifies p`data, l`data, l`children, l`degree, r`data, r`children, r`degree
    modifies Among(rc, 0, r.degree + 1)`parent, Among(rc, 0, r.degree + 1)`childIndex
    ensures forall c :: c in t && c != rc[0] ==> c.parent == t[c].parent
    ensures forall c :: c in t && c !in Among(rc, 0, old(r.degree) + 1) ==> c.childIndex == t[c].index
    ensures forall j :: 1 <= j <= old(r.degree) && rc[j] != null ==> rc[j].childIndex == j - 1
    ensures rc[0] != null ==> rc[0].parent == l && rc[0].childIndex == old(l.degree) + 1
    ensures l.children == lc[old(l.degree) + 1 := rc[0]]
    ensures r.degree == old(r.degree) - 1 && |r.data| == old(|r.data|)
    ensures |r.children| == |rc| && forall i {:trigger r.children[i]} :: 0 <= i < |r.children| ==>
      r.children[i] == if i <= r.degree then rc[i + 1] else if i == r.degree + 1 then null else rc[i]
    ensures p.data == old(p.data[k := r.data[0]])
    ensures l.degree == old(l.degree) + 1 && l.data == old(l.data[l.degree := p.data[k]])
    ensures forall i {:trigger r.data[i]} :: 0 <= i < |r.data| ==>
      r.data[i] == if i < r.degree then old(r.data[i + 1]) else if i == r.degree then 0 else old(r.data[i])
  {
    RotateLeftMoves(p, l, r, k, rc);
  }

  /**
   * The node surgery of the left rotation (Tema.cpp:282-322) under separator `k` of `p`, and
   * what it leaves of the nodes it does not touch. `lc` and `rc` are the child slots of the
   * siblings `l` and `r` before it.
   */
  method RotateLeftFramed(ghost t: Tree, ghost root: Node, order: int, p: Node, k: int, l: Node, r: Node,
                          ghost lc: seq<Node?>, ghost rc: seq<Node?>)
    requires Siblings(t, root, order, p, k) && l == t[p].kids[k] && r == t[p].kids[k + 1] && Mirrors(t, order)
    requires |t[l].vals| < order && 0 < |t[r].vals|
    requires lc == l.children && rc == r.children && Slots(lc, t[l].kids, order) && Slots(rc, t[r].kids, order)
    modifies p`data, l`data, l`children, l`degree, r`data, r`children, r`degree
    modifies Under(t, l, r)`parent, Under(t, l, r)`childIndex
    ensures forall c :: c in t && c != l && c != r ==> Slots(c.children, t[c].kids, order)
    ensures forall c :: c in t && c != p && c != l && c != r ==> Stored(c, t[c], order)
    ensures forall c :: c in t && c != rc[0] ==> c.parent == t[c].parent
    ensures forall c :: c in t && c !in Among(rc, 0, |t[r].vals| + 1) ==> c.childIndex == t[c].index
    ensures forall j :: 1 <= j <= |t[r].vals| && rc[j] != null ==> rc[j].childIndex == j - 1
    ensures rc[0] != null ==> rc[0].parent == l && rc[0].childIndex == |t[l].vals| + 1
    ensures l.children == lc[|t[l].vals| + 1 := rc[0]]
    ensures |r.children| == |rc| && forall i {:trigger r.children[i]} :: 0 <= i < |r.children| ==>
      r.children[i] == if i < |t[r].vals| then rc[i + 1] else if i == |t[r].vals| then null else rc[i]
    ensures p.degree == old(p.degree) && p.data == old(p.data[k := r.data[0]])
    ensures l.degree == old(l.degree) + 1 && l.data == old(l.data[l.degree := p.data[k]])
    ensures r.degree == old(r.degree) - 1 && |r.data| == old(|r.data|)
    ensures forall i {:trigger r.data[i]} :: 0 <= i < |r.data| ==>
      r.data[i] == if i < r.degree then old(r.data[i + 1]) else if i == r.degree then 0 else old(r.data[i])
  {
    RotationPrep(t, root, order, p, k, l, r);
    ghost var n := |t[r].vals|;
    assert Among(rc, 0, n + 1) <= Under(t, l, r);
    forall c | c in t
      ensures c.parent == t[c].parent && c.childIndex == t[c].index
    {
      assert Linked(c, t[c], order);
    }
    LeftRotationLinks(t, p, k, l, r, lc, rc);
    forall c | c in t && c != l && c != r
      ensures Slots(c.children, t[c].kids, order)
    {
      assert old(Linked(c, t[c], order));
    }
    forall c | c in t && c != p && c != l && c != r
      ensures Stored(c, t[c], order)
    {
      assert old(Stored(c, t[c], order));
    }
  }

  /** The back-links the left rotation leaves on the children of the two siblings, by slot of the joined children. */
  lemma LeftRotationKids(t: Tree, root: Node, order: int, p: Node, k: int, l: Node, r: Node,
                         lc: seq<Node?>, rc: seq<Node?>)
    requires Siblings(t, root, order, p, k) && l == t[p].kids[k] && r == t[p].kids[k + 1]
    requires |t[l].vals| < order && 0 < |t[r].vals|
    requires Slots(lc, t[l].kids, order) && Slots(rc, t[r].kids, order)
    requires forall c :: c in t && c != rc[0] ==> c.parent == t[c].parent
    requires forall c :: c in t && c !in Among(rc, 0, |t[r].vals| + 1) ==> c.childIndex == t[c].index
    requires forall j :: 1 <= j <= |t[r].vals| && rc[j] != null ==> rc[j].childIndex == j - 1
    requires rc[0] != null ==> rc[0].parent == l && rc[0].childIndex == |t[l].vals| + 1
    ensures var a := |t[l].vals| + 1;
      forall c :: c in t && (t[c].parent == l || t[c].parent == r) ==>
        c.parent == (if Pos(t, l, c) <= a then l else r) &&
        c.childIndex == (if Pos(t, l, c) <= a then Pos(t, l, c) else Pos(t, l, c) - a - 1)
  {
    var m, n := |t[l].vals|, |t[r].vals|;
    var a := m + 1;
    SlotKids(t, root, order, l, lc);
    SlotKids(t, root, order, r, rc);
    forall c | c in t && (t[c].parent == l || t[c].parent == r)
      ensures c.parent == (if Pos(t, l, c) <= a then l else r)
      ensures c.childIndex == (if Pos(t, l, c) <= a then Pos(t, l, c) else Pos(t, l, c) - a - 1)
    {
      assert Core(t, c, order) && Up(t, c);
      var i := t[c].index;
      if t[c].parent == l {
        assert lc[i] == c && c != rc[0];
      } else {
        assert rc[i] == c;
      }
    }
  }

  /** The child slots the left rotation leaves in the two siblings are those of the tree cut one slot right of the separator. */
  lemma LeftRotationSlots(t: Tree, root: Node, order: int, p: Node, k: int, l: Node, r: Node,
                          lc: seq<Node?>, rc: seq<Node?>)
    requires Siblings(t, root, order, p, k) && l == t[p].kids[k] && r == t[p].kids[k + 1]
    requires |t[l].vals| < order && 0 < |t[r].vals|
    requires Slots(lc, t[l].kids, order) && Slots(rc, t[r].kids, order)
    requires l.children == lc[|t[l].vals| + 1 := rc[0]]
    requires |r.children| == |rc| && forall i {:trigger r.children[i]} :: 0 <= i < |r.children| ==>
      r.children[i] == if i < |t[r].vals| then rc[i + 1] else if i == |t[r].vals| then null else rc[i]
    ensures Redistributable(t, root, order, p, k, |t[l].vals| + 1)
    ensures var t2 := Redistribute(t, p, k, |t[l].vals| + 1);
      Slots(l.children, t2[l].kids, order) && Slots(r.children, t2[r].kids, order)
  {
    var m, n := |t[l].vals|, |t[r].vals|;
    var a := m + 1;
    var ks := JoinedKids(t, p, k);
    JoinedCount(t, root, order, p, k);
    assert Redistributable(t, root, order, p, k, a);
    var t2 := Redistribute(t, p, k, a);
    if t[l].height > 0 {
      assert t2[l].kids == ks[..m + 2] == t[l].kids + [t[r].kids[0]];
      assert t2[r].kids == ks[m + 2..] == t[r].kids[1..];
      forall i | 0 <= i < |l.children|
        ensures l.children[i] == if i < m + 2 then t2[l].kids[i] else null
      {
        if i <= m {
          assert t2[l].kids[i] == t[l].kids[i] == lc[i];
        } else if i == m + 1 {
          assert t2[l].kids[i] == t[r].kids[0] == rc[0];
        }
      }
      forall i | 0 <= i < |r.children|
        ensures r.children[i] == if i < n then t2[r].kids[i] else null
      {
        if i < n {
          assert t2[r].kids[i] == t[r].kids[i + 1] == rc[i + 1];
        }
      }
    } else {
      assert t2[l].kids == [] && t2[r].kids == [];
      assert rc[0] == null;
    }
  }

  /** The keys the left rotation leaves in the parent and the two siblings are those of the tree cut one slot right of the separator. */
  lemma LeftRotationStored(t: Tree, root: Node, order: int, p: Node, k: int, l: Node, r: Node,
                           pd: seq<int>, ld: seq<int>, rd: seq<int>)
    requires Siblings(t, root, order, p, k) && l == t[p].kids[k] && r == t[p].kids[k + 1]
    requires |t[l].vals| < order && 0 < |t[r].vals|
    requires forall c :: c in t && c != p && c != l && c != r ==> Stored(c, t[c], order)
    requires |pd| == order && |t[p].vals| <= order && pd[..|t[p].vals|] == t[p].vals
    requires |ld| == order && ld[..|t[l].vals|] == t[l].vals
    requires |rd| == order && |t[r].vals| <= order && rd[..|t[r].vals|] == t[r].vals
    requires p.degree == |t[p].vals| && p.data == pd[k := rd[0]]
    requires l.degree == |t[l].vals| + 1 && l.data == ld[|t[l].vals| := pd[k]]
    requires r.degree == |t[r].vals| - 1 && |r.data| == order
    requires forall i {:trigger r.data[i]} :: 0 <= i < |r.data| ==>
      r.data[i] == if i < |t[r].vals| - 1 then rd[i + 1] else if i == |t[r].vals| - 1 then 0 else rd[i]
    ensures Redistributable(t, root, order, p, k, |t[l].vals| + 1)
    ensures var t2 := Redistribute(t, p, k, |t[l].vals| + 1); forall n :: n in t2 ==> Stored(n, t2[n], order)
  {
    var m, n := |t[l].vals|, |t[r].vals|;
    var a := m + 1;
    JoinedCount(t, root, order, p, k);
    assert Redistributable(t, root, order, p, k, a);
    var t2 := Redistribute(t, p, k, a);
    var s := Joined(t, p, k);
    assert s[a] == rd[..n][0];
    assert Stored(p, t2[p], order) by {
      assert p.data[..p.degree] == pd[..p.degree][k := s[a]];
    }
    assert Stored(l, t2[l], order) by {
      assert s[..a] == t[l].vals + [t[p].vals[k]];
      assert pd[k] == pd[..|t[p].vals|][k];
      assert l.data[..l.degree] == ld[..m] + [pd[k]];
    }
    assert Stored(r, t2[r], order) by {
      assert s[a + 1..] == t[r].vals[1..];
      forall i | 0 <= i < r.degree
        ensures r.data[i] == t[r].vals[i + 1]
      {
        assert rd[..n][i + 1] == rd[i + 1];
      }
    }
    forall c | c in t2
      ensures Stored(c, t2[c], order)
    {
      if c != p && c != l && c != r {
        assert t2[c].vals == t[c].vals;
      }
    }
  }

  /**
   * The left rotation of `rebalance` (Tema.cpp:282-322) under separator `k` of `p`: the first
   * key of the right sibling `r` goes up, the separator comes down into `l`, and the first
   * child of `r` becomes the last of `l`. Afterwards every node agrees with the tree cut one
   * slot right of the separator.
   */
  method RotateLeftNode(ghost t: Tree, ghost root: Node, order: int, p: Node, k: int, l: Node, r: Node, ghost t2: Tree)
    requires Siblings(t, root, order, p, k) && l == t[p].kids[k] && r == t[p].kids[k + 1] && Mirrors(t, order)
    requires |t[l].vals| < order && 0 < |t[r].vals|
    modifies p`data, l`data, l`children, l`degree, r`data, r`children, r`degree
    modifies Under(t, l, r)`parent, Under(t, l, r)`childIndex
    requires t2 == Redistribute(t, p, k, |t[l].vals| + 1)
    ensures Redistributable(t, root, order, p, k, |t[l].vals| + 1) && Mirrors(t2, order)
  {
    RotationPrep(t, root, order, p, k, l, r);
    ghost var lc, rc := l.children, r.children;
    ghost var pd, ld, rd := p.data, l.data, r.data;
    RotateLeftFramed(t, root, order, p, k, l, r, lc, rc);
    LeftRotationKids(t, root, order, p, k, l, r, lc, rc);
    LeftRotationSlots(t, root, order, p, k, l, r, lc, rc);
    RedistLinked(t, root, order, p, k, |t[l].vals| + 1, l, r);
    LeftRotationStored(t, root, order, p, k, l, r, pd, ld, rd);
  }

  /**
   * The node surgery of the merge (Tema.cpp:342-386) with the back-links it leaves: the
   * children of `r` now point to their slots after those of `l`, the children of `p` right of
   * `r` one slot nearer, and every other node keeps its back-link to `t`.
   */
  method MergeLinks(ghost t: Tree, p: Node, k: int, l: Node, r: Node, ghost pc: seq<Node?>, ghost lc: seq<Node?>, ghost rc: seq<Node?>,
                    ghost pd: seq<int>, ghost ld: seq<int>, ghost rd: seq<int>)
    requires p.data == pd && l.data == ld && r.data == rd
    requires p != l && p != r && l != r && p in t && l in t && r in t
    requires p.degree == |t[p].vals| && l.degree == |t[l].vals| && r.degree == |t[r].vals| && l.children == lc
    requires 0 <= k < p.degree <= |p.data| && p.degree < |p.children| && p.children == pc && Injective(pc)
    requires 0 <= l.degree && l.degree + 1 + r.degree <= |l.data| && l.degree + 1 + r.degree < |l.children|
    requires 0 <= r.degree <= |r.data| && r.degree < |r.children| && r.children == rc && Injective(rc)
    requires forall j :: 0 <= j <= r.degree ==> (rc[j] == null <==> l.children[0] == null)
    requires Among(rc, 0, r.degree + 1) !! Among(pc, k + 2, p.degree + 1)
    requires forall c :: c in t ==> c.parent == t[c].parent && c.childIndex == t[c].index
    requires forall j :: 0 <= j < |pc| && pc[j] != null ==> pc[j] in t && t[pc[j]].index == j
    modifies p`data, p`children, p`degree, l`data, l`children, l`degree, r`children
    modifies Among(rc, 0, r.degree + 1)`parent, Among(rc, 0, r.degree + 1)`childIndex
    modifies Among(pc, k + 2, p.degree + 1)`childIndex
    ensures forall c :: c in t && c !in Among(rc, 0, |t[r].vals| + 1) ==> c.parent == t[c].parent
    ensures forall c :: c in t && c !in Among(rc, 0, |t[r].vals| + 1) && c !in Among(pc, k + 2, |t[p].vals| + 1) ==>
      c.childIndex == t[c].index
    ensures forall j :: 0 <= j <= |t[r].vals| && rc[j] != null ==>
      rc[j].parent == l && rc[j].childIndex == |t[l].vals| + 1 + j
    ensures forall j :: k + 2 <= j <= |t[p].vals| && pc[j] != null ==> pc[j].childIndex == j - 1
    ensures |l.children| == |lc| && forall i {:trigger l.children[i]} :: 0 <= i < |l.children| ==>
      l.children[i] == if |t[l].vals| < i <= |t[l].vals| + 1 + |t[r].vals| then rc[i - |t[l].vals| - 1] else lc[i]
    ensures |p.children| == |pc| && forall i {:trigger p.children[i]} :: 0 <= i < |p.children| ==>
      p.children[i] == if k < i < |t[p].vals| then pc[i + 1] else if i == |t[p].vals| then null else pc[i]
    ensures l.degree == |t[l].vals| + 1 + |t[r].vals| && |l.data| == |ld|
    ensures forall i {:trigger l.data[i]} :: 0 <= i < |l.data| ==>
      l.data[i] == if i == |t[l].vals| then pd[k] else if |t[l].vals| < i < l.degree then rd[i - |t[l].vals| - 1] else ld[i]
    ensures p.degree == |t[p].vals| - 1 && |p.data| == |pd|
    ensures forall i {:trigger p.data[i]} :: 0 <= i < |p.data| ==>
      p.data[i] == if k <= i < p.degree then pd[i + 1] else if i == p.degree then 0 else pd[i]
  {
    MergeMoves(p, l, r, k, pc, rc);
  }

  /**
   * The node surgery of the merge (Tema.cpp:342-386) under separator `k` of `p`, and what it
   * leaves of the nodes it does not touch. `pc`, `lc` and `rc` are the child slots of `p`, `l`
   * and `r` before it.
   */
  method MergeFramed(ghost t: Tree, ghost root: Node, order: int, p: Node, k: int, l: Node, r: Node,
                     ghost pc: seq<Node?>, ghost lc: seq<Node?>, ghost rc: seq<Node?>,
                     ghost pd: seq<int>, ghost ld: seq<int>, ghost rd: seq<int>)
    requires Mergeable(t, root, order, p, k) && l == t[p].kids[k] && r == t[p].kids[k + 1] && Mirrors(t, order)
    requires |t[l].vals| + 1 + |t[r].vals| <= order
    requires pc == p.children && lc == l.children && rc == r.children && pd == p.data && ld == l.data && rd == r.data
    requires Slots(pc, t[p].kids, order) && Slots(lc, t[l].kids, order) && Slots(rc, t[r].kids, order)
    modifies p`data, p`children, p`degree, l`data, l`children, l`degree, r`children
    modifies Under(t, l, r)`parent, Under(t, l, r)`childIndex, Under(t, p, p)`childIndex
    ensures forall c :: c in t && c != p && c != l && c != r ==> Slots(c.children, t[c].kids, order)
    ensures forall c :: c in t && c != p && c != l && c != r ==> Stored(c, t[c], order)
    ensures forall c :: c in t && c !in Among(rc, 0, |t[r].vals| + 1) ==> c.parent == t[c].parent
    ensures forall c :: c in t && c !in Among(rc, 0, |t[r].vals| + 1) && c !in Among(pc, k + 2, |t[p].vals| + 1) ==>
      c.childIndex == t[c].index
    ensures forall j :: 0 <= j <= |t[r].vals| && rc[j] != null ==>
      rc[j].parent == l && rc[j].childIndex == |t[l].vals| + 1 + j
    ensures forall j :: k + 2 <= j <= |t[p].vals| && pc[j] != null ==> pc[j].childIndex == j - 1
    ensures |l.children| == |lc| && forall i {:trigger l.children[i]} :: 0 <= i < |l.children| ==>
      l.children[i] == if |t[l].vals| < i <= |t[l].vals| + 1 + |t[r].vals| then rc[i - |t[l].vals| - 1] else lc[i]
    ensures |p.children| == |pc| && forall i {:trigger p.children[i]} :: 0 <= i < |p.children| ==>
      p.children[i] == if k < i < |t[p].vals| then pc[i + 1] else if i == |t[p].vals| then null else pc[i]
    ensures l.degree == |t[l].vals| + 1 + |t[r].vals| && |l.data| == |ld|
    ensures forall i {:trigger l.data[i]} :: 0 <= i < |l.data| ==>
      l.data[i] == if i == |t[l].vals| then pd[k] else if |t[l].vals| < i < l.degree then rd[i - |t[l].vals| - 1] else ld[i]
    ensures p.degree == |t[p].vals| - 1 && |p.data| == |pd|
    ensures forall i {:trigger p.data[i]} :: 0 <= i < |p.data| ==>
      p.data[i] == if k <= i < p.degree then pd[i + 1] else if i == p.degree then 0 else pd[i]
  {
    RotationPrep(t, root, order, p, k, l, r);
    SlotKids(t, root, order, p, pc);
    ghost var n, d := |t[r].vals|, |t[p].vals|;
    assert Among(rc, 0, n + 1) <= Under(t, l, r);
    assert Among(pc, k + 2, d + 1) <= Under(t, p, p);
    assert Among(rc, 0, n + 1) !! Among(pc, k + 2, d + 1) by {
      forall j | 0 <= j <= n && rc[j] != null
        ensures rc[j] !in Among(pc, k + 2, d + 1)
      {
      }
    }
    forall c | c in t
      ensures c.parent == t[c].parent && c.childIndex == t[c].index
    {
      assert Linked(c, t[c], order);
    }
    MergeLinks(t, p, k, l, r, pc, lc, rc, pd, ld, rd);
    forall c | c in t && c != p && c != l && c != r
      ensures Slots(c.children, t[c].kids, order)
    {
      assert old(Linked(c, t[c], order));
    }
    forall c | c in t && c != p && c != l && c != r
      ensures Stored(c, t[c], order)
    {
      assert old(Stored(c, t[c], order));
    }
  }

  /** The back-links the merge leaves: on the children of the two siblings, of the parent, and of every other node. */
  lemma MergeKids(t: Tree, root: Node, order: int, p: Node, k: int, l: Node, r: Node,
                  pc: seq<Node?>, lc: seq<Node?>, rc: seq<Node?>)
    requires Mergeable(t, root, order, p, k) && l == t[p].kids[k] && r == t[p].kids[k + 1]
    requires Slots(pc, t[p].kids, order) && Slots(lc, t[l].kids, order) && Slots(rc, t[r].kids, order)
    requires forall c :: c in t && c !in Among(rc, 0, |t[r].vals| + 1) ==> c.parent == t[c].parent
    requires forall c :: c in t && c !in Among(rc, 0, |t[r].vals| + 1) && c !in Among(pc, k + 2, |t[p].vals| + 1) ==>
      c.childIndex == t[c].index
    requires forall j :: 0 <= j <= |t[r].vals| && rc[j] != null ==>
      rc[j].parent == l && rc[j].childIndex == |t[l].vals| + 1 + j
    requires forall j :: k + 2 <= j <= |t[p].vals| && pc[j] != null ==> pc[j].childIndex == j - 1
    ensures forall c :: c in t && (t[c].parent == l || t[c].parent == r) ==>
      c.parent == l && c.childIndex == Pos(t, l, c)
    ensures forall c :: c in t && t[c].parent == p && c != r ==>
      c.parent == p && c.childIndex == (if t[c].index > k + 1 then t[c].index - 1 else t[c].index)
    ensures forall c :: c in t && t[c].parent != l && t[c].parent != r && t[c].parent != p ==>
      c.parent == t[c].parent && c.childIndex == t[c].index
  {
    var m, n, d := |t[l].vals|, |t[r].vals|, |t[p].vals|;
    SlotKids(t, root, order, p, pc);
    SlotKids(t, root, order, l, lc);
    SlotKids(t, root, order, r, rc);
    forall c | c in t && t[c].parent != r
      ensures c !in Among(rc, 0, n + 1)
    {
    }
    forall c | c in t && (t[c].parent != p || t[c].index < k + 2)
      ensures c !in Among(pc, k + 2, d + 1)
    {
    }
    forall c | c in t && t[c].parent == r
      ensures c.parent == l && c.childIndex == Pos(t, l, c)
    {
      assert Core(t, c, order) && Up(t, c);
      assert rc[t[c].index] == c;
    }
    forall c | c in t && t[c].parent == p && t[c].index >= k + 2
      ensures c.childIndex == t[c].index - 1
    {
      assert Core(t, c, order) && Up(t, c);
      assert pc[t[c].index] == c;
    }
  }

  /** The child slots the merge leaves in the merged node and in the parent are those of the merged tree. */
  lemma MergeSlots(t: Tree, root: Node, order: int, p: Node, k: int, l: Node, r: Node,
                   pc: seq<Node?>, lc: seq<Node?>, rc: seq<Node?>)
    requires Mergeable(t, root, order, p, k) && l == t[p].kids[k] && r == t[p].kids[k + 1]
    requires |t[l].vals| + 1 + |t[r].vals| <= order
    requires Slots(pc, t[p].kids, order) && Slots(lc, t[l].kids, order) && Slots(rc, t[r].kids, order)
    requires |l.children| == |lc| && forall i {:trigger l.children[i]} :: 0 <= i < |l.children| ==>
      l.children[i] == if |t[l].vals| < i <= |t[l].vals| + 1 + |t[r].vals| then rc[i - |t[l].vals| - 1] else lc[i]
    requires |p.children| == |pc| && forall i {:trigger p.children[i]} :: 0 <= i < |p.children| ==>
      p.children[i] == if k < i < |t[p].vals| then pc[i + 1] else if i == |t[p].vals| then null else pc[i]
    ensures Slots(l.children, Merge(t, p, k)[l].kids, order)
    ensures Slots(p.children, Merge(t, p, k)[p].kids, order)
  {
    var m := |t[l].vals|;
    var ks := JoinedKids(t, p, k);
    JoinedCount(t, root, order, p, k);
    assert Merge(t, p, k)[l].kids == ks;
    forall i | 0 <= i < |l.children|
      ensures l.children[i] == if i < |ks| then ks[i] else null
    {
      if t[l].height > 0 && m < i < |ks| {
        assert ks[i] == t[r].kids[i - m - 1];
      }
    }
    var cut := CutKid(t[p].kids, k + 1);
    assert Merge(t, p, k)[p].kids == cut;
    forall i | 0 <= i < |p.children|
      ensures p.children[i] == if i < |cut| then cut[i] else null
    {
    }
  }

  /** The links of every node agree with the merged tree, given the links a merge leaves. */
  lemma MergeLinked(t: Tree, root: Node, order: int, p: Node, k: int, l: Node, r: Node)
    requires Mergeable(t, root, order, p, k) && l == t[p].kids[k] && r == t[p].kids[k + 1]
    requires forall c :: c in t && c != p && c != l && c != r ==> Slots(c.children, t[c].kids, order)
    requires forall c :: c in t && (t[c].parent == l || t[c].parent == r) ==>
      c.parent == l && c.childIndex == Pos(t, l, c)
    requires forall c :: c in t && t[c].parent == p && c != r ==>
      c.parent == p && c.childIndex == (if t[c].index > k + 1 then t[c].index - 1 else t[c].index)
    requires forall c :: c in t && t[c].parent != l && t[c].parent != r && t[c].parent != p ==>
      c.parent == t[c].parent && c.childIndex == t[c].index
    requires Slots(l.children, Merge(t, p, k)[l].kids, order)
    requires Slots(p.children, Merge(t, p, k)[p].kids, order)
    ensures forall n :: n in Merge(t, p, k) ==> Linked(n, Merge(t, p, k)[n], order)
  {
    var t2 := Merge(t, p, k);
    ParentNotKid(t, root, order, p, k);
    forall n | n in t2
      ensures Linked(n, t2[n], order)
    {
      if n == p {
        if p != root {
          ParentStep(t, root, order, p);
        }
        assert t2[p].parent == t[p].parent && t2[p].index == t[p].index;
      } else if n == l {
        assert t2[l].parent == p && t2[l].index == k;
      } else if t[n].parent == l || t[n].parent == r {
        assert t2[n] == t[n].(parent := l, index := Pos(t, l, n));
      } else if t[n].parent == p && t[n].index > k + 1 {
        assert t2[n] == t[n].(index := t[n].index - 1);
      } else {
        assert t2[n] == t[n];
      }
    }
  }

  /** The keys the merge leaves in the merged node and in the parent are those of the merged tree. */
  lemma MergeStored(t: Tree, root: Node, order: int, p: Node, k: int, l: Node, r: Node,
                    pd: seq<int>, ld: seq<int>, rd: seq<int>)
    requires Mergeable(t, root, order, p, k) && l == t[p].kids[k] && r == t[p].kids[k + 1]
    requires forall c :: c in t && c != p && c != l && c != r ==> Stored(c, t[c], order)
    requires |pd| == order && |t[p].vals| <= order && pd[..|t[p].vals|] == t[p].vals
    requires |ld| == order && ld[..|t[l].vals|] == t[l].vals
    requires |rd| == order && |t[r].vals| <= order && rd[..|t[r].vals|] == t[r].vals
    requires l.degree == |t[l].vals| + 1 + |t[r].vals| && |l.data| == order
    requires forall i {:trigger l.data[i]} :: 0 <= i < |l.data| ==>
      l.data[i] == if i == |t[l].vals| then pd[k] else if |t[l].vals| < i < l.degree then rd[i - |t[l].vals| - 1] else ld[i]
    requires p.degree == |t[p].vals| - 1 && |p.data| == order
    requires forall i {:trigger p.data[i]} :: 0 <= i < |p.data| ==>
      p.data[i] == if k <= i < p.degree then pd[i + 1] else if i == p.degree then 0 else pd[i]
    ensures forall n :: n in Merge(t, p, k) ==> Stored(n, Merge(t, p, k)[n], order)
  {
    var m, n, d := |t[l].vals|, |t[r].vals|, |t[p].vals|;
    var t2 := Merge(t, p, k);
    var s := Joined(t, p, k);
    assert Stored(l, t2[l], order) by {
      forall i | 0 <= i < l.degree
        ensures l.data[i] == s[i]
      {
        if i < m {
          assert ld[..m][i] == ld[i];
        } else if i == m {
          assert pd[..d][k] == pd[k];
        } else {
          assert rd[..n][i - m - 1] == rd[i - m - 1];
        }
      }
    }
    assert Stored(p, t2[p], order) by {
      var v := Cut(t[p].vals, k);
      forall i | 0 <= i < p.degree
        ensures p.data[i] == v[i]
      {
        if i < k {
          assert v[i] == v[..k][i] == t[p].vals[i] == pd[..d][i];
        } else {
          assert v[i] == v[k..][i - k] == t[p].vals[i + 1] == pd[..d][i + 1];
        }
      }
    }
    forall c | c in t2
      ensures Stored(c, t2[c], order)
    {
      if c != p && c != l {
        assert t2[c].vals == t[c].vals;
      }
    }
  }

  /**
   * The merge of `rebalance` (Tema.cpp:325-398) under separator `k` of `p`: the separator
   * and all keys and children of the right sibling `r` move to the end of `l`, and `p`
   * closes the gap. Afterwards every node but `r` agrees with the merged tree.
   */
  method MergeNode(ghost t: Tree, ghost root: Node, order: int, p: Node, k: int, l: Node, r: Node, ghost t2: Tree)
    requires Mergeable(t, root, order, p, k) && l == t[p].kids[k] && r == t[p].kids[k + 1] && Mirrors(t, order)
    modifies p`data, p`children, p`degree, l`data, l`children, l`degree, r`children
    requires t2 == Merge(t, p, k)
    modifies Under(t, l, r)`parent, Under(t, l, r)`childIndex, Under(t, p, p)`childIndex
    ensures Mirrors(t2, order)
  {
    RotationPrep(t, root, order, p, k, l, r);
    ghost var pc, lc, rc := p.children, l.children, r.children;
    ghost var pd, ld, rd := p.data, l.data, r.data;
    assert |Joined(t, p, k)| == |t[l].vals| + 1 + |t[r].vals|;
    MergeFramed(t, root, order, p, k, l, r, pc, lc, rc, pd, ld, rd);
    MergeKids(t, root, order, p, k, l, r, pc, lc, rc);
    MergeSlots(t, root, order, p, k, l, r, pc, lc, rc);
    MergeLinked(t, root, order, p, k, l, r);
    MergeStored(t, root, order, p, k, l, r, pd, ld, rd);
  }

  /**
   * The root collapse of `rebalance` (Tema.cpp:402-413): the only child `c` of a root `p`
   * left without keys loses its parent and `p` lets go of it. Afterwards every node but `p`
   * agrees with the tree rooted at `c`.
   */
  method CollapseNode(ghost t: Tree, order: int, p: Node) returns (c: Node)
    requires Shape(t, p, order) && t[p].height > 0 && |t[p].vals| == 0 && Mirrors(t, order)
    modifies p`children, Under(t, p, p)`parent
    ensures |t[p].kids| == 1 && c == t[p].kids[0] && c in t && c != p
    ensures Mirrors(Collapse(t, p), order)
  {
    CollapseShape(t, p, order);
    assert Linked(p, t[p], order);
    c := p.children[0];
    assert Core(t, p, order) && ChildOK(t, p, 0);
    assert c in Under(t, p, p);
    c.parent := null;
    p.children := p.children[0 := null];
    ghost var t2 := Collapse(t, p);
    forall n | n in t2
      ensures Linked(n, t2[n], order) && Stored(n, t2[n], order)
    {
      assert old(Linked(n, t[n], order) && Stored(n, t[n], order));
    }
  }

  /**
   * A rotation that leaves both siblings with at least `MinKeys` and fewer than `order`
   * keys leaves every node within its fill bounds, the underflowing sibling `x` included.
   */
  lemma RedistFill(t: Tree, root: Node, order: int, p: Node, k: int, a: int, x: Node)
    requires Redistributable(t, root, order, p, k, a) && (x == t[p].kids[k] || x == t[p].kids[k + 1])
    requires forall n :: n in t && n != x ==> Fill(t[n], n == root, order)
    requires MinKeys(order) <= a < order && MinKeys(order) <= |Joined(t, p, k)| - a - 1 < order
    ensures forall n :: n in Redistribute(t, p, k, a) ==> Fill(Redistribute(t, p, k, a)[n], n == root, order)
  {
    var t2 := Redistribute(t, p, k, a);
    RedistTop(t, root, order, p, k, a);
    forall n | n in t2
      ensures Fill(t2[n], n == root, order)
    {
      if n != t[p].kids[k] && n != t[p].kids[k + 1] {
        assert |t2[n].vals| == |t[n].vals|;
      }
    }
  }

  /**
   * A merge whose joined run has at least `MinKeys` and fewer than `order` keys leaves every
   * node but the parent within its fill bounds; the parent loses one key.
   */
  lemma MergeFill(t: Tree, root: Node, order: int, p: Node, k: int, x: Node)
    requires Mergeable(t, root, order, p, k) && (x == t[p].kids[k] || x == t[p].kids[k + 1])
    requires forall n :: n in t && n != x ==> Fill(t[n], n == root, order)
    requires MinKeys(order) <= |Joined(t, p, k)| < order
    ensures forall n :: n in Merge(t, p, k) && n != p ==> Fill(Merge(t, p, k)[n], n == root, order)
    ensures |Merge(t, p, k)[p].vals| + 1 == |t[p].vals|
  {
    var t2 := Merge(t, p, k);
    MergeTop(t, root, order, p, k);
    forall n | n in t2 && n != p
      ensures Fill(t2[n], n == root, order)
    {
      if n != t[p].kids[k] {
        assert t2[n].vals == t[n].vals;
      }
    }
  }

  /** The shape invariant holds and every node is within its fill bounds. */
  ghost predicate AtRest(t: Tree, root: Node, order: int)
  {
    Shape(t, root, order) && forall n :: n in t ==> Fill(t[n], n == root, order)
  }

  /** The shape invariant holds and every node but `x` is within its fill bounds. */
  ghost predicate RestsBut(t: Tree, root: Node, order: int, x: Node)
  {
    Shape(t, root, order) && forall n :: n in t && n != x ==> Fill(t[n], n == root, order)
  }

  /**
   * A rotation that leaves both siblings within their bounds, on a tree whose other nodes
   * are within theirs, gives a tree of the same shape, keys and heights with every node
   * within its bounds.
   */
  lemma RedistRests(t: Tree, root: Node, order: int, p: Node, k: int, a: int, x: Node)
    requires Redistributable(t, root, order, p, k, a) && (x == t[p].kids[k] || x == t[p].kids[k + 1])
    requires RestsBut(t, root, order, x)
    requires MinKeys(order) <= a < order && MinKeys(order) <= |Joined(t, p, k)| - a - 1 < order
    ensures var t2 := Redistribute(t, p, k, a);
      AtRest(t2, root, order) && t2[root].keys == t[root].keys && t2.Keys == t.Keys
  {
    RedistShape(t, root, order, p, k, a);
    RedistTop(t, root, order, p, k, a);
    RedistFill(t, root, order, p, k, a, x);
  }

  /**
   * A merge whose joined node is within its bounds, on a tree whose other nodes are within
   * theirs, gives a tree of the same shape and keys without the right sibling, in which only
   * the parent, one key shorter, may be out of its bounds.
   */
  lemma MergeRests(t: Tree, root: Node, order: int, p: Node, k: int, x: Node)
    requires Mergeable(t, root, order, p, k) && (x == t[p].kids[k] || x == t[p].kids[k + 1])
    requires RestsBut(t, root, order, x)
    requires MinKeys(order) <= |Joined(t, p, k)| < order
    ensures var t2 := Merge(t, p, k);
      Shape(t2, root, order) && t2[root].keys == t[root].keys && t2.Keys == t.Keys - {t[p].kids[k + 1]} &&
      p in t2 && t2[p].height == t[p].height && t2[root].height == t[root].height &&
      |t2[p].vals| + 1 == |t[p].vals| && |t2[p].vals| < order && (p != root ==> |t2[p].vals| + 1 >= MinKeys(order)) &&
      RestsBut(t2, root, order, p)
  {
    assert Fill(t[p], p == root, order);
    MergeShape(t, root, order, p, k);
    MergeTop(t, root, order, p, k);
    MergeFill(t, root, order, p, k, x);
  }
}
