/**
 * The node surgery of `rebalance` in BTree/Tema.cpp, field by field: the shifting loops
 * it runs inside one node, and the three steps built from them, the right rotation,
 * the left rotation and the merge. Each method says slot by slot what it wrote, in terms
 * of snapshots of the child slots it started from, and changes nothing its `modifies`
 * clause does not name; the abstract-tree consequences are drawn in `BTreeRebalance`.
 */
module BTreeShifts {
  import opened BTreeNodes
  import opened BTreeMoves

  /**
   * The shifts that open slot 0 for a right rotation (Tema.cpp:236-249): keys and children
   * move one slot up and every moved child's `child_index` grows by one. `kids` is a
   * snapshot of the child slots of `n`, all null (a leaf) or all set up to `degree`.
   */
  method ShiftEntriesRight(n: Node, ghost kids: seq<Node?>)
    requires 0 <= n.degree < |n.data| && n.degree + 1 < |n.children|
    requires n.children == kids && Injective(kids)
    requires forall j :: 0 <= j <= n.degree ==> (kids[j] == null <==> kids[0] == null)
    modifies n`data, n`children, Among(kids, 0, n.degree + 1)`childIndex
    ensures |n.data| == old(|n.data|) && |n.children| == |kids|
    ensures forall k {:trigger n.data[k]} :: 0 <= k < |n.data| ==>
      n.data[k] == if 0 < k <= n.degree then old(n.data[k - 1]) else old(n.data[k])
    ensures forall k {:trigger n.children[k]} :: 0 <= k < |n.children| ==>
      n.children[k] == if 0 < k <= n.degree + 1 then kids[k - 1] else kids[k]
    ensures forall j :: 0 <= j <= n.degree && kids[j] != null ==>
      kids[j].childIndex == old(kids[j].childIndex) + 1
  {
    var d := n.degree;
    n.children := n.children[d + 1 := n.children[d]];
    if n.children[0] != null {
      assert n.children[d + 1] == kids[d] && kids[d] in Among(kids, 0, d + 1);
      n.children[d + 1].childIndex := n.children[d + 1].childIndex + 1;
    }
    var i := d;
    while i > 0
      invariant 0 <= i <= d && n.degree == d
      invariant |n.data| == old(|n.data|) && |n.children| == |kids| && n.children[0] == kids[0]
      invariant forall k {:trigger n.data[k]} :: 0 <= k < |n.data| ==>
        n.data[k] == if i < k <= d then old(n.data[k - 1]) else old(n.data[k])
      invariant forall k {:trigger n.children[k]} :: 0 <= k < |n.children| ==>
        n.children[k] == if i < k <= d + 1 then kids[k - 1] else kids[k]
      invariant forall j :: 0 <= j <= d && kids[j] != null ==>
        kids[j].childIndex == old(kids[j].childIndex) + (if j >= i then 1 else 0)
    {
      n.data := n.data[i := n.data[i - 1]];
      n.children := n.children[i := n.children[i - 1]];
      if n.children[0] != null {
        assert n.children[i] == kids[i - 1] && kids[i - 1] in Among(kids, 0, d + 1);
        n.children[i].childIndex := n.children[i].childIndex + 1;
      }
      i := i - 1;
    }
  }

  /**
   * The shifts that close slot 0 after a left rotation (Tema.cpp:301-320): keys and children
   * from slot 1 on move one slot down, the freed key slot is reset and every moved child's
   * `child_index` shrinks by one. `kids` is a snapshot of the child slots of `n`.
   */
  method ShiftEntriesLeft(n: Node, ghost kids: seq<Node?>)
    requires 1 <= n.degree <= |n.data| && n.degree < |n.children|
    requires n.children == kids && Injective(kids)
    requires forall j :: 1 <= j <= n.degree ==> (kids[j] == null <==> kids[1] == null)
    modifies n`data, n`children, Among(kids, 1, n.degree + 1)`childIndex
    ensures |n.data| == old(|n.data|) && |n.children| == |kids|
    ensures forall k {:trigger n.data[k]} :: 0 <= k < |n.data| ==>
      n.data[k] == if k < n.degree - 1 then old(n.data[k + 1]) else if k == n.degree - 1 then 0 else old(n.data[k])
    ensures forall k {:trigger n.children[k]} :: 0 <= k < |n.children| ==>
      n.children[k] == if k < n.degree then kids[k + 1] else if k == n.degree then null else kids[k]
    ensures forall j :: 1 <= j <= n.degree && kids[j] != null ==>
      kids[j].childIndex == old(kids[j].childIndex) - 1
  {
    var d := n.degree;
    var i := 0;
    while i < d - 1
      invariant 0 <= i <= d - 1 && n.degree == d
      invariant |n.data| == old(|n.data|) && |n.children| == |kids|
      invariant forall k {:trigger n.data[k]} :: 0 <= k < |n.data| ==>
        n.data[k] == if k < i then old(n.data[k + 1]) else old(n.data[k])
      invariant forall k {:trigger n.children[k]} :: 0 <= k < |n.children| ==>
        n.children[k] == if k < i then kids[k + 1] else kids[k]
      invariant forall j :: 1 <= j <= d && kids[j] != null ==>
        kids[j].childIndex == old(kids[j].childIndex) - (if j <= i then 1 else 0)
    {
      n.data := n.data[i := n.data[i + 1]];
      n.children := n.children[i := n.children[i + 1]];
      if n.children[0] != null {
        assert n.children[0] == kids[1] && n.children[i] == kids[i + 1] && kids[i + 1] in Among(kids, 1, d + 1);
        n.children[i].childIndex := n.children[i].childIndex - 1;
      }
      i := i + 1;
    }
    n.data := n.data[d - 1 := 0];
    n.children := n.children[d - 1 := n.children[d]];
    n.children := n.children[d := null];
    if n.children[0] != null {
      assert n.children[0] == kids[1] && n.children[d - 1] == kids[d] && kids[d] in Among(kids, 1, d + 1);
      n.children[d - 1].childIndex := n.children[d - 1].childIndex - 1;
    }
  }

  /**
   * The copying loop of the merge (Tema.cpp:350-362): the keys of `right` go to the slots
   * of `left` from its degree on and its children, but the last, to the child slots from
   * there, each re-linked to `left` when `left` is internal; the child slots of `right`
   * that were read are cleared. `kids` is a snapshot of the child slots of `right`.
   */
  method AppendLoop(left: Node, right: Node, ghost kids: seq<Node?>)
    requires left != right && 0 < left.degree && 0 <= right.degree <= |right.data| && right.degree < |right.children|
    requires left.degree + right.degree <= |left.data| && left.degree + right.degree < |left.children|
    requires right.children == kids && Injective(kids)
    requires forall j :: 0 <= j <= right.degree ==> (kids[j] == null <==> left.children[0] == null)
    modifies left`data, left`children, left`degree, right`children
    modifies Among(kids, 0, right.degree)`parent, Among(kids, 0, right.degree)`childIndex
    ensures left.degree == old(left.degree) + right.degree
    ensures |left.data| == old(|left.data|) && |left.children| == old(|left.children|) && |right.children| == |kids|
    ensures left.children[0] == old(left.children[0])
    ensures forall i {:trigger left.data[i]} :: 0 <= i < |left.data| ==>
      left.data[i] == if old(left.degree) <= i < left.degree then right.data[i - old(left.degree)] else old(left.data[i])
    ensures forall i {:trigger left.children[i]} :: 0 <= i < |left.children| ==>
      left.children[i] == if old(left.degree) <= i < left.degree then kids[i - old(left.degree)] else old(left.children[i])
    ensures forall i {:trigger right.children[i]} :: 0 <= i < |right.children| ==>
      right.children[i] == if i < right.degree then null else kids[i]
    ensures forall j :: 0 <= j < right.degree && kids[j] != null ==>
      kids[j].parent == left && kids[j].childIndex == old(left.degree) + j
  {
    var d, e := left.degree, right.degree;
    var i := 0;
    while i < e
      invariant 0 <= i <= e && left.degree == d + i && right.degree == e
      invariant |left.data| == old(|left.data|) && |left.children| == old(|left.children|) && |right.children| == |kids|
      invariant forall k {:trigger left.data[k]} :: 0 <= k < |left.data| ==>
        left.data[k] == if d <= k < d + i then right.data[k - d] else old(left.data[k])
      invariant forall k {:trigger left.children[k]} :: 0 <= k < |left.children| ==>
        left.children[k] == if d <= k < d + i then kids[k - d] else old(left.children[k])
      invariant forall k {:trigger right.children[k]} :: 0 <= k < |right.children| ==>
        right.children[k] == if k < i then null else kids[k]
      invariant forall j :: 0 <= j < i && kids[j] != null ==> kids[j].parent == left && kids[j].childIndex == d + j
    {
      var c := right.children[i];
      left.data := left.data[d + i := right.data[i]];
      left.children := left.children[d + i := c];
      right.children := right.children[i := null];
      if left.children[0] != null {
        assert c == kids[i] && c in Among(kids, 0, e);
        c.parent := left;
        c.childIndex := d + i;
      }
      left.degree := d + i + 1;
      i := i + 1;
    }
  }

  /**
   * The copying of the merge (Tema.cpp:350-371): `AppendLoop`, then the last child of
   * `right` goes to the slot after the new last key of `left`. `kids` is a snapshot of the
   * child slots of `right`.
   */
  method AppendEntries(left: Node, right: Node, ghost kids: seq<Node?>)
    requires left != right && 0 < left.degree && 0 <= right.degree <= |right.data| && right.degree < |right.children|
    requires left.degree + right.degree <= |left.data| && left.degree + right.degree < |left.children|
    requires right.children == kids && Injective(kids)
    requires forall j :: 0 <= j <= right.degree ==> (kids[j] == null <==> left.children[0] == null)
    modifies left`data, left`children, left`degree, right`children
    modifies Among(kids, 0, right.degree + 1)`parent, Among(kids, 0, right.degree + 1)`childIndex
    ensures left.degree == old(left.degree) + right.degree
    ensures |left.data| == old(|left.data|) && |left.children| == old(|left.children|) && |right.children| == |kids|
    ensures forall i {:trigger left.data[i]} :: 0 <= i < |left.data| ==>
      left.data[i] == if old(left.degree) <= i < left.degree then right.data[i - old(left.degree)] else old(left.data[i])
    ensures forall i {:trigger left.children[i]} :: 0 <= i < |left.children| ==>
      left.children[i] == if old(left.degree) <= i <= left.degree then kids[i - old(left.degree)] else old(left.children[i])
    ensures forall i {:trigger right.children[i]} :: 0 <= i < |right.children| ==>
      right.children[i] == if i <= right.degree then null else kids[i]
    ensures forall j :: 0 <= j <= right.degree && kids[j] != null ==>
      kids[j].parent == left && kids[j].childIndex == old(left.degree) + j
  {
    var e := right.degree;
    AppendLoop(left, right, kids);
    left.children := left.children[left.degree := right.children[e]];
    right.children := right.children[e := null];
    if left.children[0] != null {
      var c := left.children[left.degree];
      assert c == kids[e] && c in Among(kids, 0, e + 1);
      c.parent := left;
      c.childIndex := left.degree;
    }
  }

  /**
   * The shifting loop of the merge in the parent (Tema.cpp:383-398): the key at `pos` and the
   * child after it leave `p`, later keys and children move one slot down, each moved child's
   * `child_index` shrinks by one, and the freed slots are reset. `kids` is a snapshot of the
   * child slots of `p`.
   */
  method CloseSlot(p: Node, pos: int, ghost kids: seq<Node?>)
    requires 0 <= pos < p.degree <= |p.data| && p.degree < |p.children|
    requires p.children == kids && Injective(kids)
    modifies p`data, p`children, p`degree, Among(kids, pos + 2, p.degree + 1)`childIndex
    ensures p.degree == old(p.degree) - 1 && |p.data| == old(|p.data|) && |p.children| == |kids|
    ensures forall i {:trigger p.data[i]} :: 0 <= i < |p.data| ==>
      p.data[i] == if pos <= i < p.degree then old(p.data[i + 1]) else if i == p.degree then 0 else old(p.data[i])
    ensures forall i {:trigger p.children[i]} :: 0 <= i < |p.children| ==>
      p.children[i] == if pos < i <= p.degree then kids[i + 1] else if i == p.degree + 1 then null else kids[i]
    ensures forall j :: pos + 2 <= j <= old(p.degree) && kids[j] != null ==>
      kids[j].childIndex == old(kids[j].childIndex) - 1
  {
    var d := p.degree;
    var i := pos;
    while i < d - 1
      invariant pos <= i <= d - 1 && p.degree == d
      invariant |p.data| == old(|p.data|) && |p.children| == |kids|
      invariant forall k {:trigger p.data[k]} :: 0 <= k < |p.data| ==>
        p.data[k] == if pos <= k < i then old(p.data[k + 1]) else old(p.data[k])
      invariant forall k {:trigger p.children[k]} :: 0 <= k < |p.children| ==>
        p.children[k] == if pos < k <= i then kids[k + 1] else kids[k]
      invariant forall j :: pos + 2 <= j <= d && kids[j] != null ==>
        kids[j].childIndex == old(kids[j].childIndex) - (if j <= i + 1 then 1 else 0)
    {
      p.data := p.data[i := p.data[i + 1]];
      p.children := p.children[i + 1 := p.children[i + 2]];
      if p.children[i + 1] != null {
        assert p.children[i + 1] == kids[i + 2] && kids[i + 2] in Among(kids, pos + 2, d + 1);
        p.children[i + 1].childIndex := p.children[i + 1].childIndex - 1;
      }
      i := i + 1;
    }
    p.data := p.data[d - 1 := 0];
    p.children := p.children[d := null];
    p.degree := d - 1;
  }

  /**
   * The right rotation of `rebalance` (Tema.cpp:236-269): `r` opens its first slots, the
   * separator at slot `k` of `p` comes down into them, the last key of its left sibling `l`
   * goes up in its place, and the last child of `l` becomes the first child of `r`.
   * `lc` and `rc` are snapshots of the child slots of `l` and `r`.
   */
  method RotateRightMoves(p: Node, l: Node, r: Node, k: int, ghost lc: seq<Node?>, ghost rc: seq<Node?>)
    requires p != l && p != r && l != r && 0 <= k < |p.data|
    requires 0 < l.degree <= |l.data| && l.degree < |l.children| && l.children == lc
    requires 0 <= r.degree < |r.data| && r.degree + 1 < |r.children| && r.children == rc && Injective(rc)
    requires forall j :: 0 <= j <= r.degree ==> (rc[j] == null <==> lc[0] == null)
    requires lc[l.degree] == null <==> lc[0] == null
    requires lc[l.degree] !in Among(rc, 0, r.degree + 1)
    modifies p`data, l`data, l`children, l`degree, r`data, r`children, r`degree
    modifies Among(rc, 0, r.degree + 1)`childIndex
    modifies {lc[l.degree]}`parent, {lc[l.degree]}`childIndex
    ensures p.data == old(p.data[k := l.data[l.degree - 1]])
    ensures l.degree == old(l.degree) - 1 && l.data == old(l.data[l.degree - 1 := 0])
    ensures l.children == if lc[0] == null then lc else lc[l.degree + 1 := null]
    ensures r.degree == old(r.degree) + 1 && |r.data| == old(|r.data|) && |r.children| == |rc|
    ensures forall i {:trigger r.data[i]} :: 0 <= i < |r.data| ==>
      r.data[i] == if i == 0 then old(p.data[k]) else if i < r.degree then old(r.data[i - 1]) else old(r.data[i])
    ensures forall i {:trigger r.children[i]} :: 0 <= i < |r.children| ==>
      r.children[i] == if i == 0 then lc[l.degree + 1] else if i <= r.degree then rc[i - 1] else rc[i]
    ensures forall j :: 0 <= j < r.degree && rc[j] != null ==> rc[j].childIndex == old(rc[j].childIndex) + 1
    ensures lc[l.degree + 1] != null ==> lc[l.degree + 1].parent == r && lc[l.degree + 1].childIndex == 0
  {
    ShiftEntriesRight(r, rc);
    r.data := r.data[0 := p.data[k]];
    p.data := p.data[k := l.data[l.degree - 1]];
    l.data := l.data[l.degree - 1 := 0];
    r.children := r.children[0 := l.children[l.degree]];
    if l.children[0] != null {
      var c := l.children[l.degree];
      c.parent := r;
      c.childIndex := 0;
      l.children := l.children[l.degree := null];
    }
    l.degree := l.degree - 1;
    r.degree := r.degree + 1;
  }

  /**
   * The left rotation of `rebalance` (Tema.cpp:271-322): the separator at slot `k` of `p`
   * comes down after the last key of `l`, the first key of its right sibling `r` goes up in
   * its place, the first child of `r` becomes the last child of `l`, and `r` closes its first
   * slots. `rc` is a snapshot of the child slots of `r`.
   */
  method RotateLeftMoves(p: Node, l: Node, r: Node, k: int, ghost rc: seq<Node?>)
    requires p != l && p != r && l != r && 0 <= k < |p.data|
    requires 0 <= l.degree < |l.data| && l.degree + 1 < |l.children|
    requires 1 <= r.degree <= |r.data| && r.degree < |r.children| && r.children == rc && Injective(rc)
    requires forall j :: 0 <= j <= r.degree ==> (rc[j] == null <==> rc[0] == null)
    modifies p`data, l`data, l`children, l`degree, r`data, r`children, r`degree
    modifies Among(rc, 0, r.degree + 1)`parent, Among(rc, 0, r.degree + 1)`childIndex
    ensures p.data == old(p.data[k := r.data[0]])
    ensures l.degree == old(l.degree) + 1 && l.data == old(l.data[l.degree := p.data[k]])
    ensures l.children == old(l.children[l.degree + 1 := rc[0]])
    ensures r.degree == old(r.degree) - 1 && |r.data| == old(|r.data|) && |r.children| == |rc|
    ensures forall i {:trigger r.data[i]} :: 0 <= i < |r.data| ==>
      r.data[i] == if i < r.degree then old(r.data[i + 1]) else if i == r.degree then 0 else old(r.data[i])
    ensures forall i {:trigger r.children[i]} :: 0 <= i < |r.children| ==>
      r.children[i] == if i <= r.degree then rc[i + 1] else if i == r.degree + 1 then null else rc[i]
    ensures rc[0] != null ==> rc[0].parent == l && rc[0].childIndex == l.degree
    ensures forall j :: 1 <= j <= r.degree + 1 && rc[j] != null ==> rc[j].childIndex == old(rc[j].childIndex) - 1
    ensures forall j :: 1 <= j <= r.degree + 1 && rc[j] != null ==> rc[j].parent == old(rc[j].parent)
  {
    l.data := l.data[l.degree := p.data[k]];
    p.data := p.data[k := r.data[0]];
    l.children := l.children[l.degree + 1 := r.children[0]];
    if r.children[0] != null {
      var c := r.children[0];
      assert c in Among(rc, 0, r.degree + 1);
      c.parent := l;
      c.childIndex := l.degree + 1;
    }
    Outside(rc, 1, r.degree + 1);
    ShiftEntriesLeft(r, rc);
    r.degree := r.degree - 1;
    l.degree := l.degree + 1;
  }

  /**
   * The node surgery of the merge in `rebalance` (Tema.cpp:342-386): the separator at slot
   * `k` of `p` comes down to the end of `l`, the keys and children of `r` follow it, and `p`
   * closes the gap the separator and `r` leave.
   */
  method MergeMoves(p: Node, l: Node, r: Node, k: int, ghost pc: seq<Node?>, ghost rc: seq<Node?>)
    requires p != l && p != r && l != r
    requires 0 <= k < p.degree <= |p.data| && p.degree < |p.children| && p.children == pc && Injective(pc)
    requires 0 <= l.degree && l.degree + 1 + r.degree <= |l.data| && l.degree + 1 + r.degree < |l.children|
    requires 0 <= r.degree <= |r.data| && r.degree < |r.children| && r.children == rc && Injective(rc)
    requires forall j :: 0 <= j <= r.degree ==> (rc[j] == null <==> l.children[0] == null)
    requires Among(rc, 0, r.degree + 1) !! Among(pc, k + 2, p.degree + 1)
    modifies p`data, p`children, p`degree, l`data, l`children, l`degree, r`children
    modifies Among(rc, 0, r.degree + 1)`parent, Among(rc, 0, r.degree + 1)`childIndex
    modifies Among(pc, k + 2, p.degree + 1)`childIndex
    ensures l.degree == old(l.degree + 1 + r.degree) && |l.data| == old(|l.data|) && |l.children| == old(|l.children|)
    ensures forall i {:trigger l.data[i]} :: 0 <= i < |l.data| ==>
      l.data[i] == if i == old(l.degree) then old(p.data[k])
        else if old(l.degree) < i < l.degree then r.data[i - old(l.degree) - 1] else old(l.data[i])
    ensures forall i {:trigger l.children[i]} :: 0 <= i < |l.children| ==>
      l.children[i] == if old(l.degree) < i <= l.degree then rc[i - old(l.degree) - 1] else old(l.children[i])
    ensures forall j :: 0 <= j <= old(r.degree) && rc[j] != null ==>
      rc[j].parent == l && rc[j].childIndex == old(l.degree) + 1 + j
    ensures p.degree == old(p.degree) - 1 && |p.data| == old(|p.data|) && |p.children| == |pc|
    ensures forall i {:trigger p.data[i]} :: 0 <= i < |p.data| ==>
      p.data[i] == if k <= i < p.degree then old(p.data[i + 1]) else if i == p.degree then 0 else old(p.data[i])
    ensures forall i {:trigger p.children[i]} :: 0 <= i < |p.children| ==>
      p.children[i] == if k < i <= p.degree then pc[i + 1] else if i == p.degree + 1 then null else pc[i]
    ensures forall j :: k + 2 <= j <= old(p.degree) && pc[j] != null ==> pc[j].childIndex == old(pc[j].childIndex) - 1
  {
    l.data := l.data[l.degree := p.data[k]];
    l.degree := l.degree + 1;
    AppendEntries(l, r, rc);
    CloseSlot(p, k, pc);
  }
}
