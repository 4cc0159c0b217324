/**
 * The slot-shifting loops of BTree/Tema.cpp, one method per loop: they move keys
 * and child pointers between the slots of one or two nodes and repair the
 * `parent` / `child_index` back-links of the children they move. Each one changes
 * only the fields its `modifies` clause names and says slot by slot what it wrote;
 * the tree-level consequences are drawn by the callers in the `BTree` class.
 */
module BTreeMoves {
  import opened BTreeNodes

  /** The shifting loop of `insertInto` (Tema.cpp:92-93): keys `i .. degree - 1` move one slot up. */
  method OpenDataSlot(n: Node, i: int)
    requires 0 <= i <= n.degree < |n.data|
    modifies n`data
    ensures |n.data| == old(|n.data|)
    ensures forall k :: 0 <= k < |n.data| ==>
      n.data[k] == if i < k <= n.degree then old(n.data[k - 1]) else old(n.data[k])
  {
    var j := n.degree;
    while j > i
      invariant i <= j <= n.degree && |n.data| == old(|n.data|)
      invariant forall k :: 0 <= k < |n.data| ==>
        n.data[k] == if j < k <= n.degree then old(n.data[k - 1]) else old(n.data[k])
    {
      n.data := n.data[j := n.data[j - 1]];
      j := j - 1;
    }
  }

  /** The nodes in slots `lo .. hi - 1` of a snapshot of child slots. */
  ghost function Among(s: seq<Node?>, lo: int, hi: int): set<Node?>
    requires 0 <= lo <= hi <= |s|
  {
    set j | lo <= j < hi && s[j] != null :: s[j]
  }

  /** No node occupies two slots of `s`. */
  ghost predicate Injective(s: seq<Node?>)
  {
    forall j, k :: 0 <= j < k < |s| && s[j] != null ==> s[j] != s[k]
  }

  /** A node in a slot outside `lo .. hi - 1` of an injective snapshot is not among that range. */
  lemma Outside(s: seq<Node?>, lo: int, hi: int)
    requires Injective(s) && 0 <= lo <= hi <= |s|
    ensures forall j :: 0 <= j < |s| && !(lo <= j < hi) && s[j] != null ==> s[j] !in Among(s, lo, hi)
  {
  }

  /** The shifting loop of `removeFrom` (Tema.cpp:439-440): keys `pos + 1 .. degree - 1` move one slot down. */
  method CloseDataSlot(n: Node, pos: int)
    requires 0 <= pos < n.degree <= |n.data|
    modifies n`data
    ensures |n.data| == old(|n.data|)
    ensures forall k :: 0 <= k < |n.data| ==>
      n.data[k] == if pos <= k < n.degree - 1 then old(n.data[k + 1]) else old(n.data[k])
  {
    var i := pos;
    while i < n.degree - 1
      invariant pos <= i <= n.degree - 1 && |n.data| == old(|n.data|)
      invariant forall k :: 0 <= k < |n.data| ==>
        n.data[k] == if pos <= k < i then old(n.data[k + 1]) else old(n.data[k])
    {
      n.data := n.data[i := n.data[i + 1]];
      i := i + 1;
    }
  }

  /**
   * A copying loop of `split` with the child move after it (Tema.cpp:125-142 for the
   * left half, 147-164 for the right): keys `lo .. hi - 1` of `src` and the children
   * on both sides of them, `lo .. hi`, go to the first slots of the empty node `dst`;
   * each moved child is re-linked to `dst` and its old slot cleared. `kids` is a
   * snapshot of the child slots of `src`.
   */
  method MoveHalf(src: Node, lo: int, hi: int, dst: Node, ghost kids: seq<Node?>)
    requires src != dst && 0 <= lo <= hi <= |src.data| && hi < |src.children| && hi < |kids|
    requires dst.degree == 0 && hi - lo <= |dst.data| && hi - lo < |dst.children|
    requires Injective(kids) && forall j :: lo <= j <= hi ==> src.children[j] == kids[j]
    modifies src`children, dst`data, dst`children, dst`degree
    modifies Among(kids, lo, hi + 1)`parent, Among(kids, lo, hi + 1)`childIndex
    ensures dst.degree == hi - lo
    ensures |dst.data| == old(|dst.data|) && |dst.children| == old(|dst.children|)
    ensures |src.children| == old(|src.children|)
    ensures forall k :: 0 <= k < hi - lo ==> dst.data[k] == src.data[lo + k]
    ensures forall k :: 0 <= k < |dst.children| ==>
      dst.children[k] == if k <= hi - lo then kids[lo + k] else old(dst.children[k])
    ensures forall k :: 0 <= k < |src.children| ==>
      src.children[k] == if lo <= k <= hi then null else old(src.children[k])
    ensures forall j :: lo <= j <= hi && kids[j] != null ==> kids[j].parent == dst && kids[j].childIndex == j - lo
  {
    var i := lo;
    while i <= hi
      invariant lo <= i <= hi + 1 && dst.degree == (if i <= hi then i - lo else hi - lo)
      invariant |dst.data| == old(|dst.data|) && |dst.children| == old(|dst.children|)
      invariant |src.children| == old(|src.children|)
      invariant forall k :: 0 <= k < i - lo && k < hi - lo ==> dst.data[k] == src.data[lo + k]
      invariant forall k :: 0 <= k < |dst.children| ==>
        dst.children[k] == if k < i - lo then kids[lo + k] else old(dst.children[k])
      invariant forall k :: 0 <= k < |src.children| ==>
        src.children[k] == if lo <= k < i then null else old(src.children[k])
      invariant forall j :: lo <= j < i && kids[j] != null ==> kids[j].parent == dst && kids[j].childIndex == j - lo
    {
      if i < hi {
        dst.data := dst.data[i - lo := src.data[i]];
        dst.degree := dst.degree + 1;
      }
      dst.children := dst.children[i - lo := src.children[i]];
      if src.children[i] != null {
        assert src.children[i] in Among(kids, lo, hi + 1);
        src.children[i].parent := dst;
        src.children[i].childIndex := i - lo;
      }
      src.children := src.children[i := null];
      i := i + 1;
    }
  }

  /**
   * The shifting loop of `split` (Tema.cpp:168-173): children `ci + 1 .. degree` of
   * `p` move one slot up, each counting its `child_index` one further. `kids` is a
   * snapshot of the child slots of `p`, whose children point back at their slots.
   */
  method OpenChildSlot(p: Node, ci: int, ghost kids: seq<Node?>)
    requires 0 <= ci <= p.degree && p.degree + 1 < |p.children| && p.degree < |kids|
    requires Injective(kids)
    requires forall j :: ci + 1 <= j <= p.degree ==> p.children[j] == kids[j]
    requires forall j :: ci + 1 <= j <= p.degree && kids[j] != null ==> kids[j].childIndex == j
    modifies p`children, Among(kids, ci + 1, p.degree + 1)`childIndex
    ensures |p.children| == old(|p.children|)
    ensures forall k :: 0 <= k < |p.children| ==>
      p.children[k] == if ci + 1 < k <= p.degree + 1 then old(p.children[k - 1]) else old(p.children[k])
    ensures forall j :: ci + 1 <= j <= p.degree && kids[j] != null ==> kids[j].childIndex == j + 1
  {
    var i := p.degree + 1;
    while i > ci + 1
      invariant ci + 1 <= i <= p.degree + 1 && |p.children| == old(|p.children|)
      invariant forall k :: 0 <= k < |p.children| ==>
        p.children[k] == if i < k <= p.degree + 1 then old(p.children[k - 1]) else old(p.children[k])
      invariant forall j :: ci + 1 <= j <= p.degree && kids[j] != null ==>
        kids[j].childIndex == (if j >= i then j + 1 else j)
    {
      p.children := p.children[i := p.children[i - 1]];
      if p.children[i] != null {
        assert p.children[i] == kids[i - 1];
        assert p.children[i] in Among(kids, ci + 1, p.degree + 1);
        p.children[i].childIndex := p.children[i].childIndex + 1;
      }
      i := i - 1;
    }
  }

  /**
   * The copying loops of `split` (Tema.cpp:123-164): `x` hands its keys before the median
   * `med`, with the children around them, to the empty `left`, and those after it to the
   * empty `right`. `xc` is a snapshot of the child slots of `x`.
   */
  method SplitHalves(x: Node, left: Node, right: Node, med: int, ghost xc: seq<Node?>)
    requires x != left && x != right && left != right
    requires 0 <= med < x.degree <= |x.data| && x.degree + 1 == |x.children|
    requires left.degree == 0 && right.degree == 0
    requires x.degree <= |left.data| && x.degree <= |left.children| && x.degree <= |right.data| && x.degree <= |right.children|
    requires x.children == xc && Injective(xc)
    modifies x`children, left`data, left`children, left`degree, right`data, right`children, right`degree
    modifies Among(xc, 0, |xc|)`parent, Among(xc, 0, |xc|)`childIndex
    ensures left.degree == med && right.degree == x.degree - med - 1
    ensures |left.data| == old(|left.data|) && |right.data| == old(|right.data|)
    ensures forall k :: 0 <= k < med ==> left.data[k] == x.data[k]
    ensures forall k :: 0 <= k < x.degree - med - 1 ==> right.data[k] == x.data[med + 1 + k]
    ensures |left.children| == old(|left.children|) && |right.children| == old(|right.children|)
    ensures forall k :: 0 <= k < |left.children| ==>
      left.children[k] == if k <= med then xc[k] else old(left.children[k])
    ensures forall k :: 0 <= k < |right.children| ==>
      right.children[k] == if k < x.degree - med then xc[med + 1 + k] else old(right.children[k])
    ensures forall j :: 0 <= j <= x.degree && xc[j] != null ==>
      xc[j].parent == (if j <= med then left else right) &&
      xc[j].childIndex == (if j <= med then j else j - med - 1)
  {
    var deg := x.degree;
    MoveHalf(x, 0, med, left, xc);
    Outside(xc, med + 1, deg + 1);
    MoveHalf(x, med + 1, deg, right, xc);
  }

  /**
   * The node surgery of `split` (Tema.cpp:123-177): the copying loops, then the two
   * halves take the slot of `x` among the children of `p`, whose later children move
   * one slot up. `xc` and `pc` are snapshots of the child slots of `x` and `p`. The
   * median itself stays in `x` for `insertInto`.
   */
  method SplitEntries(x: Node, p: Node, left: Node, right: Node, med: int, ghost xc: seq<Node?>, ghost pc: seq<Node?>)
    requires x != p && x != left && x != right && p != left && p != right && left != right
    requires 0 <= med < x.degree <= |x.data| && x.degree + 1 == |x.children|
    requires left.degree == 0 && right.degree == 0
    requires x.degree <= |left.data| && x.degree <= |left.children| && x.degree <= |right.data| && x.degree <= |right.children|
    requires 0 <= x.childIndex <= p.degree && p.degree + 1 < |p.children|
    requires x.children == xc && p.children == pc && Injective(xc) && Injective(pc)
    requires forall j :: 0 <= j < |xc| && xc[j] != null ==> xc[j] != x && xc[j] != p
    requires forall j, k :: 0 <= j < |xc| && x.childIndex < k <= p.degree && xc[j] != null ==> xc[j] != pc[k]
    requires forall j :: x.childIndex < j <= p.degree && pc[j] != null ==> pc[j].childIndex == j && pc[j] != x
    modifies x`children, left`data, left`children, left`degree, right`data, right`children, right`degree, p`children
    modifies Among(xc, 0, |xc|)`parent, Among(xc, 0, |xc|)`childIndex
    modifies Among(pc, x.childIndex + 1, p.degree + 1)`childIndex
    ensures x.childIndex == old(x.childIndex)
    ensures left.degree == med && right.degree == x.degree - med - 1
    ensures |left.data| == old(|left.data|) && |right.data| == old(|right.data|)
    ensures forall k :: 0 <= k < med ==> left.data[k] == x.data[k]
    ensures forall k :: 0 <= k < x.degree - med - 1 ==> right.data[k] == x.data[med + 1 + k]
    ensures |left.children| == old(|left.children|) && |right.children| == old(|right.children|)
    ensures forall k :: 0 <= k < |left.children| ==>
      left.children[k] == if k <= med then xc[k] else old(left.children[k])
    ensures forall k :: 0 <= k < |right.children| ==>
      right.children[k] == if k < x.degree - med then xc[med + 1 + k] else old(right.children[k])
    ensures |p.children| == old(|p.children|)
    ensures forall k {:trigger p.children[k]} :: 0 <= k < |p.children| ==>
      p.children[k] ==
        if k == x.childIndex then left else if k == x.childIndex + 1 then right
        else if x.childIndex + 1 < k <= p.degree + 1 then pc[k - 1] else pc[k]
    ensures forall j :: 0 <= j <= x.degree && xc[j] != null ==>
      xc[j].parent == (if j <= med then left else right) &&
      xc[j].childIndex == (if j <= med then j else j - med - 1)
    ensures forall j :: x.childIndex < j <= p.degree && pc[j] != null ==> pc[j].childIndex == j + 1
  {
    SplitHalves(x, left, right, med, xc);
    OpenChildSlot(p, x.childIndex, pc);
    p.children := p.children[x.childIndex := left];
    p.children := p.children[x.childIndex + 1 := right];
  }
}
