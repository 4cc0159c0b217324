/**
 * The node store of the B-tree: the `treeNode` record of BTree/Tema.cpp, the abstract
 * view of a node, and the invariants that tie a node to its children and to its parent.
 *
 * A node keeps its keys in `data` (capacity `order`, one slot more than a resting
 * node needs, for the transient overflow before a split) and its children in
 * `children` (capacity `order + 1`). Only the first `degree` keys and, for an
 * internal node, the first `degree + 1` children are meaningful; key slots past
 * them hold stale values that no invariant constrains, and child slots past them
 * are null, because every operation clears the child slots it vacates.
 *
 * The abstract tree is a map from the live nodes to their `View`s: the node's own key
 * list, the set of keys stored in its whole subtree, its distance to the leaves, and
 * its links. The shape invariants are stated on the map alone; `Linked` and `Stored`
 * tie each node's fields to its view, and each of them reads that one node only.
 */
module BTreeNodes {

  /** Minimum number of keys in a non-root node: the `(order - 1) / 2` of Tema.cpp. */
  function MinKeys(order: int): int
  {
    (order - 1) / 2
  }

  class Node {
    var degree: int
    var childIndex: int
    var parent: Node?
    var data: seq<int>
    var children: seq<Node?>

    /** `treeNode(p_child_index, p_parent)`: an empty leaf whose slots are value-initialised. */
    constructor (order: nat, childIndex: int, parent: Node?)
      ensures this.degree == 0 && this.childIndex == childIndex && this.parent == parent
      ensures data == seq(order, _ => 0) && children == seq(order + 1, _ => null)
    {
      this.degree := 0;
      this.childIndex := childIndex;
      this.parent := parent;
      this.data := seq(order, _ => 0);
      this.children := seq(order + 1, _ => null);
    }
  }

  /**
   * The abstract view of a node: its key list `vals`, the keys of its subtree `keys`,
   * its `height` above the leaves, its `parent` and its slot `index` there, and its
   * children `kids` (none for a leaf, one more than `vals` for an internal node).
   */
  datatype View = View(vals: seq<int>, keys: set<int>, height: nat, parent: Node?, index: int, kids: seq<Node>)

  /** The abstract tree: the live nodes and their views. */
  type Tree = map<Node, View>

  ghost predicate Sorted(s: seq<int>)
  {
    forall i, j :: 0 <= i < j < |s| ==> s[i] < s[j]
  }

  /** `y` lies strictly between the separators that bound child `i` of a node with key list `vals`. */
  ghost predicate InSlot(vals: seq<int>, i: int, y: int)
  {
    (0 < i <= |vals| ==> vals[i - 1] < y) && (0 <= i < |vals| ==> y < vals[i])
  }

  /** What a view says about itself: capacity, sorted keys, child count, and a leaf's key set is its key list. */
  ghost predicate Local(v: View, order: int)
  {
    |v.vals| <= order && Sorted(v.vals) &&
    (v.height == 0 ==> v.kids == [] && v.keys == set y | y in v.vals) &&
    (v.height > 0 ==> |v.kids| == |v.vals| + 1)
  }

  /** Child `i` of `n` is live, points back to `n` at slot `i`, is one level lower and holds only keys of its slot. */
  ghost predicate ChildOK(t: Tree, n: Node, i: int)
    requires n in t && 0 <= i < |t[n].kids|
  {
    var c := t[n].kids[i];
    c in t && t[c].parent == n && t[c].index == i && t[c].height + 1 == t[n].height &&
    forall y :: y in t[c].keys ==> InSlot(t[n].vals, i, y)
  }

  /** The keys of the subtree under `c`, none for a node outside the tree. */
  ghost function KeysOf(t: Tree, c: Node): set<int>
  {
    if c in t then t[c].keys else {}
  }

  /** The keys of an internal node's subtree are its own keys and those of its children. */
  ghost predicate KeysUnion(t: Tree, n: Node)
    requires n in t
  {
    forall y :: y in t[n].keys <==>
      (y in t[n].vals || exists i :: 0 <= i < |t[n].kids| && y in KeysOf(t, t[n].kids[i]))
  }

  /** A node whose keys, key list and children are kept, over children whose key sets are kept, keeps the union. */
  lemma UnionKept(t: Tree, t2: Tree, n: Node)
    requires n in t && n in t2 && KeysUnion(t, n)
    requires t2[n].vals == t[n].vals && t2[n].kids == t[n].kids && t2[n].keys == t[n].keys
    requires forall j :: 0 <= j < |t[n].kids| ==> KeysOf(t2, t[n].kids[j]) == KeysOf(t, t[n].kids[j])
    ensures KeysUnion(t2, n)
  {
    var ks := t[n].kids;
    forall y
      ensures y in t2[n].keys <==> (y in t2[n].vals || exists i :: 0 <= i < |t2[n].kids| && y in KeysOf(t2, t2[n].kids[i]))
    {
      if exists i :: 0 <= i < |ks| && y in KeysOf(t, ks[i]) {
        var i :| 0 <= i < |ks| && y in KeysOf(t, ks[i]);
        assert y in KeysOf(t2, ks[i]);
      }
      if exists i :: 0 <= i < |ks| && y in KeysOf(t2, ks[i]) {
        var i :| 0 <= i < |ks| && y in KeysOf(t2, ks[i]);
        assert y in KeysOf(t, ks[i]);
      }
    }
  }

  /** The downward links of `n`. */
  ghost predicate Down(t: Tree, n: Node)
    requires n in t
  {
    (forall i :: 0 <= i < |t[n].kids| ==> ChildOK(t, n, i)) &&
    (t[n].height > 0 ==> KeysUnion(t, n))
  }

  /** The upward link of `n`: a node with a parent sits among its children at slot `index`. */
  ghost predicate Up(t: Tree, n: Node)
    requires n in t
  {
    var p := t[n].parent;
    p != null ==> p in t && 0 <= t[n].index < |t[p].kids| && t[p].kids[t[n].index] == n
  }

  /** The links of one node, in both directions, and its own layout. */
  ghost predicate Core(t: Tree, n: Node, order: int)
    requires n in t
  {
    Local(t[n], order) && Down(t, n) && Up(t, n)
  }

  /** The child slots `s` of a node hold its children `kids` in order, and null after them. */
  ghost predicate Slots(s: seq<Node?>, kids: seq<Node>, order: int)
  {
    |s| == order + 1 && |kids| <= order + 1 &&
    forall i :: 0 <= i < |s| ==> s[i] == if i < |kids| then kids[i] else null
  }

  /** The link fields of `n` agree with its view; the unused child slots are null. */
  ghost predicate Linked(n: Node, v: View, order: int)
    reads n`parent, n`childIndex, n`children
  {
    n.parent == v.parent && n.childIndex == v.index && Slots(n.children, v.kids, order)
  }

  /** The stored keys of `n` agree with its view: `data[..degree]` is the key list. */
  ghost predicate Stored(n: Node, v: View, order: int)
    reads n`degree, n`data
  {
    |n.data| == order && n.degree == |v.vals| && n.degree <= order && n.data[..n.degree] == v.vals
  }

  /** Fill bounds of a resting node: below `order` keys, at least `MinKeys` unless root, internal nodes non-empty. */
  ghost predicate Fill(v: View, isRoot: bool, order: int)
  {
    |v.vals| < order &&
    (!isRoot ==> |v.vals| >= MinKeys(order)) &&
    (v.height > 0 ==> |v.vals| >= 1)
  }

  /**
   * The shape invariant of the whole tree, with no claim about stored fields or fill:
   * one parentless root at slot 0 and the greatest height, and `Core` everywhere.
   */
  ghost predicate Shape(t: Tree, root: Node, order: int)
  {
    order >= 3 && root in t && t[root].parent == null && t[root].index == 0 &&
    (forall n :: n in t && t[n].parent == null ==> n == root) &&
    (forall n :: n in t ==> t[n].height <= t[root].height) &&
    forall n {:trigger Core(t, n, order)} :: n in t ==> Core(t, n, order)
  }
}
