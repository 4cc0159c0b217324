/**
 * The `BTree<int, order>` class of BTree/Tema.cpp: the root pointer, the element
 * counter `size`, navigation over `parent` / `children` links and the public queries.
 *
 * Ghost state: `T` maps every live node to its abstract view (a node that the C++
 * code deletes leaves it) and `Contents` is the set of stored keys.
 */
module BTrees {
  import opened BTreeNodes
  import opened BTreeShape
  import opened BTreeMoves
  import opened BTreeFindings
  import opened BTreeGrow
  import opened BTreeSplit
  import opened BTreeRelink
  import opened BTreeShrink
  import opened BTreeSiblings
  import opened BTreeRotate
  import opened BTreeMerge
  import opened BTreeRebalance

  datatype Option<T> = None | Some(value: T)

  /** `BTree::iterator`: a node and a slot in it; the two sentinels carry a null node. */
  datatype Iterator = Iterator(node: Node?, pos: int)

  /** `iend` (past the maximum) and `irend` (before the minimum). */
  const IEnd := Iterator(null, 1)
  const IREnd := Iterator(null, -1)

  /** `v` lies strictly inside the open interval (lo, hi); a missing bound is infinite. */
  predicate Within(v: int, lo: Option<int>, hi: Option<int>)
  {
    (lo.Some? ==> lo.value < v) && (hi.Some? ==> v < hi.value)
  }

  /** Appending a key above every element keeps a sequence strictly increasing. */
  lemma SortedAppend(s: seq<int>, x: int)
    requires Sorted(s) && forall z :: z in s ==> z < x
    ensures Sorted(s + [x])
  {
    forall i | 0 <= i < |s|
      ensures s[i] < x
    {
      assert s[i] in s;
    }
  }

  /** One step of a range walk: appending the current key `k` moves the bound of `out` up to the next key `hi`. */
  lemma RangeGrows(c: set<int>, out: seq<int>, l: int, u: int, k: int, hi: Option<int>)
    requires Sorted(out) && forall z :: z in out ==> z <= u
    requires forall z :: z in out <==> z in c && l <= z && z < k
    requires k in c && l <= k <= u
    requires forall z :: z in c && z <= k <==> z in c && (hi.None? || z < hi.value)
    ensures Sorted(out + [k]) && forall z :: z in out + [k] ==> z <= u
    ensures forall z :: z in out + [k] <==> z in c && l <= z && (hi.None? || z < hi.value)
  {
    SortedAppend(out, k);
  }

  class BTree {
    const order: int
    var root: Node
    var size: int
    ghost var T: Tree
    ghost var Contents: set<int>

    /** Every live node's link fields agree with its view. */
    ghost predicate AllLinked()
      reads this`T, T.Keys`parent, T.Keys`childIndex, T.Keys`children
    {
      forall n {:trigger Linked(n, T[n], order)} :: n in T ==> Linked(n, T[n], order)
    }

    /** Every live node other than `x` stores its key list and is within its fill bounds. */
    ghost predicate RestingBut(x: Node?)
      reads this`T, this`root, T.Keys`degree, T.Keys`data
    {
      forall n {:trigger Stored(n, T[n], order)} :: n in T && n != x ==>
        Stored(n, T[n], order) && Fill(T[n], n == root, order)
    }

    /** The tree invariant at rest, except for the element counter. */
    ghost predicate Sound()
      reads this`T, this`root, this`Contents, T.Keys`parent, T.Keys`childIndex, T.Keys`children, T.Keys`degree, T.Keys`data
    {
      Shape(T, root, order) && Contents == T[root].keys && AllLinked() && RestingBut(null)
    }

    /** The tree invariant at rest: a sound tree whose counter `size` is its number of keys. */
    ghost predicate Valid()
      reads this`T, this`root, this`Contents, this`size, T.Keys`parent, T.Keys`childIndex, T.Keys`children, T.Keys`degree, T.Keys`data
    {
      Sound() && size == |Contents|
    }

    /** `BTree()`: an empty leaf as the root and no elements; `order` is the template parameter. */
    constructor (order: int)
      requires order >= 3
      ensures Valid() && fresh(T.Keys) && Contents == {} && this.order == order
    {
      this.order := order;
      var r := new Node(order, 0, null);
      root := r;
      size := 0;
      T := map[r := View([], {}, 0, null, 0, [])];
      Contents := {};
      new;
      assert Core(T, r, order) && Linked(r, T[r], order) && Stored(r, T[r], order);
    }

    /** What the invariant says about one live node, with its stored keys read slot by slot. */
    lemma Facts(n: Node)
      requires Sound() && n in T
      ensures Core(T, n, order) && Linked(n, T[n], order) && Stored(n, T[n], order) && Fill(T[n], n == root, order)
      ensures forall j :: 0 <= j < n.degree ==> n.data[j] == T[n].vals[j]
      ensures T[n].height == 0 <==> n.children[0] == null
    {
      assert Core(T, n, order) && Linked(n, T[n], order) && Stored(n, T[n], order);
      forall j | 0 <= j < n.degree
        ensures n.data[j] == T[n].vals[j]
      {
        assert n.data[..n.degree][j] == n.data[j];
      }
    }

    /** The key under a position is the stored key in its slot. */
    lemma KeyStored(it: Iterator)
      requires Sound() && IsKeyPos(it)
      ensures Stored(it.node, T[it.node], order) && it.pos < it.node.degree && it.node.data[it.pos] == KeyAt(it)
    {
      assert Stored(it.node, T[it.node], order);
      assert it.node.data[..it.node.degree][it.pos] == it.node.data[it.pos];
    }

    /** `it` designates a stored key: a live node and a slot below its degree. */
    ghost predicate IsKeyPos(it: Iterator)
      reads this
    {
      it.node != null && it.node in T && 0 <= it.pos < |T[it.node].vals|
    }

    /** `it` is a slot of a live node, at most one past its last key (where `nodeSearch` may stop). */
    ghost predicate Spot(it: Iterator)
      reads this
    {
      it.node != null && it.node in T && 0 <= it.pos <= |T[it.node].vals|
    }

    /** The key under a position (`operator*`), read through the abstract key list. */
    ghost function KeyAt(it: Iterator): int
      requires IsKeyPos(it)
      reads this
    {
      T[it.node].vals[it.pos]
    }

    /** Node `n` holds exactly the tree's keys inside (lo, hi), and nothing outside it. */
    ghost predicate Covers(n: Node, lo: Option<int>, hi: Option<int>)
      requires n in T
      reads this
    {
      T[n].keys <= Contents &&
      (forall y :: y in T[n].keys ==> Within(y, lo, hi)) &&
      (forall y :: y in Contents && Within(y, lo, hi) ==> y in T[n].keys)
    }

    /**
     * Every key of the tree outside the key list of `n` is below both `v` and all
     * of `n`'s keys, or above both: `v` falls in the gap that `n` covers.
     */
    ghost predicate Gap(n: Node, v: int)
      requires n in T
      reads this
    {
      InGap(Contents, T[n].vals, v)
    }

    /** The candidate slot of `nodeSearch` holds `v` itself. */
    ghost predicate Hit(it: Iterator, v: int)
      reads this
    {
      IsKeyPos(it) && KeyAt(it) == v
    }

    /** Descending from a node that covers (lo, hi) into child `i` narrows the interval to that slot. */
    lemma DescendCovers(n: Node, i: int, lo: Option<int>, hi: Option<int>)
      requires Sound() && n in T && T[n].height > 0 && 0 <= i <= |T[n].vals|
      requires Covers(n, lo, hi)
      ensures i < |T[n].kids| && T[n].kids[i] in T && T[T[n].kids[i]].height < T[n].height
      ensures Covers(T[n].kids[i],
        if i > 0 then Some(T[n].vals[i - 1]) else lo, if i < |T[n].vals| then Some(T[n].vals[i]) else hi)
    {
      ChildFacts(T, root, order, n, i);
      ValsInKeys(T, n, order);
      var vs := T[n].vals;
      var c := T[n].kids[i];
      if i > 0 {
        assert vs[i - 1] in T[n].keys;
      }
      if i < |vs| {
        assert vs[i] in T[n].keys;
      }
      var lo', hi' := if i > 0 then Some(vs[i - 1]) else lo, if i < |vs| then Some(vs[i]) else hi;
      forall y | y in T[c].keys
        ensures y in T[n].keys && Within(y, lo', hi')
      {
        assert y in KeysOf(T, c);
      }
      forall y | y in Contents && Within(y, lo', hi')
        ensures y in T[c].keys
      {
        assert Within(y, lo, hi);
        assert y in T[n].keys;
        if y !in vs {
          var j :| 0 <= j < |T[n].kids| && y in KeysOf(T, T[n].kids[j]);
          ChildFacts(T, root, order, n, j);
          assert j == i;
        }
      }
    }

    /**
     * Tema.cpp `nodeSearch`: the node and slot where `v` is, or where it would be inserted.
     * The stop test reads a slot's key only when the slot holds one (see the findings in
     * README.md); the loop runs until it returns, as every child slot it follows is in use.
     */
    method NodeSearch(v: int) returns (it: Iterator)
      requires Valid()
      ensures Spot(it)
      ensures forall j :: 0 <= j < it.pos ==> T[it.node].vals[j] < v
      ensures it.pos < |T[it.node].vals| ==> v <= T[it.node].vals[it.pos]
      ensures v in Contents <==> Hit(it, v)
      ensures !Hit(it, v) ==> T[it.node].height == 0 && Gap(it.node, v)
    {
      var crt := root;
      if size > 0 {
        ghost var lo: Option<int> := None;
        ghost var hi: Option<int> := None;
        while true
          invariant crt in T && Covers(crt, lo, hi) && Within(v, lo, hi)
          decreases T[crt].height
        {
          Facts(crt);
          var i := 0;
          while i < crt.degree && crt.data[i] < v
            invariant 0 <= i <= crt.degree
            invariant forall j :: 0 <= j < i ==> crt.data[j] < v
          {
            i := i + 1;
          }
          if Stops(crt.data, crt.degree, i, v, crt.children[i] == null) {
            it := Iterator(crt, i);
            SearchStop(it, v, lo, hi);
            return;
          }
          DescendCovers(crt, i, lo, hi);
          lo, hi := if i > 0 then Some(T[crt].vals[i - 1]) else lo, if i < |T[crt].vals| then Some(T[crt].vals[i]) else hi;
          crt := crt.children[i];
        }
      }
      it := Iterator(crt, 0);
      EmptyIsLeaf();
    }

    /** Where the descent of `nodeSearch` stops, the slot answers membership and the node covers `v`'s gap. */
    lemma SearchStop(it: Iterator, v: int, lo: Option<int>, hi: Option<int>)
      requires Sound() && Spot(it)
      requires Covers(it.node, lo, hi) && Within(v, lo, hi)
      requires forall j :: 0 <= j < it.pos ==> T[it.node].vals[j] < v
      requires it.pos < |T[it.node].vals| ==> v <= T[it.node].vals[it.pos]
      requires (it.pos < |T[it.node].vals| && T[it.node].vals[it.pos] == v) || it.pos >= |T[it.node].kids|
      ensures v in Contents <==> Hit(it, v)
      ensures !Hit(it, v) ==> T[it.node].height == 0 && Gap(it.node, v)
    {
      var n := it.node;
      var vs := T[n].vals;
      Facts(n);
      ValsInKeys(T, n, order);
      if !Hit(it, v) {
        assert T[n].height == 0;
        forall y | y in Contents && y !in vs
          ensures (y < v && forall j :: 0 <= j < |vs| ==> y < vs[j]) ||
                  (y > v && forall j :: 0 <= j < |vs| ==> y > vs[j])
        {
          assert !Within(y, lo, hi);
          if lo.Some? && y <= lo.value {
            assert forall j :: 0 <= j < |vs| ==> vs[j] in T[n].keys;
          } else {
            assert hi.Some? && y >= hi.value;
            assert forall j :: 0 <= j < |vs| ==> vs[j] in T[n].keys;
          }
        }
        forall j | 0 <= j < |vs|
          ensures vs[j] != v
        {
          if j > it.pos {
            assert vs[it.pos] < vs[j];
          }
        }
      }
    }

    /** `y` is the least stored key above `x`. */
    ghost predicate IsNext(x: int, y: int)
      reads this
    {
      y in Contents && x < y && forall z :: z in Contents && x < z ==> y <= z
    }

    /** `y` is the greatest stored key below `x`. */
    ghost predicate IsPrev(x: int, y: int)
      reads this
    {
      y in Contents && y < x && forall z :: z in Contents && z < x ==> z <= y
    }

    /** The keys stored in a live node are keys of the tree. */
    lemma NodeKeys(n: Node)
      requires Sound() && n in T
      ensures T[n].keys <= Contents
      ensures forall j :: 0 <= j < |T[n].vals| ==> T[n].vals[j] in Contents
    {
      Facts(n);
      InRoot(T, root, order, n);
      ValsInKeys(T, n, order);
    }

    /** An empty tree is a single leaf. */
    lemma EmptyIsLeaf()
      requires Sound()
      ensures Contents == {} ==> T[root].height == 0 && T[root].vals == []
    {
      Facts(root);
      ValsInKeys(T, root, order);
      if |T[root].vals| > 0 {
        assert T[root].vals[0] in Contents;
      }
    }

    /** In a non-empty tree every live node holds a key. */
    lemma HasKeys(n: Node)
      requires Sound() && n in T && Contents != {}
      ensures |T[n].vals| > 0
    {
      Facts(n);
      if n == root && T[n].height == 0 {
        var y :| y in Contents;
        assert y in T[n].vals;
      }
    }

    /** Where a leaf's gap for `v` lies before slot `pos`, the key at `pos` is the least key not below `v`. */
    lemma GapUpper(n: Node, v: int, pos: int)
      requires Sound() && n in T && Gap(n, v) && 0 <= pos < |T[n].vals| && v < T[n].vals[pos]
      requires forall j :: 0 <= j < pos ==> T[n].vals[j] < v
      ensures forall z :: z in Contents && v <= z ==> T[n].vals[pos] <= z
    {
      Facts(n);
      var vs := T[n].vals;
      forall z | z in Contents && v <= z
        ensures vs[pos] <= z
      {
        if z in vs {
          var k :| 0 <= k < |vs| && vs[k] == z;
          assert pos <= k;
        }
      }
    }

    /** Where a leaf's gap for `v` lies after its last key, every key above that last key is above `v`. */
    lemma GapAfterLast(n: Node, v: int)
      requires Sound() && n in T && Gap(n, v) && 0 < |T[n].vals| && T[n].vals[|T[n].vals| - 1] < v
      ensures forall y :: y in Contents && T[n].vals[|T[n].vals| - 1] < y ==> v < y
    {
      Facts(n);
      var vs := T[n].vals;
      forall y | y in Contents && vs[|vs| - 1] < y
        ensures v < y
      {
        if y in vs {
          var k :| 0 <= k < |vs| && vs[k] == y;
        }
      }
    }

    /** Tema.cpp `begin`: down the leftmost children to the first slot of a leaf, which holds the minimum. */
    method Begin() returns (r: Iterator)
      requires Valid()
      ensures r.node != null && r.node in T && r.pos == 0
      ensures Contents == {} ==> r == Iterator(root, 0)
      ensures Contents != {} ==> IsKeyPos(r) && KeyAt(r) in Contents && forall z :: z in Contents ==> KeyAt(r) <= z
    {
      r := Iterator(root, 0);
      Facts(root);
      EmptyIsLeaf();
      while r.node.children[0] != null
        invariant r.node != null && r.node in T && Linked(r.node, T[r.node], order)
        invariant r.pos == 0 && Prefix(Contents, T[r.node].keys)
        invariant Contents == {} ==> r.node == root && T[root].height == 0
        decreases T[r.node].height
      {
        Facts(r.node);
        PrefixStep(T, root, order, Contents, r.node);
        ChildFacts(T, root, order, r.node, 0);
        r := Iterator(r.node.children[0], 0);
        Facts(r.node);
      }
      Facts(r.node);
      if Contents != {} {
        HasKeys(r.node);
        PrefixLeaf(T[r.node], order, Contents);
      }
    }

    /** Tema.cpp `back`: down the rightmost children to the last slot of a leaf, which holds the maximum. */
    method Back() returns (r: Iterator)
      requires Valid()
      ensures r.node != null && r.node in T
      ensures Contents == {} ==> r == Iterator(root, -1)
      ensures Contents != {} ==> IsKeyPos(r) && KeyAt(r) in Contents && forall z :: z in Contents ==> z <= KeyAt(r)
    {
      Facts(root);
      EmptyIsLeaf();
      r := Iterator(root, root.degree - 1);
      while r.node.children[r.node.degree] != null
        invariant r.node != null && r.node in T && Linked(r.node, T[r.node], order) && Stored(r.node, T[r.node], order)
        invariant Suffix(Contents, T[r.node].keys) && r.pos == r.node.degree - 1
        invariant Contents == {} ==> r.node == root && T[root].height == 0
        decreases T[r.node].height
      {
        Facts(r.node);
        SuffixStep(T, root, order, Contents, r.node);
        ChildFacts(T, root, order, r.node, r.node.degree);
        var c := r.node.children[r.node.degree];
        Facts(c);
        r := Iterator(c, c.degree - 1);
      }
      Facts(r.node);
      if Contents != {} {
        HasKeys(r.node);
        SuffixLeaf(T[r.node], order, Contents);
      }
    }

    /** The descent loop of `successorSearch`: from `c` down the leftmost children to a leaf, whose first key is the least of `s`. */
    method LeftmostLeaf(c: Node, ghost s: set<int>) returns (r: Iterator)
      requires Sound() && c in T && c != root && Prefix(s, T[c].keys)
      ensures IsKeyPos(r) && r.pos == 0 && T[r.node].height == 0
      ensures KeyAt(r) in s && forall z :: z in s ==> KeyAt(r) <= z
    {
      r := Iterator(c, 0);
      Facts(c);
      while r.node.children[0] != null
        invariant r.node != null && r.node in T && r.node != root && Linked(r.node, T[r.node], order)
        invariant r.pos == 0 && Prefix(s, T[r.node].keys)
        decreases T[r.node].height
      {
        Facts(r.node);
        PrefixStep(T, root, order, s, r.node);
        ChildFacts(T, root, order, r.node, 0);
        r := Iterator(r.node.children[0], 0);
        Facts(r.node);
      }
      Facts(r.node);
      PrefixLeaf(T[r.node], order, s);
    }

    /** The descent loop of `predecessorSearch`: from `c` down the rightmost children to a leaf, whose last key is the greatest of `s`. */
    method RightmostLeaf(c: Node, ghost s: set<int>) returns (r: Iterator)
      requires Sound() && c in T && c != root && Suffix(s, T[c].keys)
      ensures IsKeyPos(r) && r.pos == |T[r.node].vals| - 1 && T[r.node].height == 0
      ensures KeyAt(r) in s && forall z :: z in s ==> z <= KeyAt(r)
    {
      Facts(c);
      r := Iterator(c, c.degree - 1);
      while r.node.children[r.node.degree] != null
        invariant r.node != null && r.node in T && r.node != root
        invariant Linked(r.node, T[r.node], order) && Stored(r.node, T[r.node], order)
        invariant Suffix(s, T[r.node].keys) && r.pos == r.node.degree - 1
        decreases T[r.node].height
      {
        Facts(r.node);
        SuffixStep(T, root, order, s, r.node);
        ChildFacts(T, root, order, r.node, r.node.degree);
        var d := r.node.children[r.node.degree];
        Facts(d);
        r := Iterator(d, d.degree - 1);
      }
      Facts(r.node);
      SuffixLeaf(T[r.node], order, s);
    }

    /** The climbing loop of `successorSearch`: up while the node is the last child of its parent; `x` stays the greatest key under it. */
    method ClimbLast(it: Iterator, ghost x: int, ghost empty: bool) returns (r: Iterator)
      requires Sound() && it.node != null && it.node in T
      requires empty ==> it.node == root
      requires !empty ==> x in T[it.node].keys && forall z :: z in T[it.node].keys ==> z <= x
      ensures r.node != null && r.node in T && Linked(r.node, T[r.node], order)
      ensures empty ==> r.node == root
      ensures !empty ==> x in T[r.node].keys && forall z :: z in T[r.node].keys ==> z <= x
      ensures T[r.node].parent == null ==> r.node == root
      ensures T[r.node].parent != null ==>
        T[r.node].parent in T && 0 <= T[r.node].index < |T[T[r.node].parent].vals|
    {
      r := it;
      Facts(r.node);
      while r.node.parent != null && r.node.childIndex == r.node.parent.degree
        invariant r.node != null && r.node in T && Linked(r.node, T[r.node], order)
        invariant empty ==> r.node == root
        invariant !empty ==> x in T[r.node].keys && forall z :: z in T[r.node].keys ==> z <= x
        decreases T[root].height - T[r.node].height
      {
        ParentStep(T, root, order, r.node);
        Facts(r.node.parent);
        MaxClimb(T, root, order, r.node, x);
        r := Iterator(r.node.parent, 0);
        Facts(r.node);
      }
      if r.node.parent != null {
        ParentStep(T, root, order, r.node);
        Facts(r.node.parent);
      }
    }

    /** The climbing loop of `predecessorSearch`: up while the node is the first child of its parent; `x` stays the least key under it. */
    method ClimbFirst(it: Iterator, ghost x: int, ghost empty: bool) returns (r: Iterator)
      requires Sound() && it.node != null && it.node in T
      requires empty ==> it.node == root
      requires !empty ==> x in T[it.node].keys && forall z :: z in T[it.node].keys ==> x <= z
      ensures r.node != null && r.node in T && Linked(r.node, T[r.node], order)
      ensures empty ==> r.node == root
      ensures !empty ==> x in T[r.node].keys && forall z :: z in T[r.node].keys ==> x <= z
      ensures T[r.node].parent == null ==> r.node == root
      ensures T[r.node].parent != null ==>
        T[r.node].parent in T && 0 < T[r.node].index <= |T[T[r.node].parent].vals|
    {
      r := it;
      Facts(r.node);
      while r.node.parent != null && r.node.childIndex == 0
        invariant r.node != null && r.node in T && Linked(r.node, T[r.node], order)
        invariant empty ==> r.node == root
        invariant !empty ==> x in T[r.node].keys && forall z :: z in T[r.node].keys ==> x <= z
        decreases T[root].height - T[r.node].height
      {
        ParentStep(T, root, order, r.node);
        MinClimb(T, root, order, r.node, x);
        r := Iterator(r.node.parent, 0);
        Facts(r.node);
      }
      if r.node.parent != null {
        ParentStep(T, root, order, r.node);
      }
    }

    /**
     * `b` sits at slot `it` for a forward step: `it` is a key position holding `b`, or the
     * slot before the first of an empty tree.
     */
    ghost predicate After(it: Iterator, b: int)
      reads this
    {
      (IsKeyPos(it) && KeyAt(it) == b) || (it == Iterator(root, -1) && root in T && Contents == {})
    }

    /**
     * Tema.cpp `successorSearch`: the leftmost key of the right subtree, the next key of the
     * same leaf, or the separator above the first ancestor that is not a last child; `iend`
     * when no key lies above `b`.
     */
    method SuccessorSearch(it: Iterator, ghost b: int) returns (r: Iterator)
      requires Sound() && After(it, b)
      ensures r == IEnd <==> forall z :: z in Contents ==> z <= b
      ensures r != IEnd ==> IsKeyPos(r) && IsNext(b, KeyAt(r))
    {
      var n := it.node;
      Facts(n);
      EmptyIsLeaf();
      if n.children[it.pos + 1] != null {
        RightOfKey(T, root, order, n, it.pos);
        ghost var above := set z | z in Contents && b < z;
        r := LeftmostLeaf(n.children[it.pos + 1], above);
        forall z | z in Contents && b < z
          ensures KeyAt(r) <= z
        {
          assert z in above;
        }
        return;
      }
      InRoot(T, root, order, n);
      ValsInKeys(T, n, order);
      if it.pos != n.degree - 1 {
        r := Iterator(n, it.pos + 1);
        var vs := T[n].vals;
        assert vs[it.pos + 1] in Contents;
        forall z | z in Contents && b < z && z < vs[it.pos + 1]
          ensures false
        {
          Contiguous(T, root, order, n, b, vs[it.pos + 1], z);
        }
        return;
      }
      r := ClimbLast(it, b, Contents == {});
      if r.node.parent != null {
        NextSeparator(T, root, order, r.node, b);
        r := Iterator(r.node.parent, r.node.childIndex);
        return;
      }
      r := IEnd;
    }

    /**
     * `b` sits at slot `it`: either `it` is a key position holding `b`, or `it` is the
     * slot of a leaf where `nodeSearch` stopped for the absent value `b`.
     */
    ghost predicate Before(it: Iterator, b: int)
      reads this
    {
      Spot(it) &&
      ((it.pos < |T[it.node].vals| && T[it.node].vals[it.pos] == b) ||
       (T[it.node].height == 0 && Gap(it.node, b) &&
        (it.pos > 0 ==> T[it.node].vals[it.pos - 1] < b) &&
        (it.pos < |T[it.node].vals| ==> b < T[it.node].vals[it.pos])))
    }

    /**
     * Tema.cpp `predecessorSearch`: the rightmost key of the left subtree, the previous key
     * of the same leaf, or the separator above the first ancestor that is not a first child;
     * `irend` when no key lies below `b`. From a key of an internal node the result is the
     * last slot of a leaf.
     */
    method PredecessorSearch(it: Iterator, ghost b: int) returns (r: Iterator)
      requires Sound() && Before(it, b)
      ensures r == IREnd <==> forall z :: z in Contents ==> b <= z
      ensures r != IREnd ==> IsKeyPos(r) && IsPrev(b, KeyAt(r))
      ensures T[it.node].height > 0 ==> r != IREnd && T[r.node].height == 0 && r.pos == |T[r.node].vals| - 1
    {
      var n := it.node;
      Facts(n);
      if n.children[it.pos] != null {
        LeftOfKey(T, root, order, n, it.pos);
        ghost var below := set z | z in Contents && z < b;
        var c := n.children[it.pos];
        r := RightmostLeaf(c, below);
        forall z | z in Contents && z < b
          ensures z <= KeyAt(r)
        {
          assert z in below;
        }
        return;
      }
      InRoot(T, root, order, n);
      ValsInKeys(T, n, order);
      var vs := T[n].vals;
      if it.pos != 0 {
        r := Iterator(n, it.pos - 1);
        forall z | z in Contents && vs[it.pos - 1] < z && z < b
          ensures false
        {
          if it.pos < |vs| && vs[it.pos] == b {
            Contiguous(T, root, order, n, vs[it.pos - 1], b, z);
          }
        }
        return;
      }
      r := PrevAbove(it, b);
    }

    /** The last part of `predecessorSearch`: from the first slot of a leaf, climb to the separator before it. */
    method PrevAbove(it: Iterator, ghost b: int) returns (r: Iterator)
      requires Sound() && Before(it, b) && T[it.node].height == 0 && it.pos == 0
      ensures r == IREnd <==> forall z :: z in Contents ==> b <= z
      ensures r != IREnd ==> IsKeyPos(r) && IsPrev(b, KeyAt(r))
    {
      var n := it.node;
      Facts(n);
      InRoot(T, root, order, n);
      ValsInKeys(T, n, order);
      var vs := T[n].vals;
      if Contents != {} {
        HasKeys(n);
      }
      ghost var x := if |vs| > 0 then vs[0] else b;
      r := ClimbFirst(it, x, |vs| == 0);
      forall z | z in Contents && b <= z && z < x
        ensures false
      {
      }
      if r.node.parent != null {
        PrevSeparator(T, root, order, r.node, x);
        r := Iterator(r.node.parent, r.node.childIndex - 1);
        return;
      }
      r := IREnd;
    }

    /** Tema.cpp `search`: whether `v` is stored. */
    method Search(v: int) returns (found: bool)
      requires Valid()
      ensures found <==> v in Contents
    {
      var candidate := NodeSearch(v);
      Facts(candidate.node);
      if size > 0 && candidate.node.data[candidate.pos] == v && candidate.pos < candidate.node.degree {
        return true;
      }
      return false;
    }

    /**
     * Tema.cpp `predecessor`: the greatest stored key not above `v`, or the minimum
     * when every key is above `v`; on an empty tree, whatever the root's first slot holds.
     */
    method Predecessor(v: int) returns (p: int)
      requires Valid()
      ensures Contents != {} ==> p in Contents
      ensures Contents != {} && p <= v ==> forall z :: z in Contents && z <= v ==> z <= p
      ensures Contents != {} && v < p ==> forall z :: z in Contents ==> v < z && p <= z
      ensures Contents == {} ==> |root.data| > 0 && p == root.data[0]
    {
      var it := NodeSearch(v);
      Facts(it.node);
      if it.node.data[it.pos] == v && it.pos < it.node.degree {
        return it.node.data[it.pos];
      }
      it := PredecessorSearch(it, v);
      if it != IREnd {
        Facts(it.node);
        return it.node.data[it.pos];
      }
      var first := Begin();
      Facts(first.node);
      return first.node.data[first.pos];
    }

    /**
     * Where `nodeSearch` missed `v`: the slot it stopped at holds the least key above `v`,
     * or, past the last key of its leaf, that last key is below `v` and no key lies between.
     */
    lemma Miss(it: Iterator, v: int)
      requires Sound() && Spot(it) && !Hit(it, v) && T[it.node].height == 0 && Gap(it.node, v)
      requires forall j :: 0 <= j < it.pos ==> T[it.node].vals[j] < v
      requires it.pos < |T[it.node].vals| ==> v <= T[it.node].vals[it.pos]
      ensures v !in Contents
      ensures it.pos < |T[it.node].vals| ==>
        IsKeyPos(it) && KeyAt(it) in Contents && v < KeyAt(it) && forall z :: z in Contents && v <= z ==> KeyAt(it) <= z
      ensures it.pos == |T[it.node].vals| && Contents != {} ==>
        0 < it.pos && IsKeyPos(Iterator(it.node, it.pos - 1)) && KeyAt(Iterator(it.node, it.pos - 1)) < v &&
        forall y :: y in Contents && KeyAt(Iterator(it.node, it.pos - 1)) < y ==> v < y
    {
      var n := it.node;
      Facts(n);
      NodeKeys(n);
      if it.pos < |T[n].vals| {
        GapUpper(n, v, it.pos);
      } else if Contents != {} {
        HasKeys(n);
        GapAfterLast(n, v);
      }
      forall j | 0 <= j < |T[n].vals|
        ensures T[n].vals[j] != v
      {
        if j > it.pos {
          assert T[n].vals[it.pos] < T[n].vals[j];
        }
      }
    }

    /**
     * Tema.cpp `successor`: the least stored key not below `v`, or the maximum
     * when every key is below `v`.
     */
    method Successor(v: int) returns (s: int)
      requires Valid() && Contents != {}
      ensures s in Contents
      ensures v <= s ==> forall z :: z in Contents && v <= z ==> s <= z
      ensures s < v ==> forall z :: z in Contents ==> z < v && z <= s
    {
      var it := NodeSearch(v);
      Facts(it.node);
      if it.node.data[it.pos] != v || it.pos == it.node.degree {
        Miss(it, v);
        if it.pos < it.node.degree {
          return it.node.data[it.pos];
        }
        it := Iterator(it.node, it.pos - 1);
        it := SuccessorSearch(it, KeyAt(it));
      }
      if it != IEnd {
        Facts(it.node);
        return it.node.data[it.pos];
      }
      var last := Back();
      Facts(last.node);
      return last.node.data[last.pos];
    }

    /** The stored keys from position `it` onwards; none from `iend`. */
    ghost function Ahead(it: Iterator): set<int>
      requires it == IEnd || IsKeyPos(it)
      reads this
    {
      if it == IEnd then {} else set z | z in Contents && KeyAt(it) <= z
    }

    /**
     * The start of Tema.cpp `printRange`: the position of the least stored key not below `l`,
     * or `iend` when there is none. The test reads the slot only when it holds a key.
     */
    method RangeStart(l: int) returns (it: Iterator)
      requires Valid()
      ensures it == IEnd || (IsKeyPos(it) && l <= KeyAt(it))
      ensures forall z :: z in Contents && l <= z ==> it != IEnd && KeyAt(it) <= z
    {
      it := NodeSearch(l);
      Facts(it.node);
      if it.pos == it.node.degree || it.node.data[it.pos] != l {
        Miss(it, l);
        if RangeMoves(it.node.degree, it.pos) {
          ghost var w := if it.pos > 0 then T[it.node].vals[it.pos - 1] else l;
          it := Iterator(it.node, it.pos - 1);
          it := SuccessorSearch(it, w);
        }
      }
    }

    /** One step of the range loop: the key at `it` leaves the keys ahead, and nothing lies between it and the next position. */
    lemma AheadStep(it: Iterator, nxt: Iterator)
      requires Sound() && IsKeyPos(it) && (nxt == IEnd || IsKeyPos(nxt))
      requires nxt == IEnd <==> forall z :: z in Contents ==> z <= KeyAt(it)
      requires nxt != IEnd ==> IsNext(KeyAt(it), KeyAt(nxt))
      ensures KeyAt(it) in Ahead(it) && Ahead(nxt) == Ahead(it) - {KeyAt(it)}
      ensures forall z :: z in Contents && z <= KeyAt(it) <==> z in Contents && (nxt == IEnd || z < KeyAt(nxt))
    {
      NodeKeys(it.node);
    }

    /**
     * Tema.cpp `printRange`, returning what it prints: the stored keys in [l, u] in
     * increasing order.
     */
    method PrintRange(l: int, u: int) returns (out: seq<int>)
      requires Valid()
      ensures Sorted(out)
      ensures forall z :: z in out <==> z in Contents && l <= z <= u
    {
      var it := RangeStart(l);
      out := [];
      if it != IEnd {
        KeyStored(it);
      }
      while it != IEnd && it.node.data[it.pos] <= u
        invariant it == IEnd || (IsKeyPos(it) && Stored(it.node, T[it.node], order) && l <= KeyAt(it))
        invariant Sorted(out) && forall z :: z in out ==> z <= u
        invariant forall z :: z in out <==> z in Contents && l <= z && (it == IEnd || z < KeyAt(it))
        decreases |Ahead(it)|
      {
        KeyStored(it);
        ghost var k := KeyAt(it);
        ghost var prev := it;
        var key := it.node.data[it.pos];
        it := SuccessorSearch(it, k);
        if it != IEnd {
          KeyStored(it);
        }
        AheadStep(prev, it);
        RangeGrows(Contents, out, l, u, k, if it == IEnd then None else Some(KeyAt(it)));
        out := out + [key];
      }
      if it != IEnd {
        KeyStored(it);
      }
    }

    /**
     * The tree with `v` already in the view of `x` at slot `i` but not yet stored:
     * `x` stores its other keys, every other node rests, and the counter lags by one.
     */
    ghost predicate Pending(x: Node, i: int, v: int)
      reads this`T, this`root, this`Contents, this`size, T.Keys`parent, T.Keys`childIndex, T.Keys`children, T.Keys`degree, T.Keys`data
    {
      Shape(T, root, order) && Contents == T[root].keys && AllLinked() && RestingBut(x) &&
      x in T && 0 <= i < |T[x].vals| <= order && T[x].vals[i] == v &&
      |x.data| == order && x.degree + 1 == |T[x].vals| &&
      x.data[..x.degree] == T[x].vals[..i] + T[x].vals[i + 1..] &&
      (x != root ==> |T[x].vals| >= MinKeys(order)) &&
      size + 1 == |Contents|
    }

    /** The tree with `x` stored but holding `order` keys, one more than a node may keep. */
    ghost predicate Overflow(x: Node)
      reads this`T, this`root, this`Contents, this`size, T.Keys`parent, T.Keys`childIndex, T.Keys`children, T.Keys`degree, T.Keys`data
    {
      Shape(T, root, order) && Contents == T[root].keys && AllLinked() && RestingBut(x) &&
      x in T && |T[x].vals| == order && Stored(x, T[x], order) &&
      size == |Contents|
    }

    /** The child slots of a live node hold distinct nodes, each a child of it pointing back at its slot. */
    lemma KidsOf(n: Node)
      requires Shape(T, root, order) && AllLinked() && n in T
      ensures Linked(n, T[n], order) && Injective(n.children)
      ensures forall j :: 0 <= j < |n.children| && n.children[j] != null ==>
        n.children[j] in T && T[n.children[j]].parent == n && T[n.children[j]].index == j &&
        n.children[j].childIndex == j && n.children[j] != n
    {
      assert Core(T, n, order) && Linked(n, T[n], order);
      forall j | 0 <= j < |n.children| && n.children[j] != null
        ensures n.children[j] in T && T[n.children[j]].parent == n && T[n.children[j]].index == j
        ensures n.children[j].childIndex == j && n.children[j] != n
      {
        assert ChildOK(T, n, j);
        assert Linked(n.children[j], T[n.children[j]], order);
      }
    }

    /** A new abstract tree with the same nodes and links is still linked. */
    lemma Relinked(t2: Tree)
      requires AllLinked() && t2.Keys == T.Keys
      requires forall n :: n in T ==>
        t2[n].parent == T[n].parent && t2[n].index == T[n].index && t2[n].kids == T[n].kids
      ensures forall n :: n in t2 ==> Linked(n, t2[n], order)
    {
      forall n | n in t2
        ensures Linked(n, t2[n], order)
      {
        assert Linked(n, T[n], order);
      }
    }

    /** A tree resting everywhere rests everywhere but `x`. */
    lemma RestingAll(x: Node)
      requires RestingBut(null)
      ensures RestingBut(x)
    {
    }

    /** A new abstract tree that keeps the key lists and heights of all nodes but `x` keeps them resting. */
    lemma Rested(t2: Tree, x: Node?)
      requires RestingBut(x) && t2.Keys == T.Keys
      requires forall n :: n in T && n != x ==> t2[n].vals == T[n].vals && t2[n].height == T[n].height
      ensures forall n :: n in t2 && n != x ==> Stored(n, t2[n], order) && Fill(t2[n], n == root, order)
    {
      forall n | n in t2 && n != x
        ensures Stored(n, t2[n], order) && Fill(t2[n], n == root, order)
      {
        assert Stored(n, T[n], order) && Fill(T[n], n == root, order);
      }
    }

    /** The conditions of `AddKey` make `v` growable into leaf `x` at slot `i`. */
    lemma AddReady(x: Node, i: int, v: int)
      requires Valid() && Spot(Iterator(x, i)) && !Hit(Iterator(x, i), v)
      requires T[x].height == 0 && Gap(x, v) && v !in Contents
      requires forall j :: 0 <= j < i ==> T[x].vals[j] < v
      requires i < |T[x].vals| ==> v <= T[x].vals[i]
      ensures Growable(T, root, order, x, i, v)
    {
      Facts(x);
    }

    /**
     * The ghost half of `insert`: `v`, absent, is recorded at slot `i` of the leaf
     * `x` where `nodeSearch` stopped, and in the key set of every node above it.
     */
    ghost method AddKey(x: Node, i: int, v: int)
      requires Valid() && Spot(Iterator(x, i)) && !Hit(Iterator(x, i), v)
      requires T[x].height == 0 && Gap(x, v) && v !in Contents
      requires forall j :: 0 <= j < i ==> T[x].vals[j] < v
      requires i < |T[x].vals| ==> v <= T[x].vals[i]
      modifies this`T, this`Contents
      ensures Pending(x, i, v) && Contents == old(Contents) + {v}
      ensures T.Keys == old(T.Keys) && T[root].height == old(T[root].height)
    {
      AddReady(x, i, v);
      RestingAll(x);
      ghost var t := T;
      ghost var t2 := Grown(t, root, order, x, i, v);
      Relinked(t2);
      Rested(t2, x);
      assert Stored(x, t[x], order) && Fill(t[x], x == root, order);
      assert |t2[x].vals| == |t[x].vals| + 1 && t2[x].vals[i] == v;
      assert t2[x].vals[..i] + t2[x].vals[i + 1..] == t[x].vals;
      assert size + 1 == |t2[root].keys|;
      T := t2;
      Contents := T[root].keys;
    }

    /** A stored node within its bounds leaves the tree resting, or overflowing when it holds `order` keys. */
    lemma Settle(x: Node)
      requires Shape(T, root, order) && Contents == T[root].keys && AllLinked() && RestingBut(x)
      requires x in T && Stored(x, T[x], order) && 0 < |T[x].vals|
      requires (x != root ==> |T[x].vals| >= MinKeys(order)) && size == |Contents|
      ensures x.degree < order ==> Valid()
      ensures x.degree == order ==> Overflow(x)
    {
      if x.degree < order {
        assert Fill(T[x], x == root, order);
        forall n | n in T
          ensures Stored(n, T[n], order) && Fill(T[n], n == root, order)
        {
          if n != x {
            assert Stored(n, T[n], order);
          }
        }
      }
    }

    /**
     * The key placement of `insertInto` (Tema.cpp:90-96): the stored keys from slot `i`
     * on move one slot right, `v` takes slot `i`, and the node and the tree count one
     * key more. The tree is then at rest, or overflowing at `x`.
     */
    method StoreKey(x: Node, i: int, v: int)
      requires Pending(x, i, v)
      modifies x`data, x`degree, this`size
      ensures x.degree == |T[x].vals|
      ensures x.degree < order ==> Valid()
      ensures x.degree == order ==> Overflow(x)
    {
      PendingSlot(x, i, v);
      ghost var d := x.data;
      OpenDataSlot(x, i);
      x.data := x.data[i := v];
      x.degree := x.degree + 1;
      size := size + 1;
      assert x.data[..x.degree] == T[x].vals by {
        forall k | 0 <= k < x.degree
          ensures x.data[k] == T[x].vals[k]
        {
          if k < i {
            assert d[..x.degree - 1][k] == T[x].vals[..i][k];
          } else if i < k {
            assert d[..x.degree - 1][k - 1] == T[x].vals[i + 1..][k - 1 - i];
          }
        }
      }
      assert RestingBut(x) by {
        forall n | n in T && n != x
          ensures Stored(n, T[n], order) && Fill(T[n], n == root, order)
        {
          assert old(Stored(n, T[n], order));
        }
      }
      Settle(x);
    }

    /**
     * Tema.cpp `insertInto`: stores `v` at slot `it.pos` of `it.node` unless it is
     * already there, and splits the node when it reaches `order` keys. `top` bounds
     * the height the recursion through `split` can reach.
     */
    method InsertInto(it: Iterator, v: int, ghost top: int)
      requires it.node != null && it.node in T
      requires (Valid() && Hit(it, v)) || Pending(it.node, it.pos, v)
      requires T[it.node].height <= top && (T[root].height < top || |T[it.node].vals| < order)
      modifies this, T.Keys
      decreases top - T[it.node].height, 1
      ensures Valid() && Contents == old(Contents)
      ensures old(Valid()) ==> T == old(T) && root == old(root) && size == old(size) && unchanged(T.Keys)
    {
      var x := it.node;
      var i := it.pos;
      if Valid() {
        Facts(x);
      } else {
        PendingSlot(x, i, v);
      }
      if x.data[i] != v || i == x.degree || x.degree == 0 {
        StoreKey(x, i, v);
        if x.degree == order {
          Split(x, top);
        }
      }
    }

    /** In a pending tree the slot of `v` is within the stored keys, and no stored key there equals `v`. */
    lemma PendingSlot(x: Node, i: int, v: int)
      requires Pending(x, i, v)
      ensures 0 <= i <= x.degree < order && (i < x.degree ==> x.data[i] != v)
    {
      assert Core(T, x, order);
      if i < x.degree {
        assert x.data[..x.degree][i] == T[x].vals[i + 1];
      }
    }

    /** What `split` relies on before it changes anything: the tree, `x` and its parent. */
    lemma SplitReady(x: Node)
      requires Overflow(x)
      ensures forall c :: c in T && c != x ==>
        Linked(c, T[c], order) && Stored(c, T[c], order) && Fill(T[c], c == root, order)
      ensures Slots(x.children, T[x].kids, order) && Stored(x, T[x], order) && x.childIndex == T[x].index
      ensures x.degree == order && MinKeys(order) < order && (T[x].height > 0 ==> |T[x].kids| == order + 1)
      ensures x == root ==> x.parent == null && x.childIndex == 0
      ensures x != root ==>
        x.parent == T[x].parent && x.parent in T && |T[x.parent].vals| < order &&
        0 <= T[x].index <= |T[x.parent].vals| < |T[x.parent].kids| && T[x.parent].height == T[x].height + 1
    {
      assert Core(T, x, order) && Linked(x, T[x], order) && Stored(x, T[x], order);
      forall c | c in T && c != x
        ensures Linked(c, T[c], order) && Stored(c, T[c], order) && Fill(T[c], c == root, order)
      {
        assert Linked(c, T[c], order);
      }
      if x != root {
        var p := x.parent;
        ParentStep(T, root, order, x);
        assert Stored(p, T[p], order) && Fill(T[p], p == root, order);
      }
    }

    /** After the surgery of `split`, the median waits in the parent as `insertInto` expects. */
    /** The split's new tree becomes the state, its new root the root; the lifted key is pending in `p`. */
    method Lift(p: Node, i: int, m: int, nr: Node, ghost t2: Tree)
      requires PendingAt(t2, nr, order, p, i, m) && t2[nr].keys == Contents && size == |Contents|
      modifies this`root, this`size, this`T
      ensures Pending(p, i, m) && root == nr && T == t2 && Contents == old(Contents)
    {
      root := nr;
      size := size - 1;
      T := t2;
    }

    /**
     * Tema.cpp `split`: the overflowing `x` gives its keys before the median, with the
     * children around them, to a new left node and those after it to a new right node;
     * the two take its place in the parent (a new root when `x` is the root), and the
     * median then goes into the parent through `insertInto`.
     */
    method Split(x: Node, ghost top: int)
      requires Overflow(x) && T[x].height < top && T[root].height < top
      modifies this, T.Keys
      decreases top - T[x].height, 0
      ensures Valid() && Contents == old(Contents)
    {
      SplitReady(x);
      var p, median, t2 := SplitOff(T, root, order, x);
      var i, m := x.childIndex, x.data[median];
      Lift(p, i, m, NewRoot(root, x, p), t2);
      InsertInto(Iterator(p, i), m, top);
    }

    /** Tema.cpp `insert`: finds the slot of `v` and stores it there unless it is present. */
    method Insert(v: int)
      requires Valid()
      modifies this, T.Keys
      ensures Valid() && Contents == old(Contents) + {v}
      ensures v in old(Contents) ==> T == old(T) && size == old(size) && unchanged(T.Keys)
    {
      var spot := NodeSearch(v);
      if !Hit(spot, v) {
        AddKey(spot.node, spot.pos, v);
      }
      InsertInto(spot, v, T[root].height + 1);
    }

    /**
     * The tree after `x` lost a key, as `rebalance` receives it: every other node rests, `x`
     * stores its keys and, unless it is the root, holds one key fewer than `MinKeys`.
     */
    ghost predicate Underflow(x: Node)
      reads this`T, this`root, this`Contents, this`size, T.Keys`parent, T.Keys`childIndex, T.Keys`children, T.Keys`degree, T.Keys`data
    {
      Shape(T, root, order) && Contents == T[root].keys && AllLinked() && RestingBut(x) &&
      x in T && Stored(x, T[x], order) && size == |Contents| &&
      (x == root ==> Fill(T[x], true, order)) &&
      (x != root ==> |T[x].vals| + 1 == MinKeys(order))
    }

    /** The tree after `x` lost a key that it may have had to spare: `x` stores its keys and may be one below `MinKeys`. */
    ghost predicate Thin(x: Node)
      reads this`T, this`root, this`Contents, this`size, T.Keys`parent, T.Keys`childIndex, T.Keys`children, T.Keys`degree, T.Keys`data
    {
      Shape(T, root, order) && Contents == T[root].keys && AllLinked() && RestingBut(x) &&
      x in T && Stored(x, T[x], order) && size == |Contents| && |T[x].vals| < order &&
      (x != root ==> |T[x].vals| + 1 >= MinKeys(order))
    }

    /**
     * The key at slot `j` of leaf `y` has left the views but `y` still stores it: the state in
     * which `removeFrom` closes the gap.
     */
    ghost predicate Taking(y: Node, j: int)
      reads this`T, this`root, this`Contents, this`size, T.Keys`parent, T.Keys`childIndex, T.Keys`children, T.Keys`degree, T.Keys`data
    {
      Shape(T, root, order) && Contents == T[root].keys && AllLinked() && RestingBut(y) &&
      y in T && T[y].height == 0 && |y.data| == order && 0 <= j < y.degree <= order && y.degree == |T[y].vals| + 1 &&
      y.data[..j] == T[y].vals[..j] && y.data[j + 1..y.degree] == T[y].vals[j..] &&
      (y != root ==> |T[y].vals| + 1 >= MinKeys(order)) && size == |Contents|
    }

    /** When every node but `x` rests and `x` stores its keys, every node mirrors its view. */
    lemma AllMirrored(x: Node)
      requires AllLinked() && RestingBut(x) && x in T && Stored(x, T[x], order)
      ensures Mirrors(T, order)
    {
      forall n | n in T
        ensures Linked(n, T[n], order) && Stored(n, T[n], order)
      {
        if n != x {
          assert Stored(n, T[n], order);
        }
      }
    }

    /** A tree whose nodes mirror their views and are all within their fill bounds is at rest. */
    lemma Rests()
      requires Shape(T, root, order) && Contents == T[root].keys && Mirrors(T, order) && size == |Contents|
      requires forall n :: n in T ==> Fill(T[n], n == root, order)
      ensures Valid()
    {
    }

    /** The tree `t2`, once it is `T`, is at rest when its nodes mirror their views and are within their bounds. */
    ghost method Adopt(t2: Tree)
      requires AtRest(t2, root, order) && t2[root].keys == Contents && Mirrors(t2, order) && size == |Contents|
      modifies this`T
      ensures Valid() && T == t2
    {
      T := t2;
    }

    /**
     * After a key left `x`, a node that is not an internal root without keys either rests
     * or, below `MinKeys` keys, is in the state `rebalance` handles.
     */
    lemma ThinNext(x: Node)
      requires Thin(x) && (x.parent == null && T[x].height > 0 ==> x.degree > 0)
      ensures x.degree >= MinKeys(order) ==> Valid()
      ensures x.degree < MinKeys(order) ==> Underflow(x)
    {
      assert Linked(x, T[x], order);
      if x.degree >= MinKeys(order) {
        AllMirrored(x);
        forall n | n in T
          ensures Fill(T[n], n == root, order)
        {
          if n != x {
            assert Stored(n, T[n], order);
          }
        }
      }
    }

    /** `rebalance` on the root leaves the tree at rest. */
    lemma UnderRoot(x: Node)
      requires Underflow(x) && x.parent == null
      ensures Valid()
    {
      assert Linked(x, T[x], order);
      AllMirrored(x);
      forall n | n in T
        ensures Fill(T[n], n == root, order)
      {
        if n != x {
          assert Stored(n, T[n], order);
        }
      }
    }

    /**
     * The underflowing non-root node `x` under its parent `p`, as `rebalance` inspects them:
     * every node mirrors its view, all but `x` are within their bounds, and the children of
     * `p` are linked to their slots.
     */
    ghost predicate Short(x: Node, p: Node)
      reads this`T, this`root, this`Contents, this`size, T.Keys
    {
      Mirrors(T, order) && RestsBut(T, root, order, x) && Contents == T[root].keys && size == |Contents| &&
      x in T && p in T && x != root && T[x].parent == p && |T[x].vals| + 1 == MinKeys(order) &&
      T[p].height > 0 && 0 < |T[p].vals| && |T[p].kids| == |T[p].vals| + 1 &&
      0 <= T[x].index <= |T[p].vals| && T[p].kids[T[x].index] == x && x.childIndex == T[x].index &&
      p.degree == |T[p].vals| && |T[p].vals| < |p.children| &&
      forall j :: 0 <= j <= |T[p].vals| ==>
        p.children[j] == T[p].kids[j] && T[p].kids[j] in T &&
        p.children[j].degree == |T[p.children[j]].vals| && p.children[j].childIndex == j
    }

    /** The parent of an underflowing non-root node is linked to it and to its siblings. */
    lemma UnderParent(x: Node)
      requires Underflow(x) && x.parent != null
      ensures Short(x, x.parent)
    {
      assert Linked(x, T[x], order);
      AllMirrored(x);
      forall n | n in T && n != x
        ensures Fill(T[n], n == root, order)
      {
        assert Stored(n, T[n], order);
      }
      ParentStep(T, root, order, x);
      var p := x.parent;
      assert Linked(p, T[p], order) && Stored(p, T[p], order) && Fill(T[p], p == root, order);
      assert Core(T, p, order);
      forall j | 0 <= j <= |T[p].vals|
        ensures p.children[j] == T[p].kids[j] && T[p].kids[j] in T
        ensures p.children[j].degree == |T[p.children[j]].vals| && p.children[j].childIndex == j
      {
        assert ChildOK(T, p, j);
        var c := T[p].kids[j];
        assert Linked(c, T[c], order) && Stored(c, T[c], order);
      }
    }

    /**
     * The right rotation of `rebalance` (Tema.cpp:226-269): the left sibling `l` of the
     * underflowing `x` has a key to spare; the separator comes down into `x` and the last key
     * of `l` goes up. The tree is then at rest.
     */
    method RotateRight(x: Node, p: Node, k: int, l: Node)
      requires Mirrors(T, order) && RestsBut(T, root, order, x) && Contents == T[root].keys && size == |Contents|
      requires Siblings(T, root, order, p, k) && x == T[p].kids[k + 1] && |T[x].vals| + 1 == MinKeys(order)
      requires l == T[p].kids[k] && |T[l].vals| > MinKeys(order)
      modifies this`T, T.Keys
      ensures Valid() && Contents == old(Contents) && T.Keys == old(T.Keys)
    {
      ghost var t := T;
      ghost var a :| a + 1 == |t[l].vals|;
      ghost var t2 := Redistribute(t, p, k, a);
      assert Fill(t[l], false, order);
      RedistRests(t, root, order, p, k, a, x);
      RotateRightNode(t, root, order, p, k, l, x, a, t2);
      Adopt(t2);
    }

    /**
     * The left rotation of `rebalance` (Tema.cpp:271-322): the right sibling `r` of the
     * underflowing `x` has a key to spare; the separator comes down into `x` and the first key
     * of `r` goes up. The tree is then at rest.
     */
    method RotateLeft(x: Node, p: Node, k: int, r: Node)
      requires Mirrors(T, order) && RestsBut(T, root, order, x) && Contents == T[root].keys && size == |Contents|
      requires Siblings(T, root, order, p, k) && x == T[p].kids[k] && |T[x].vals| + 1 == MinKeys(order)
      requires r == T[p].kids[k + 1] && |T[r].vals| > MinKeys(order)
      modifies this`T, T.Keys
      ensures Valid() && Contents == old(Contents) && T.Keys == old(T.Keys)
    {
      ghost var t := T;
      ghost var t2 := Redistribute(t, p, k, |t[x].vals| + 1);
      assert Fill(t[r], false, order);
      RedistRests(t, root, order, p, k, |t[x].vals| + 1, x);
      RotateLeftNode(t, root, order, p, k, x, r, t2);
      Adopt(t2);
    }

    /**
     * The merge of `rebalance` (Tema.cpp:325-398): neither sibling has a key to spare, so the
     * underflowing `x` and its sibling become one node `l` with the separator between them,
     * and `r` leaves the tree. The parent `p` is then the node that may have lost a key too many.
     */
    method MergeStep(x: Node, p: Node, k: int, l: Node, r: Node)
      requires Mirrors(T, order) && RestsBut(T, root, order, x) && Contents == T[root].keys && size == |Contents|
      requires Siblings(T, root, order, p, k) && l == T[p].kids[k] && r == T[p].kids[k + 1]
      requires (x == l || x == r) && |T[x].vals| + 1 == MinKeys(order)
      requires |T[l].vals| <= MinKeys(order) && |T[r].vals| <= MinKeys(order)
      modifies this`T, T.Keys
      ensures Thin(p) && T[p].height > 0 && Contents == old(Contents) && T.Keys == old(T.Keys) - {r}
      ensures T[p].height == old(T[x].height) + 1 && T[root].height == old(T[root].height)
    {
      ghost var t := T;
      ghost var t2 := Merge(t, p, k);
      MergeRests(t, root, order, p, k, x);
      MergeNode(t, root, order, p, k, l, r, t2);
      Thinned(t2, p);
    }

    /** The tree `t2`, once it is `T`, is thin at `x` when its nodes mirror their views and all but `x` are within their bounds. */
    ghost method Thinned(t2: Tree, x: Node)
      requires RestsBut(t2, root, order, x) && t2[root].keys == Contents && Mirrors(t2, order) && size == |Contents|
      requires x in t2 && |t2[x].vals| < order && (x != root ==> |t2[x].vals| + 1 >= MinKeys(order))
      modifies this`T
      ensures Thin(x) && T == t2
    {
      T := t2;
    }

    /**
     * The root collapse of `rebalance` (Tema.cpp:402-413): a merge left the root without keys,
     * so its only child becomes the root.
     */
    method CollapseRoot(p: Node)
      requires Thin(p) && p.parent == null && T[p].height > 0 && p.degree == 0
      modifies this`T, this`root, T.Keys
      ensures Valid() && Contents == old(Contents) && T.Keys <= old(T.Keys)
    {
      ghost var t := T;
      assert Linked(p, T[p], order);
      AllMirrored(p);
      CollapseShape(t, p, order);
      var c := CollapseNode(t, order, p);
      root := c;
      T := Collapse(t, p);
      forall n | n in T
        ensures Fill(T[n], n == root, order)
      {
        assert Stored(n, t[n], order) && Fill(t[n], n == p, order);
      }
      Rests();
    }

    /**
     * The rotations of `rebalance` (Tema.cpp:222-322): a sibling of the underflowing `x` with
     * a key to spare, the left one first, lends it through the parent, and the tree is at rest.
     * Otherwise nothing changes and neither sibling has a key to spare.
     */
    method Rotate(x: Node, p: Node) returns (done: bool)
      requires Short(x, p)
      modifies this`T, T.Keys
      ensures done ==> Valid() && Contents == old(Contents) && T.Keys == old(T.Keys)
      ensures !done ==> T == old(T) && Short(x, p)
      ensures !done ==> (0 < x.childIndex ==> |T[p.children[x.childIndex - 1]].vals| <= MinKeys(order))
      ensures !done ==> (x.childIndex < p.degree ==> |T[p.children[x.childIndex + 1]].vals| <= MinKeys(order))
    {
      var ci := x.childIndex;
      if ci > 0 {
        var left := p.children[ci - 1];
        if left.degree > MinKeys(order) {
          AdjFacts(T, root, order, p, ci - 1);
          RotateRight(x, p, ci - 1, left);
          return true;
        }
      }
      if ci < p.degree {
        var right := p.children[ci + 1];
        if right.degree > MinKeys(order) {
          AdjFacts(T, root, order, p, ci);
          RotateLeft(x, p, ci, right);
          return true;
        }
      }
      return false;
    }

    /**
     * The sibling choice of `rebalance` (Tema.cpp:325-340): the underflowing `x` merges with
     * its left sibling if it has one and with its right sibling otherwise.
     */
    method MergeSiblings(x: Node, p: Node)
      requires Short(x, p)
      requires 0 < x.childIndex ==> |T[p.children[x.childIndex - 1]].vals| <= MinKeys(order)
      requires x.childIndex < p.degree ==> |T[p.children[x.childIndex + 1]].vals| <= MinKeys(order)
      modifies this`T, T.Keys
      ensures Thin(p) && T[p].height > 0 && Contents == old(Contents) && T.Keys <= old(T.Keys)
      ensures T[p].height == old(T[x].height) + 1 && T[root].height == old(T[root].height)
    {
      var ci := x.childIndex;
      var left, right;
      if ci > 0 {
        left, right := p.children[ci - 1], x;
      } else {
        left, right := x, p.children[ci + 1];
      }
      var pos := left.childIndex;
      AdjFacts(T, root, order, p, pos);
      MergeStep(x, p, pos, left, right);
    }

    /**
     * Tema.cpp `rebalance`: restores the fill bounds after `x` lost a key, by a right rotation,
     * a left rotation or a merge with a sibling; a merge may leave the parent short in turn,
     * which is rebalanced the same way, or collapse an emptied root.
     */
    method Rebalance(x: Node)
      requires Underflow(x)
      modifies this, T.Keys
      decreases T[root].height - T[x].height
      ensures Valid() && Contents == old(Contents) && T.Keys <= old(T.Keys)
    {
      if x.parent == null {
        UnderRoot(x);
        return;
      }
      UnderParent(x);
      var p := x.parent;
      var done := Rotate(x, p);
      if done {
        return;
      }
      MergeSiblings(x, p);
      if p.parent == null && p.degree == 0 {
        CollapseRoot(p);
        return;
      }
      ThinNext(p);
      if p.degree < MinKeys(order) {
        Rebalance(p);
      }
    }

    /**
     * The key at slot `i` of the internal node `x` and its predecessor at slot `j` of the leaf
     * `y` have traded places in storage but not yet in the views: the state between the swap
     * of `removeFrom` and the gap closing.
     */
    ghost predicate Swapping(x: Node, i: int, y: Node, j: int)
      reads this, T.Keys`parent, T.Keys`childIndex, T.Keys`children, T.Keys`degree, T.Keys`data
    {
      Shape(T, root, order) && Contents == T[root].keys && AllLinked() && size + 1 == |Contents| &&
      (forall n {:trigger Stored(n, T[n], order)} :: n in T && n != x && n != y ==>
        Stored(n, T[n], order) && Fill(T[n], n == root, order)) &&
      x in T && y in T && T[x].height > 0 && T[y].height == 0 &&
      0 <= i < |T[x].vals| && 0 <= j < |T[y].vals| && IsPrev(T[x].vals[i], T[y].vals[j]) &&
      Fill(T[x], x == root, order) && Fill(T[y], y == root, order) &&
      |x.data| == order && x.degree == |T[x].vals| && x.data[..x.degree] == T[x].vals[i := T[y].vals[j]] &&
      |y.data| == order && y.degree == |T[y].vals| &&
      y.data[..j] == T[y].vals[..j] && y.data[j + 1..y.degree] == T[y].vals[j + 1..]
    }

    /**
     * The swap of `removeFrom` (Tema.cpp:429-436): the key at slot `i` of the internal node
     * `x` trades places with its predecessor, the key at slot `j` of the leaf `y`.
     */
    method SwapKeys(x: Node, i: int, y: Node, j: int)
      requires Sound() && size + 1 == |Contents| && IsKeyPos(Iterator(x, i)) && T[x].height > 0
      requires IsKeyPos(Iterator(y, j)) && T[y].height == 0 && IsPrev(T[x].vals[i], T[y].vals[j])
      modifies x`data, y`data
      ensures Swapping(x, i, y, j)
    {
      Facts(x);
      Facts(y);
      ghost var dx, dy := x.data, y.data;
      x.data, y.data := x.data[i := y.data[j]], y.data[j := x.data[i]];
      assert x.data[..x.degree] == dx[..x.degree][i := dy[j]];
      assert y.data[..j] == dy[..j] && y.data[j + 1..y.degree] == dy[j + 1..y.degree];
      forall n | n in T && n != x && n != y
        ensures Stored(n, T[n], order) && Fill(T[n], n == root, order)
      {
        assert old(Stored(n, T[n], order));
      }
    }

    /**
     * The views catch up with the swap: `x` lists the predecessor in place of the removed key
     * and `y` no longer lists the predecessor, which it still stores at slot `j`.
     */
    ghost method Reswap(x: Node, i: int, y: Node, j: int)
      requires Swapping(x, i, y, j)
      modifies this`T, this`Contents
      ensures Taking(y, j) && Contents == old(Contents) - {old(T[x].vals[i])} && T.Keys == old(T.Keys)
    {
      ghost var t := T;
      assert Core(T, x, order);
      ValsInKeys(T, x, order);
      InRoot(T, root, order, x);
      assert IsPrev(T[x].vals[i], T[y].vals[j]);
      var t2 := Swapped(t, root, order, x, i, y, j);
      Relinked(t2);
      forall n | n in t2 && n != y
        ensures Stored(n, t2[n], order) && Fill(t2[n], n == root, order)
      {
        if n != x {
          assert Stored(n, t[n], order) && Fill(t[n], n == root, order);
          assert t2[n].vals == t[n].vals && t2[n].height == t[n].height;
        } else {
          assert t2[x].vals == t[x].vals[i := t[y].vals[j]];
          assert Fill(t[x], x == root, order) && t2[x].height == t[x].height;
          assert Stored(x, t2[x], order);
          assert Fill(t2[x], x == root, order);
        }
      }
      assert Fill(t[y], y == root, order);
      assert j < y.degree == |t[y].vals| == |t2[y].vals| + 1 && y.degree <= order;
      assert y != root ==> |t2[y].vals| + 1 >= MinKeys(order);
      assert t[x].vals[i] in t[root].keys && size + 1 == |t[root].keys|;
      assert size == |t2[root].keys|;
      T := t2;
      Contents := T[root].keys;
    }

    /**
     * A key found in a leaf (Tema.cpp:429, when `it.node` has no children) needs no swap:
     * the views drop slot `i` of the leaf `x`, which still stores it.
     */
    ghost method Unlist(x: Node, i: int)
      requires Sound() && size + 1 == |Contents| && IsKeyPos(Iterator(x, i)) && T[x].height == 0
      modifies this`T, this`Contents
      ensures Taking(x, i) && Contents == old(Contents) - {old(T[x].vals[i])} && T.Keys == old(T.Keys)
    {
      Facts(x);
      NodeKeys(x);
      ValsInKeys(T, x, order);
      var t2 := Shrunk(T, root, order, x, i);
      Relinked(t2);
      Rested(t2, x);
      T := t2;
      Contents := T[root].keys;
    }

    /**
     * The gap closing of `removeFrom` (Tema.cpp:437-442): the keys after slot `j` of the leaf
     * `y` move one slot left, the freed last slot is cleared and `y` counts one key fewer.
     */
    method TakeKey(y: Node, j: int)
      requires Taking(y, j)
      modifies y`data, y`degree
      ensures Thin(y) && T[y].height == 0
    {
      ghost var d := y.data;
      CloseDataSlot(y, j);
      y.data := y.data[y.degree - 1 := 0];
      y.degree := y.degree - 1;
      assert y.data[..y.degree] == T[y].vals by {
        forall a | 0 <= a < y.degree
          ensures y.data[a] == T[y].vals[a]
        {
          if a < j {
            assert d[..j][a] == d[a];
          } else {
            assert d[j + 1..y.degree + 1][a - j] == d[a + 1];
          }
        }
      }
      forall n | n in T && n != y
        ensures Stored(n, T[n], order) && Fill(T[n], n == root, order)
      {
        assert old(Stored(n, T[n], order));
      }
    }

    /**
     * Tema.cpp `removeFrom`: removes the key at `it`, swapping it first with its predecessor
     * when `it` is in an internal node, then closes the gap in the leaf and rebalances it
     * when it falls below `MinKeys`.
     */
    method RemoveFrom(it: Iterator)
      requires Sound() && size + 1 == |Contents| && IsKeyPos(it)
      modifies this, T.Keys
      ensures Valid() && Contents == old(Contents) - {old(KeyAt(it))} && T.Keys <= old(T.Keys)
    {
      var x: Node, i := it.node, it.pos;
      Facts(x);
      if x.children[0] != null {
        var jt := PredecessorSearch(it, KeyAt(it));
        SwapKeys(x, i, jt.node, jt.pos);
        Reswap(x, i, jt.node, jt.pos);
        x, i := jt.node, jt.pos;
      } else {
        Unlist(x, i);
      }
      TakeKey(x, i);
      ThinNext(x);
      if x.degree < MinKeys(order) {
        Rebalance(x);
      }
    }

    /** Tema.cpp `remove`: finds `v` and removes it when it is present; otherwise nothing changes. */
    method Remove(v: int)
      requires Valid()
      modifies this, T.Keys
      ensures Valid() && Contents == old(Contents) - {v}
      ensures v !in old(Contents) ==> T == old(T) && size == old(size) && unchanged(T.Keys)
    {
      var spot := NodeSearch(v);
      Facts(spot.node);
      if spot.node.data[spot.pos] != v || spot.pos == spot.node.degree {
        return;
      }
      size := size - 1;
      RemoveFrom(spot);
    }
}
}
