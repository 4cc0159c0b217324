/**
 * Facts that follow from the shape invariant of a whole tree: every node has a
 * unique ancestor at each level above it, subtrees at one level hold disjoint
 * key sets, and the keys of a subtree form a contiguous run of the tree's keys.
 */
module BTreeShape {
  import opened BTreeNodes

  /** The keys of two different children of one node are disjoint, and none of them is a key of the node. */
  lemma ChildSlots(t: Tree, n: Node, order: int, i: int, y: int)
    requires n in t && Core(t, n, order) && t[n].height > 0
    requires 0 <= i < |t[n].kids| && y in KeysOf(t, t[n].kids[i])
    ensures y !in t[n].vals
    ensures forall j :: 0 <= j < |t[n].kids| && j != i ==> y !in KeysOf(t, t[n].kids[j])
  {
    assert ChildOK(t, n, i);
    forall j | 0 <= j < |t[n].kids| && j != i
      ensures y !in KeysOf(t, t[n].kids[j])
    {
      assert ChildOK(t, n, j);
    }
  }

  /** A node's own keys are keys of its subtree. */
  lemma ValsInKeys(t: Tree, n: Node, order: int)
    requires n in t && Core(t, n, order)
    ensures forall j :: 0 <= j < |t[n].vals| ==> t[n].vals[j] in t[n].keys
  {
    forall j | 0 <= j < |t[n].vals|
      ensures t[n].vals[j] in t[n].keys
    {
      assert t[n].vals[j] in t[n].vals;
    }
  }

  /** Child `i` of an internal node is live, linked back, and its keys are keys of the node's subtree. */
  lemma ChildFacts(t: Tree, root: Node, order: int, n: Node, i: int)
    requires Shape(t, root, order) && n in t && t[n].height > 0 && 0 <= i <= |t[n].vals|
    ensures Core(t, n, order) && i < |t[n].kids| && t[n].kids[i] in t
    ensures ChildOK(t, n, i) && KeysOf(t, t[n].kids[i]) <= t[n].keys
  {
    assert Core(t, n, order);
    assert ChildOK(t, n, i);
    forall y | y in KeysOf(t, t[n].kids[i])
      ensures y in t[n].keys
    {
    }
  }

  /** The parent of a non-root node is one level higher and its key set contains the node's. */
  lemma ParentStep(t: Tree, root: Node, order: int, m: Node)
    requires Shape(t, root, order) && m in t && m != root
    ensures t[m].parent != null && t[m].parent in t && t[t[m].parent].height == t[m].height + 1
    ensures t[m].keys <= t[t[m].parent].keys
    ensures 0 <= t[m].index <= |t[t[m].parent].vals| < |t[t[m].parent].kids|
    ensures t[t[m].parent].kids[t[m].index] == m
  {
    assert Core(t, m, order);
    var p := t[m].parent;
    assert Core(t, p, order);
    ChildFacts(t, root, order, p, t[m].index);
  }

  /** The ancestor of `m` at level `h`. */
  ghost function Ancestor(t: Tree, root: Node, order: int, m: Node, h: int): (a: Node)
    requires Shape(t, root, order) && m in t && t[m].height <= h <= t[root].height
    ensures a in t && t[a].height == h && t[m].keys <= t[a].keys
    decreases h - t[m].height
  {
    if t[m].height == h then m
    else
      ParentStep(t, root, order, m);
      Ancestor(t, root, order, t[m].parent, h)
  }

  /** Only the root sits at the root's level. */
  lemma TopIsRoot(t: Tree, root: Node, order: int, m: Node)
    requires Shape(t, root, order) && m in t && t[m].height == t[root].height
    ensures m == root
  {
    if m != root {
      ParentStep(t, root, order, m);
      assert false;
    }
  }

  /** The keys under any node are keys of the tree. */
  lemma InRoot(t: Tree, root: Node, order: int, n: Node)
    requires Shape(t, root, order) && n in t
    ensures t[n].keys <= t[root].keys
  {
    var a := Ancestor(t, root, order, n, t[root].height);
    TopIsRoot(t, root, order, a);
  }

  /** Two nodes of one level that share a key are the same node. */
  lemma {:induction false} KeyUnique(t: Tree, root: Node, order: int, n: Node, m: Node, y: int)
    requires Shape(t, root, order) && n in t && m in t
    requires t[n].height == t[m].height && y in t[n].keys && y in t[m].keys
    ensures n == m
    decreases t[root].height - t[n].height
  {
    if t[n].height == t[root].height {
      TopIsRoot(t, root, order, n);
      TopIsRoot(t, root, order, m);
    } else {
      if n == root || m == root {
        TopIsRoot(t, root, order, n);
      }
      ParentStep(t, root, order, n);
      ParentStep(t, root, order, m);
      KeyUnique(t, root, order, t[n].parent, t[m].parent, y);
      var p := t[n].parent;
      assert Core(t, p, order);
      ChildSlots(t, p, order, t[n].index, y);
    }
  }

  /** A key in the key list of `n` lies in no subtree below `n`'s level. */
  lemma ValsAbove(t: Tree, root: Node, order: int, n: Node, m: Node, y: int)
    requires Shape(t, root, order) && n in t && m in t
    requires y in t[n].vals && y in t[m].keys
    ensures t[n].height <= t[m].height
  {
    if t[m].height < t[n].height {
      var c := Ancestor(t, root, order, m, t[n].height - 1);
      ParentStep(t, root, order, c);
      assert Core(t, n, order);
      ValsInKeys(t, n, order);
      KeyUnique(t, root, order, t[c].parent, n, y);
      ChildSlots(t, n, order, t[c].index, y);
      assert false;
    }
  }

  /**
   * A key of the tree that lies between two keys of a subtree belongs to that subtree:
   * the keys of a subtree are a contiguous run of the tree's keys.
   */
  lemma {:induction false} Contiguous(t: Tree, root: Node, order: int, n: Node, a: int, b: int, y: int)
    requires Shape(t, root, order) && n in t
    requires a in t[n].keys && b in t[n].keys && a < y < b && y in t[root].keys
    ensures y in t[n].keys
    decreases t[root].height - t[n].height
  {
    if n != root {
      ParentStep(t, root, order, n);
      var p, ci := t[n].parent, t[n].index;
      Contiguous(t, root, order, p, a, b, y);
      assert Core(t, p, order);
      assert ChildOK(t, p, ci);
      assert InSlot(t[p].vals, ci, a) && InSlot(t[p].vals, ci, b);
      if y !in t[p].vals {
        var j :| 0 <= j < |t[p].kids| && y in KeysOf(t, t[p].kids[j]);
        assert ChildOK(t, p, j);
        assert j == ci;
      }
    }
  }

  /** The key set `k` holds every key of `s` below one of its own keys: `k` is a lower end of `s`. */
  /**
   * Every key of `s` outside the key list `vals` is below both `v` and all of `vals`,
   * or above both: `v` falls in the gap that `vals` covers.
   */
  ghost predicate InGap(s: set<int>, vals: seq<int>, v: int)
  {
    forall y :: y in s && y !in vals ==>
      (y < v && forall j :: 0 <= j < |vals| ==> y < vals[j]) ||
      (y > v && forall j :: 0 <= j < |vals| ==> y > vals[j])
  }

  ghost predicate Prefix(s: set<int>, k: set<int>)
  {
    k <= s && forall z, w :: z in s && w in k && z < w ==> z in k
  }

  /** The key set `k` holds every key of `s` above one of its own keys: `k` is an upper end of `s`. */
  ghost predicate Suffix(s: set<int>, k: set<int>)
  {
    k <= s && forall z, w :: z in s && w in k && w < z ==> z in k
  }

  /** Going down the leftmost child keeps a lower end. */
  lemma PrefixStep(t: Tree, root: Node, order: int, s: set<int>, n: Node)
    requires Shape(t, root, order) && n in t && t[n].height > 0 && Prefix(s, t[n].keys)
    ensures 0 < |t[n].kids| && t[n].kids[0] in t && Prefix(s, KeysOf(t, t[n].kids[0]))
  {
    ChildFacts(t, root, order, n, 0);
    var c := t[n].kids[0];
    forall z, w | z in s && w in t[c].keys && z < w
      ensures z in t[c].keys
    {
      assert InSlot(t[n].vals, 0, w);
      assert z in t[n].keys;
      if z !in t[n].vals {
        var j :| 0 <= j < |t[n].kids| && z in KeysOf(t, t[n].kids[j]);
        ChildFacts(t, root, order, n, j);
        assert InSlot(t[n].vals, j, z);
        assert j == 0;
      }
    }
  }

  /** Going down the rightmost child keeps an upper end. */
  lemma SuffixStep(t: Tree, root: Node, order: int, s: set<int>, n: Node)
    requires Shape(t, root, order) && n in t && t[n].height > 0 && Suffix(s, t[n].keys)
    ensures |t[n].vals| < |t[n].kids| && t[n].kids[|t[n].vals|] in t
    ensures Suffix(s, t[t[n].kids[|t[n].vals|]].keys)
  {
    var d := |t[n].vals|;
    ChildFacts(t, root, order, n, d);
    var c := t[n].kids[d];
    forall z, w | z in s && w in t[c].keys && w < z
      ensures z in t[c].keys
    {
      assert InSlot(t[n].vals, d, w);
      assert z in t[n].keys;
      if z !in t[n].vals {
        var j :| 0 <= j < |t[n].kids| && z in KeysOf(t, t[n].kids[j]);
        ChildFacts(t, root, order, n, j);
        assert InSlot(t[n].vals, j, z);
        assert j == d;
      }
    }
  }

  /** The first key of a non-empty leaf that is a lower end of `s` is the least key of `s`. */
  lemma PrefixLeaf(v: View, order: int, s: set<int>)
    requires Local(v, order) && v.height == 0 && Prefix(s, v.keys) && |v.vals| > 0
    ensures v.vals[0] in s && forall z :: z in s ==> v.vals[0] <= z
  {
    assert v.vals[0] in v.keys;
  }

  /** The last key of a non-empty leaf that is an upper end of `s` is the greatest key of `s`. */
  lemma SuffixLeaf(v: View, order: int, s: set<int>)
    requires Local(v, order) && v.height == 0 && Suffix(s, v.keys) && |v.vals| > 0
    ensures v.vals[|v.vals| - 1] in s && forall z :: z in s ==> z <= v.vals[|v.vals| - 1]
  {
    assert v.vals[|v.vals| - 1] in v.keys;
  }

  /** If `x` is the greatest key under the last child of a node, it is the greatest key under the node. */
  lemma MaxClimb(t: Tree, root: Node, order: int, m: Node, x: int)
    requires Shape(t, root, order) && m in t && m != root
    requires x in t[m].keys && forall z :: z in t[m].keys ==> z <= x
    requires t[m].parent != null && t[m].parent in t && t[m].index == |t[t[m].parent].vals|
    ensures x in t[t[m].parent].keys && forall z :: z in t[t[m].parent].keys ==> z <= x
  {
    ParentStep(t, root, order, m);
    var p := t[m].parent;
    ChildFacts(t, root, order, p, t[m].index);
    forall z | z in t[p].keys
      ensures z <= x
    {
      assert InSlot(t[p].vals, t[m].index, x);
      if z !in t[p].vals {
        var j :| 0 <= j < |t[p].kids| && z in KeysOf(t, t[p].kids[j]);
        ChildFacts(t, root, order, p, j);
        assert InSlot(t[p].vals, j, z);
      }
    }
  }

  /** If `x` is the least key under the first child of a node, it is the least key under the node. */
  lemma MinClimb(t: Tree, root: Node, order: int, m: Node, x: int)
    requires Shape(t, root, order) && m in t && m != root
    requires x in t[m].keys && forall z :: z in t[m].keys ==> x <= z
    requires t[m].parent != null && t[m].parent in t && t[m].index == 0
    ensures x in t[t[m].parent].keys && forall z :: z in t[t[m].parent].keys ==> x <= z
  {
    ParentStep(t, root, order, m);
    var p := t[m].parent;
    ChildFacts(t, root, order, p, 0);
    forall z | z in t[p].keys
      ensures x <= z
    {
      assert InSlot(t[p].vals, 0, x);
      if z !in t[p].vals {
        var j :| 0 <= j < |t[p].kids| && z in KeysOf(t, t[p].kids[j]);
        ChildFacts(t, root, order, p, j);
        assert InSlot(t[p].vals, j, z);
      }
    }
  }

  /** A key under `p` above the greatest key `x` under child `ci` is not below the separator after that child. */
  lemma SeparatorAbove(t: Tree, root: Node, order: int, p: Node, ci: int, x: int, z: int)
    requires Shape(t, root, order) && p in t && t[p].height > 0 && 0 <= ci < |t[p].vals| < |t[p].kids|
    requires x in KeysOf(t, t[p].kids[ci]) && forall w :: w in KeysOf(t, t[p].kids[ci]) ==> w <= x
    requires z in t[p].keys && x < z
    ensures t[p].vals[ci] <= z
  {
    ChildFacts(t, root, order, p, ci);
    assert InSlot(t[p].vals, ci, x);
    if z !in t[p].vals {
      var j :| 0 <= j < |t[p].kids| && z in KeysOf(t, t[p].kids[j]);
      ChildFacts(t, root, order, p, j);
      assert InSlot(t[p].vals, j, z);
    }
  }

  /** A key under `p` below the least key `x` under child `ci` is not above the separator before that child. */
  lemma SeparatorBelow(t: Tree, root: Node, order: int, p: Node, ci: int, x: int, z: int)
    requires Shape(t, root, order) && p in t && t[p].height > 0 && 0 < ci <= |t[p].vals| < |t[p].kids|
    requires x in KeysOf(t, t[p].kids[ci]) && forall w :: w in KeysOf(t, t[p].kids[ci]) ==> x <= w
    requires z in t[p].keys && z < x
    ensures z <= t[p].vals[ci - 1]
  {
    ChildFacts(t, root, order, p, ci);
    assert InSlot(t[p].vals, ci, x);
    if z !in t[p].vals {
      var j :| 0 <= j < |t[p].kids| && z in KeysOf(t, t[p].kids[j]);
      ChildFacts(t, root, order, p, j);
      assert InSlot(t[p].vals, j, z);
    }
  }

  /**
   * If `x` is the greatest key under child `i` of a node and `i` is not the last child,
   * the separator after child `i` is the next key of the tree after `x`.
   */
  lemma NextSeparator(t: Tree, root: Node, order: int, m: Node, x: int)
    requires Shape(t, root, order) && m in t && m != root
    requires x in t[m].keys && forall z :: z in t[m].keys ==> z <= x
    requires t[m].parent != null && t[m].parent in t && 0 <= t[m].index < |t[t[m].parent].vals|
    ensures x < t[t[m].parent].vals[t[m].index] && t[t[m].parent].vals[t[m].index] in t[root].keys
    ensures forall z :: z in t[root].keys && x < z ==> t[t[m].parent].vals[t[m].index] <= z
  {
    ParentStep(t, root, order, m);
    var p, ci := t[m].parent, t[m].index;
    ChildFacts(t, root, order, p, ci);
    assert InSlot(t[p].vals, ci, x);
    ValsInKeys(t, p, order);
    InRoot(t, root, order, p);
    forall z | z in t[root].keys && x < z
      ensures t[p].vals[ci] <= z
    {
      if z < t[p].vals[ci] {
        Contiguous(t, root, order, p, x, t[p].vals[ci], z);
        SeparatorAbove(t, root, order, p, ci, x, z);
        assert false;
      }
    }
  }

  /**
   * If `x` is the least key under child `i > 0` of a node, the separator before
   * child `i` is the previous key of the tree before `x`.
   */
  lemma PrevSeparator(t: Tree, root: Node, order: int, m: Node, x: int)
    requires Shape(t, root, order) && m in t && m != root
    requires x in t[m].keys && forall z :: z in t[m].keys ==> x <= z
    requires t[m].parent != null && t[m].parent in t && 0 < t[m].index <= |t[t[m].parent].vals|
    ensures t[t[m].parent].vals[t[m].index - 1] < x && t[t[m].parent].vals[t[m].index - 1] in t[root].keys
    ensures forall z :: z in t[root].keys && z < x ==> z <= t[t[m].parent].vals[t[m].index - 1]
  {
    ParentStep(t, root, order, m);
    var p, ci := t[m].parent, t[m].index;
    ChildFacts(t, root, order, p, ci);
    assert InSlot(t[p].vals, ci, x);
    ValsInKeys(t, p, order);
    InRoot(t, root, order, p);
    forall z | z in t[root].keys && z < x
      ensures z <= t[p].vals[ci - 1]
    {
      if t[p].vals[ci - 1] < z {
        Contiguous(t, root, order, p, t[p].vals[ci - 1], x, z);
        SeparatorBelow(t, root, order, p, ci, x, z);
        assert false;
      }
    }
  }

  /** A key of the tree between key `i` of `n` and a key under child `i + 1` is under child `i + 1`. */
  lemma RightGap(t: Tree, root: Node, order: int, n: Node, i: int, z: int, w: int)
    requires Shape(t, root, order) && n in t && t[n].height > 0 && 0 <= i < |t[n].vals|
    requires Core(t, n, order) && z in t[root].keys && t[n].vals[i] < z < w && w in KeysOf(t, t[n].kids[i + 1])
    ensures z in KeysOf(t, t[n].kids[i + 1])
  {
    ChildFacts(t, root, order, n, i + 1);
    ValsInKeys(t, n, order);
    assert InSlot(t[n].vals, i + 1, w);
    Contiguous(t, root, order, n, t[n].vals[i], w, z);
    if z !in t[n].vals {
      var j :| 0 <= j < |t[n].kids| && z in KeysOf(t, t[n].kids[j]);
      ChildFacts(t, root, order, n, j);
      assert InSlot(t[n].vals, j, z);
      assert j == i + 1;
    }
  }

  /** The child right of key `i` is a lower end of the tree's keys above that key. */
  lemma RightOfKey(t: Tree, root: Node, order: int, n: Node, i: int)
    requires Shape(t, root, order) && n in t && t[n].height > 0 && 0 <= i < |t[n].vals|
    ensures i + 1 < |t[n].kids| && t[n].kids[i + 1] in t && t[n].kids[i + 1] != root
    ensures Prefix((set z | z in t[root].keys && t[n].vals[i] < z), KeysOf(t, t[n].kids[i + 1]))
  {
    ChildFacts(t, root, order, n, i + 1);
    InRoot(t, root, order, n);
    var c := t[n].kids[i + 1];
    var x := t[n].vals[i];
    forall z, w | z in t[root].keys && x < z && w in t[c].keys && z < w
      ensures z in t[c].keys
    {
      RightGap(t, root, order, n, i, z, w);
    }
    forall w | w in t[c].keys
      ensures x < w
    {
      assert InSlot(t[n].vals, i + 1, w);
    }
  }

  /** The child left of key `i` is an upper end of the tree's keys below that key. */
  lemma LeftOfKey(t: Tree, root: Node, order: int, n: Node, i: int)
    requires Shape(t, root, order) && n in t && t[n].height > 0 && 0 <= i < |t[n].vals|
    ensures i < |t[n].kids| && t[n].kids[i] in t && t[n].kids[i] != root
    ensures Suffix((set z | z in t[root].keys && z < t[n].vals[i]), KeysOf(t, t[n].kids[i]))
  {
    ChildFacts(t, root, order, n, i);
    InRoot(t, root, order, n);
    ValsInKeys(t, n, order);
    var c := t[n].kids[i];
    var x := t[n].vals[i];
    forall z, w | z in t[root].keys && z < x && w in t[c].keys && w < z
      ensures z in t[c].keys
    {
      assert InSlot(t[n].vals, i, w);
      Contiguous(t, root, order, n, w, x, z);
      if z !in t[n].vals {
        var j :| 0 <= j < |t[n].kids| && z in KeysOf(t, t[n].kids[j]);
        ChildFacts(t, root, order, n, j);
        assert InSlot(t[n].vals, j, z);
        assert j == i;
      }
    }
    forall w | w in t[c].keys
      ensures w < x
    {
      assert InSlot(t[n].vals, i, w);
    }
  }
}
