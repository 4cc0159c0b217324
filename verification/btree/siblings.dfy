/**
 * The rebalancing steps of `rebalance` in BTree/Tema.cpp, on the abstract tree. Two
 * adjacent children `L` and `R` of `p` with the separator between them hold one sorted
 * run of keys, `Joined`, and one run of children, `JoinedKids`. A rotation cuts that run
 * at another slot and lifts the key there into `p` (`Redistribute`; one slot to the left
 * for a right rotation, one to the right for a left rotation); a merge keeps the whole
 * run in `L` and takes the separator and `R` out of the tree (`Merge`); and a root left
 * without keys hands its place to its only child (`Collapse`).
 */
module BTreeSiblings {
  import opened BTreeNodes
  import opened BTreeShape
  import opened BTreeShrink

  /** Children `k` and `k + 1` of `p` exist: `p` is internal and `k` is a slot of its keys. */
  ghost predicate Adjacent(t: Tree, root: Node, order: int, p: Node, k: int)
  {
    Shape(t, root, order) && p in t && t[p].height > 0 && 0 <= k < |t[p].vals|
  }

  /** The keys of both siblings with the separator between them. */
  ghost function Joined(t: Tree, p: Node, k: int): seq<int>
    requires p in t && 0 <= k < |t[p].vals| && k + 1 < |t[p].kids|
    requires t[p].kids[k] in t && t[p].kids[k + 1] in t
  {
    t[t[p].kids[k]].vals + [t[p].vals[k]] + t[t[p].kids[k + 1]].vals
  }

  /** The children of both siblings, left ones first. */
  ghost function JoinedKids(t: Tree, p: Node, k: int): seq<Node>
    requires p in t && 0 <= k && k + 1 < |t[p].kids|
    requires t[p].kids[k] in t && t[p].kids[k + 1] in t
  {
    t[t[p].kids[k]].kids + t[t[p].kids[k + 1]].kids
  }

  /** The keys of both subtrees and the separator. */
  ghost function Pool(t: Tree, p: Node, k: int): set<int>
    requires p in t && 0 <= k < |t[p].vals| && k + 1 < |t[p].kids|
    requires t[p].kids[k] in t && t[p].kids[k + 1] in t
  {
    t[t[p].kids[k]].keys + {t[p].vals[k]} + t[t[p].kids[k + 1]].keys
  }

  /** The slot in `JoinedKids` of a child of one of the siblings. */
  ghost function Pos(t: Tree, l: Node, c: Node): int
    requires l in t && c in t
  {
    if t[c].parent == l then t[c].index else |t[l].kids| + t[c].index
  }

  /** What the shape invariant says about two adjacent siblings `l` and `r` under `p`. */
  ghost predicate Siblings(t: Tree, root: Node, order: int, p: Node, k: int)
  {
    Adjacent(t, root, order, p, k) && k + 1 < |t[p].kids| && t[p].kids[k] in t && t[p].kids[k + 1] in t &&
    var l, r := t[p].kids[k], t[p].kids[k + 1];
    l != r && l != p && r != p && l != root && r != root &&
    Core(t, p, order) && Core(t, l, order) && Core(t, r, order) &&
    ChildOK(t, p, k) && ChildOK(t, p, k + 1) &&
    t[l].height == t[r].height && t[l].height + 1 == t[p].height &&
    t[l].parent == p && t[r].parent == p && t[l].index == k && t[r].index == k + 1
  }

  lemma AdjFacts(t: Tree, root: Node, order: int, p: Node, k: int)
    requires Adjacent(t, root, order, p, k)
    ensures Siblings(t, root, order, p, k)
  {
    ChildFacts(t, root, order, p, k);
    ChildFacts(t, root, order, p, k + 1);
    var l, r := t[p].kids[k], t[p].kids[k + 1];
    assert Core(t, l, order) && Core(t, r, order);
    if l == root || r == root {
      TopIsRoot(t, root, order, p);
    }
  }

  /** The joined run is sorted: the left keys, then the separator, then the right keys. */
  lemma JoinedSorted(t: Tree, root: Node, order: int, p: Node, k: int)
    requires Siblings(t, root, order, p, k)
    ensures Sorted(Joined(t, p, k))
  {
    var l, r := t[p].kids[k], t[p].kids[k + 1];
    var s := Joined(t, p, k);
    var m := |t[l].vals|;
    ValsInKeys(t, l, order);
    ValsInKeys(t, r, order);
    forall a, b | 0 <= a < b < |s|
      ensures s[a] < s[b]
    {
      if b < m {
        assert s[a] == t[l].vals[a] && s[b] == t[l].vals[b];
      } else if b == m {
        assert s[a] == t[l].vals[a] && t[l].vals[a] in t[l].keys;
      } else if a < m {
        assert s[a] == t[l].vals[a] && t[l].vals[a] in t[l].keys;
        assert s[b] == t[r].vals[b - m - 1] && t[r].vals[b - m - 1] in t[r].keys;
      } else if a == m {
        assert s[b] == t[r].vals[b - m - 1] && t[r].vals[b - m - 1] in t[r].keys;
      } else {
        assert s[a] == t[r].vals[a - m - 1] && s[b] == t[r].vals[b - m - 1];
      }
    }
  }

  /** Two internal siblings hold one child more than keys between them; two leaves hold none. */
  lemma JoinedCount(t: Tree, root: Node, order: int, p: Node, k: int)
    requires Siblings(t, root, order, p, k)
    ensures t[t[p].kids[k]].height > 0 ==> |JoinedKids(t, p, k)| == |Joined(t, p, k)| + 1
    ensures t[t[p].kids[k]].height == 0 ==> JoinedKids(t, p, k) == []
  {
  }

  /** Child `j` of the joined run is a child of `l` or of `r`, and its keys lie in slot `j` of the joined keys. */
  lemma JoinedSlot(t: Tree, root: Node, order: int, p: Node, k: int, j: int)
    requires Siblings(t, root, order, p, k) && t[t[p].kids[k]].height > 0 && 0 <= j < |JoinedKids(t, p, k)|
    ensures var l, r, c := t[p].kids[k], t[p].kids[k + 1], JoinedKids(t, p, k)[j];
      c in t && t[c].height + 1 == t[l].height && Pos(t, l, c) == j && c != p && c != l && c != r &&
      (j < |t[l].kids| ==> t[c].parent == l && t[c].index == j) &&
      (j >= |t[l].kids| ==> t[c].parent == r && t[c].index == j - |t[l].kids|) &&
      forall y :: y in t[c].keys ==> InSlot(Joined(t, p, k), j, y)
  {
    var l, r := t[p].kids[k], t[p].kids[k + 1];
    var s := Joined(t, p, k);
    var m := |t[l].vals|;
    var c := JoinedKids(t, p, k)[j];
    if j < |t[l].kids| {
      assert c == t[l].kids[j] && ChildOK(t, l, j);
      forall y | y in t[c].keys
        ensures InSlot(s, j, y)
      {
        assert InSlot(t[l].vals, j, y);
        assert y in KeysOf(t, t[l].kids[j]);
        assert y in t[l].keys;
        if j < m {
          assert s[j] == t[l].vals[j];
        } else {
          assert s[j] == t[p].vals[k];
        }
        if 0 < j {
          assert s[j - 1] == t[l].vals[j - 1];
        }
      }
    } else {
      var i := j - |t[l].kids|;
      assert c == t[r].kids[i] && ChildOK(t, r, i);
      forall y | y in t[c].keys
        ensures InSlot(s, j, y)
      {
        assert InSlot(t[r].vals, i, y);
        assert y in KeysOf(t, t[r].kids[i]);
        assert y in t[r].keys;
        if i == 0 {
          assert s[j - 1] == t[p].vals[k];
        } else {
          assert s[j - 1] == t[r].vals[i - 1];
        }
        if j < |s| {
          assert s[j] == t[r].vals[i];
        }
      }
    }
  }

  /** The pool is the joined keys and the keys of the joined children. */
  lemma PoolMembers(t: Tree, root: Node, order: int, p: Node, k: int)
    requires Siblings(t, root, order, p, k)
    ensures forall y :: y in Pool(t, p, k) <==>
      y in Joined(t, p, k) || exists j :: 0 <= j < |JoinedKids(t, p, k)| && y in KeysOf(t, JoinedKids(t, p, k)[j])
  {
    var l, r := t[p].kids[k], t[p].kids[k + 1];
    var s := Joined(t, p, k);
    var ks := JoinedKids(t, p, k);
    forall y
      ensures y in Pool(t, p, k) <==> y in s || exists j :: 0 <= j < |ks| && y in KeysOf(t, ks[j])
    {
      if t[l].height > 0 {
        assert KeysUnion(t, l) && KeysUnion(t, r);
        if y in t[l].keys && y !in t[l].vals {
          var j :| 0 <= j < |t[l].kids| && y in KeysOf(t, t[l].kids[j]);
          assert ks[j] == t[l].kids[j];
        }
        if y in t[r].keys && y !in t[r].vals {
          var j :| 0 <= j < |t[r].kids| && y in KeysOf(t, t[r].kids[j]);
          assert ks[|t[l].kids| + j] == t[r].kids[j];
        }
        if exists j :: 0 <= j < |ks| && y in KeysOf(t, ks[j]) {
          var j :| 0 <= j < |ks| && y in KeysOf(t, ks[j]);
          if j < |t[l].kids| {
            assert ks[j] == t[l].kids[j];
          } else {
            assert ks[j] == t[r].kids[j - |t[l].kids|];
          }
        }
      }
    }
  }

  /** The pool lies between the keys of `p` on either side of the separator. */
  lemma PoolSlot(t: Tree, root: Node, order: int, p: Node, k: int)
    requires Siblings(t, root, order, p, k)
    ensures forall y :: y in Pool(t, p, k) ==>
      (0 < k ==> t[p].vals[k - 1] < y) && (k + 1 < |t[p].vals| ==> y < t[p].vals[k + 1])
  {
    assert Local(t[p], order);
  }

  /** A child of one of the two siblings sits at its slot of the joined children. */
  lemma MovedKid(t: Tree, root: Node, order: int, p: Node, k: int, c: Node)
    requires Siblings(t, root, order, p, k) && c in t
    requires t[c].parent == t[p].kids[k] || t[c].parent == t[p].kids[k + 1]
    ensures var l := t[p].kids[k]; var j := Pos(t, l, c);
      t[l].height > 0 && 0 <= j < |JoinedKids(t, p, k)| && JoinedKids(t, p, k)[j] == c
  {
    var l, r := t[p].kids[k], t[p].kids[k + 1];
    assert Core(t, c, order) && Up(t, c);
    var q := t[c].parent;
    assert Core(t, q, order) && ChildOK(t, q, t[c].index);
  }
}
