/**
 * Two tests of BTree/Tema.cpp that read the slot just past a node's last key. That slot
 * is stale: it still holds the value-initialised 0 of a fresh node, or whatever an earlier
 * key left there. Each test is written here as the source has it, next to the test the
 * rest of the model uses. The lemmas name the inputs on which the two disagree.
 */
module BTreeFindings {
  import opened BTreeNodes
  import opened BTreeGrow

  /**
   * The stop test of `nodeSearch` as written (Tema.cpp:206): stop at slot `i` when it holds
   * `v` or child `i` is missing, even when `i` is past the last key.
   */
  predicate StopsAsWritten(data: seq<int>, i: int, v: int, noChild: bool)
    requires 0 <= i < |data|
  {
    data[i] == v || noChild
  }

  /** The stop test `NodeSearch` uses: slot `i` is one of the `degree` keys and holds `v`, or child `i` is missing. */
  predicate Stops(data: seq<int>, degree: int, i: int, v: int, noChild: bool)
    requires 0 <= i <= degree <= |data|
  {
    (i < degree && data[i] == v) || noChild
  }

  /**
   * The two tests differ exactly when the scan ran past the last key of an internal node
   * whose stale slot there holds `v`; otherwise the test as written is the intended one.
   */
  lemma StopTests(data: seq<int>, degree: int, i: int, v: int, noChild: bool)
    requires 0 <= i <= degree < |data|
    ensures StopsAsWritten(data, i, v, noChild) != Stops(data, degree, i, v, noChild) <==>
      i == degree && data[degree] == v && !noChild
    ensures Stops(data, degree, i, v, noChild) ==> StopsAsWritten(data, i, v, noChild)
  {
  }

  /**
   * The root of an order-3 tree after inserting -3, -2 and -1: key -2 in slot 0, the
   * value-initialised 0 in the other slots, and two children `a` and `b`. Searching for 0,
   * the scan passes -2 and stops at slot 1 as written, although 0 is not a key there and
   * child 1 exists. `insertInto` then stores 0 in the internal root, which is left with two
   * keys over two children.
   */
  lemma StaleRootStop(a: Node, b: Node)
    ensures var data := [-2, 0, 0];
      data[0] < 0 && 0 !in data[..1] &&
      StopsAsWritten(data, 1, 0, false) && !Stops(data, 1, 1, 0, false) &&
      !Local(View(Spliced(data[..1], 1, 0), {-3, -2, -1, 0}, 1, null, 0, [a, b]), 3)
  {
  }

  /**
   * The start test of `printRange` as written (Tema.cpp:604-613): the start moves off slot
   * `pos` of the leaf where `nodeSearch` stopped only when that slot differs from the lower
   * bound `l` and lies past the last key.
   */
  predicate RangeMovesAsWritten(data: seq<int>, degree: int, pos: int, l: int)
    requires 0 <= pos <= degree < |data|
  {
    data[pos] != l && pos == degree
  }

  /** The start test `RangeStart` uses: a start past the last key always moves to the next key. */
  predicate RangeMoves(degree: int, pos: int)
  {
    pos == degree
  }

  /** The two start tests differ exactly when the stale slot past the last key holds the lower bound. */
  lemma RangeStartTests(data: seq<int>, degree: int, pos: int, l: int)
    requires 0 <= pos <= degree < |data|
    ensures RangeMovesAsWritten(data, degree, pos, l) != RangeMoves(degree, pos) <==> pos == degree && data[degree] == l
    ensures RangeMovesAsWritten(data, degree, pos, l) ==> RangeMoves(degree, pos)
  {
  }

  /**
   * The root leaf of an order-3 tree holding only -1: key -1 in slot 0 and the
   * value-initialised 0 after it. `printRange(0, u)` with `u >= 0` finds the search for 0
   * stopped at slot 1, keeps that start as written and prints the stale 0, which is not a key.
   */
  lemma StaleRangeStart(u: int)
    requires u >= 0
    ensures var data := [-1, 0, 0];
      Stops(data, 1, 1, 0, true) && data[0] < 0 &&
      !RangeMovesAsWritten(data, 1, 1, 0) && RangeMoves(1, 1) &&
      data[1] <= u && data[1] !in data[..1]
  {
  }
}
