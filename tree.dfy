/**
 * The explored-node tree shared by BFS, GBFS and A*.
 *
 * The source allocates one heap node per generated board, each holding a
 * parent pointer, an insertion order and a vector of child pointers. Here the
 * nodes live in one sequence (an arena) and refer to one another by index: the
 * parent of the root is -1 (the null pointer) and every other parent index is
 * smaller than the node's own index, because a child is always created after
 * its parent.
 */
module SearchTree {
  import opened Puzzle

  datatype TreeNode = TreeNode(board: seq<int>, parent: int, order: int, children: seq<nat>)

  /** Parent links point strictly backwards, or are -1 at a root. */
  predicate Linked(a: seq<TreeNode>) {
    forall i {:trigger a[i].parent} :: 0 <= i < |a| ==> -1 <= a[i].parent < i
  }

  /**
   * The arena of one search from `initial`: node 0 is the start node and the
   * only one without a parent, every board is legal, every node's board is
   * one slide away from its parent's, and every child index names a later
   * node whose parent is this one.
   */
  predicate WellFormed(w: nat, a: seq<TreeNode>, initial: seq<int>) {
    && |a| > 0 && a[0].board == initial && a[0].parent == -1
    && Linked(a) && LegalBoards(w, a) && ParentSlides(w, a) && ChildLinks(a)
  }

  predicate LegalBoards(w: nat, a: seq<TreeNode>) {
    forall i :: 0 <= i < |a| ==> IsBoard(w, a[i].board)
  }

  predicate ParentSlides(w: nat, a: seq<TreeNode>)
    requires Linked(a)
  {
    forall i {:trigger a[i].parent} :: 1 <= i < |a| ==>
      0 <= a[i].parent && IsSlide(w, a[a[i].parent].board, a[i].board)
  }

  predicate ChildLinks(a: seq<TreeNode>) {
    forall i, k :: 0 <= i < |a| && 0 <= k < |a[i].children| ==>
      i < a[i].children[k] < |a| && a[a[i].children[k]].parent == i
  }

  // ---------------------------------------------------------------------------
  // Moves: moveUp / moveLeft / moveRight / moveDown
  // ---------------------------------------------------------------------------

  /** lo, lo + 1, ..., hi - 1 */
  function Range(lo: int, hi: int): (r: seq<nat>)
    requires 0 <= lo <= hi
    ensures |r| == hi - lo && forall k :: 0 <= k < |r| ==> r[k] == lo + k
  {
    seq(hi - lo, k => lo + k)
  }

  /**
   * One move method called on node i with the given insertion order: if the
   * blank can slide, a new node holding the slid board, parented by i and
   * carrying `order`, is appended to the arena and its index to i's children;
   * otherwise nothing changes.
   */
  function Attempt(w: nat, a: seq<TreeNode>, i: nat, m: Move, order: int): (r: seq<TreeNode>)
    requires w > 0 && i < |a| && |a[i].board| == w * w && 0 in a[i].board
    ensures Slide(w, a[i].board, m).None? ==> r == a
    ensures Slide(w, a[i].board, m).Some? ==>
      && |r| == |a| + 1
      && r[|a|] == TreeNode(Slide(w, a[i].board, m).value, i, order, [])
      && r[i].children == a[i].children + [|a|]
    ensures |r| >= |a|
    ensures forall j :: 0 <= j < |a| ==>
      r[j].board == a[j].board && r[j].parent == a[j].parent && r[j].order == a[j].order
    ensures forall j :: 0 <= j < |a| && j != i ==> r[j] == a[j]
  {
    match Slide(w, a[i].board, m)
    case None => a
    case Some(c) => a[i := a[i].(children := a[i].children + [|a|])] + [TreeNode(c, i, order, [])]
  }

  /** The boards the given moves produce from b, in the order the moves are tried. */
  function SlidesOf(w: nat, b: seq<int>, moves: seq<Move>): seq<seq<int>>
    requires w > 0 && |b| == w * w && 0 in b
  {
    if moves == [] then []
    else OptionToSeq(Slide(w, b, moves[0])) + SlidesOf(w, b, moves[1..])
  }

  /**
   * The insertion orders the given moves hand out from b: move k, numbered
   * orders[k], adds a node only when it is legal, so the orders of the legal
   * moves in turn, one per board of SlidesOf.
   */
  function OrdersOf(w: nat, b: seq<int>, moves: seq<Move>, orders: seq<int>): (r: seq<int>)
    requires w > 0 && |b| == w * w && 0 in b && |orders| == |moves|
    ensures |r| == |SlidesOf(w, b, moves)|
    ensures forall x :: x in r ==> x in orders
  {
    if moves == [] then []
    else (if Slide(w, b, moves[0]).Some? then [orders[0]] else []) + OrdersOf(w, b, moves[1..], orders[1..])
  }

  lemma SlidesOfMoveOrder(w: nat, b: seq<int>)
    requires w > 0 && |b| == w * w && 0 in b
    ensures SlidesOf(w, b, MoveOrder) == Successors(w, b)
  {
    var d := OptionToSeq(Slide(w, b, Down));
    var r := OptionToSeq(Slide(w, b, Right));
    var l := OptionToSeq(Slide(w, b, Left));
    var u := OptionToSeq(Slide(w, b, Up));
    assert SlidesOf(w, b, [Down]) == d + SlidesOf(w, b, []) == d;
    assert SlidesOf(w, b, [Right, Down]) == r + d;
    assert SlidesOf(w, b, [Left, Right, Down]) == l + (r + d);
    assert SlidesOf(w, b, MoveOrder) == u + (l + (r + d));
  }

  predicate Increasing(s: seq<int>) {
    forall p, q :: 0 <= p < q < |s| ==> s[p] < s[q]
  }

  /**
   * The effect of the move calls `moves[k]`, with insertion order
   * `orders[k]`, on node i of arena `a`, giving `r`. The new nodes are
   * appended in move order. They hold exactly the boards the legal moves
   * produce, are children of i, and each carries the order its move was
   * given (so strictly increasing orders when `orders` is). No existing node changes, except
   * that i gains the new children.
   */
  predicate Expands(w: nat, a: seq<TreeNode>, i: nat, moves: seq<Move>, orders: seq<int>, r: seq<TreeNode>)
    requires w > 0 && i < |a| && |a[i].board| == w * w && 0 in a[i].board && |orders| == |moves|
  {
    && |r| == |a| + |SlidesOf(w, a[i].board, moves)|
    && (forall j :: 0 <= j < |a| ==>
          r[j].board == a[j].board && r[j].parent == a[j].parent && r[j].order == a[j].order)
    && (forall j :: 0 <= j < |a| && j != i ==> r[j] == a[j])
    && r[i].children == a[i].children + Range(|a|, |r|)
    && (forall k :: |a| <= k < |r| ==>
          && r[k].board == SlidesOf(w, a[i].board, moves)[k - |a|]
          && r[k].parent == i && r[k].children == [] && r[k].order in orders
          && r[k].order == OrdersOf(w, a[i].board, moves, orders)[k - |a|])
    && (Increasing(orders) ==> forall k, l :: |a| <= k < l < |r| ==> r[k].order < r[l].order)
  }

  /** The move calls of one expansion, in turn. */
  function {:induction false} Expand(w: nat, a: seq<TreeNode>, i: nat, moves: seq<Move>, orders: seq<int>): (r: seq<TreeNode>)
    requires w > 0 && i < |a| && |a[i].board| == w * w && 0 in a[i].board
    requires |orders| == |moves|
    ensures Expands(w, a, i, moves, orders, r)
    decreases moves
  {
    if moves == [] then a
    else
      var a1 := Attempt(w, a, i, moves[0], orders[0]);
      var r := Expand(w, a1, i, moves[1..], orders[1..]);
      ExpandStep(w, a, i, moves, orders, a1, r);
      r
  }

  lemma ExpandStep(w: nat, a: seq<TreeNode>, i: nat, moves: seq<Move>, orders: seq<int>, a1: seq<TreeNode>, r: seq<TreeNode>)
    requires w > 0 && i < |a| && |a[i].board| == w * w && 0 in a[i].board
    requires |orders| == |moves| > 0
    requires a1 == Attempt(w, a, i, moves[0], orders[0])
    requires Expands(w, a1, i, moves[1..], orders[1..], r)
    ensures Expands(w, a, i, moves, orders, r)
  {
    var b := a[i].board;
    assert SlidesOf(w, b, moves) == OptionToSeq(Slide(w, b, moves[0])) + SlidesOf(w, b, moves[1..]);
    assert a1[i].board == b;
    ExpandStepNodes(w, a, i, moves, orders, a1, r);
    if Increasing(orders) {
      ExpandStepOrders(w, a, i, moves, orders, a1, r);
    }
    ExpandStepChildren(w, a, i, moves, orders, a1, r);
  }

  /** The nodes after a are the first move's node, if any, then the nodes the other moves added. */
  lemma ExpandStepNodes(w: nat, a: seq<TreeNode>, i: nat, moves: seq<Move>, orders: seq<int>, a1: seq<TreeNode>,
                        r: seq<TreeNode>)
    requires w > 0 && i < |a| && |a[i].board| == w * w && 0 in a[i].board
    requires |orders| == |moves| > 0
    requires a1 == Attempt(w, a, i, moves[0], orders[0])
    requires |r| == |a1| + |SlidesOf(w, a1[i].board, moves[1..])|
    requires forall j :: 0 <= j < |a1| && j != i ==> r[j] == a1[j]
    requires forall k :: |a1| <= k < |r| ==>
      && r[k].board == SlidesOf(w, a1[i].board, moves[1..])[k - |a1|]
      && r[k].parent == i && r[k].children == [] && r[k].order in orders[1..]
      && r[k].order == OrdersOf(w, a1[i].board, moves[1..], orders[1..])[k - |a1|]
    ensures forall k :: |a| <= k < |r| ==>
      && r[k].board == SlidesOf(w, a[i].board, moves)[k - |a|]
      && r[k].parent == i && r[k].children == [] && r[k].order in orders
      && r[k].order == OrdersOf(w, a[i].board, moves, orders)[k - |a|]
  {
    var b := a[i].board;
    assert SlidesOf(w, b, moves) == OptionToSeq(Slide(w, b, moves[0])) + SlidesOf(w, b, moves[1..]);
    assert OrdersOf(w, b, moves, orders)
      == (if Slide(w, b, moves[0]).Some? then [orders[0]] else []) + OrdersOf(w, b, moves[1..], orders[1..]);
    assert a1[i].board == b;
    forall k | |a| <= k < |r|
      ensures r[k].board == SlidesOf(w, b, moves)[k - |a|]
      ensures r[k].parent == i && r[k].children == [] && r[k].order in orders
      ensures r[k].order == OrdersOf(w, b, moves, orders)[k - |a|]
    {
      if k < |a1| {
        assert k == |a| && Slide(w, b, moves[0]).Some?;
      } else {
        assert orders[1..][0] in orders;
        assert forall x :: x in orders[1..] ==> x in orders;
      }
    }
  }

  /** Increasing orders give the new nodes increasing orders. */
  lemma ExpandStepOrders(w: nat, a: seq<TreeNode>, i: nat, moves: seq<Move>, orders: seq<int>, a1: seq<TreeNode>,
                         r: seq<TreeNode>)
    requires w > 0 && i < |a| && |a[i].board| == w * w && 0 in a[i].board
    requires |orders| == |moves| > 0
    requires a1 == Attempt(w, a, i, moves[0], orders[0])
    requires |a1| <= |r|
    requires forall j :: 0 <= j < |a1| && j != i ==> r[j] == a1[j]
    requires forall k :: |a1| <= k < |r| ==> r[k].order in orders[1..]
    requires Increasing(orders[1..]) ==> forall k, l :: |a1| <= k < l < |r| ==> r[k].order < r[l].order
    requires Increasing(orders)
    ensures forall k, l :: |a| <= k < l < |r| ==> r[k].order < r[l].order
  {
    assert Increasing(orders[1..]);
    forall k, l | |a| <= k < l < |r| ensures r[k].order < r[l].order {
      if k < |a1| {
        assert r[l].order in orders[1..];
      }
    }
  }

  /** Node i's children gain the indices of all the new nodes, in order. */
  lemma ExpandStepChildren(w: nat, a: seq<TreeNode>, i: nat, moves: seq<Move>, orders: seq<int>,
                           a1: seq<TreeNode>, r: seq<TreeNode>)
    requires w > 0 && i < |a| && |a[i].board| == w * w && 0 in a[i].board
    requires |orders| == |moves| > 0
    requires a1 == Attempt(w, a, i, moves[0], orders[0])
    requires |a1| <= |r| && r[i].children == a1[i].children + Range(|a1|, |r|)
    ensures r[i].children == a[i].children + Range(|a|, |r|)
  {
    if Slide(w, a[i].board, moves[0]).Some? {
      assert Range(|a|, |r|) == [|a|] + Range(|a1|, |r|);
    } else {
      assert Range(|a|, |r|) == Range(|a1|, |r|);
    }
  }

  /** The nodes one expansion adds hold legal boards one slide away from node i. */
  lemma ExpandNewNodes(w: nat, a: seq<TreeNode>, initial: seq<int>, i: nat, orders: seq<int>, r: seq<TreeNode>)
    requires WellFormed(w, a, initial) && i < |a| && |orders| == 4
    requires r == Expand(w, a, i, MoveOrder, orders)
    ensures forall k :: |a| <= k < |r| ==>
      r[k].parent == i && IsBoard(w, r[k].board) && IsSlide(w, a[i].board, r[k].board)
  {
    var b := a[i].board;
    SlidesOfMoveOrder(w, b);
    forall k | |a| <= k < |r|
      ensures IsBoard(w, r[k].board) && IsSlide(w, b, r[k].board)
    {
      assert r[k].board == Successors(w, b)[k - |a|];
      SlideStep(w, b, r[k].board);
    }
  }

  /**
   * Appending nodes that are legal slides of an existing node i, without
   * touching the boards or parents of the existing nodes, keeps the parent
   * links well formed.
   */
  lemma AppendParentSlides(w: nat, a: seq<TreeNode>, r: seq<TreeNode>, i: nat)
    requires Linked(a) && LegalBoards(w, a) && ParentSlides(w, a) && i < |a| <= |r|
    requires forall j :: 0 <= j < |a| ==> r[j].board == a[j].board && r[j].parent == a[j].parent
    requires forall k :: |a| <= k < |r| ==>
      r[k].parent == i && IsBoard(w, r[k].board) && IsSlide(w, a[i].board, r[k].board)
    ensures Linked(r) && LegalBoards(w, r) && ParentSlides(w, r)
  {
    forall j | 1 <= j < |r|
      ensures 0 <= r[j].parent && IsSlide(w, r[r[j].parent].board, r[j].board)
    {
      if j < |a| {
        var p := a[j].parent;
        assert r[p].board == a[p].board;
      } else {
        assert r[i].board == a[i].board;
      }
    }
  }

  lemma ExpandParentSlides(w: nat, a: seq<TreeNode>, initial: seq<int>, i: nat, orders: seq<int>)
    requires WellFormed(w, a, initial) && i < |a| && |orders| == 4
    ensures var r := Expand(w, a, i, MoveOrder, orders);
      Linked(r) && LegalBoards(w, r) && ParentSlides(w, r)
  {
    var r := Expand(w, a, i, MoveOrder, orders);
    ExpandNewNodes(w, a, initial, i, orders, r);
    AppendParentSlides(w, a, r, i);
  }

  lemma ExpandChildLinks(w: nat, a: seq<TreeNode>, i: nat, orders: seq<int>, r: seq<TreeNode>)
    requires ChildLinks(a) && w > 0 && i < |a| && |a[i].board| == w * w && 0 in a[i].board && |orders| == 4
    requires r == Expand(w, a, i, MoveOrder, orders)
    ensures ChildLinks(r)
  {
    var added := Range(|a|, |r|);
    assert r[i].children == a[i].children + added;
    forall j, k | 0 <= j < |r| && 0 <= k < |r[j].children|
      ensures j < r[j].children[k] < |r| && r[r[j].children[k]].parent == j
    {
      if j == i && k >= |a[i].children| {
        assert r[j].children[k] == added[k - |a[i].children|];
      } else if j < |a| {
        assert r[j].children[k] == a[j].children[k];
        assert r[j].children[k] < |a|;
      }
    }
  }

  /**
   * Expansion keeps the arena well formed: the new nodes hold legal boards
   * one slide away from node i, and the child links stay consistent.
   */
  lemma ExpandWellFormed(w: nat, a: seq<TreeNode>, initial: seq<int>, i: nat, orders: seq<int>)
    requires WellFormed(w, a, initial) && i < |a| && |orders| == 4
    ensures WellFormed(w, Expand(w, a, i, MoveOrder, orders), initial)
  {
    ExpandParentSlides(w, a, initial, i, orders);
    ExpandChildLinks(w, a, i, orders, Expand(w, a, i, MoveOrder, orders));
  }

  // ---------------------------------------------------------------------------
  // Path reconstruction: tracePath / traceSolution
  // ---------------------------------------------------------------------------

  /**
   * The nodes from the root down to node i, following parent links: what
   * tracePath collects by walking to the root and reversing.
   */
  function Chain(a: seq<TreeNode>, i: nat): (c: seq<nat>)
    requires Linked(a) && i < |a|
    ensures |c| >= 1 && Last(c) == i
    ensures forall k :: 0 <= k < |c| ==> c[k] < |a|
    ensures a[c[0]].parent < 0
    ensures forall k :: 0 <= k < |c| - 1 ==> a[c[k + 1]].parent == c[k]
    decreases i
  {
    if a[i].parent < 0 then [i] else Chain(a, a[i].parent) + [i]
  }

  /** std::reverse: the first element goes last, after the reversal of the rest. */
  function Reverse<T>(s: seq<T>): seq<T>
  {
    if s == [] then [] else Reverse(s[1..]) + [s[0]]
  }

  /** Reversing a sequence with one more element at its end puts that element first. */
  lemma {:induction false} ReverseAppend<T>(s: seq<T>, x: T)
    ensures Reverse(s + [x]) == [x] + Reverse(s)
    decreases |s|
  {
    if s != [] {
      assert (s + [x])[1..] == s[1..] + [x];
      ReverseAppend(s[1..], x);
    }
  }

  /** The reversal has the same length and holds at position k the element k places from the end. */
  lemma {:induction false} ReverseIndex<T>(s: seq<T>)
    ensures |Reverse(s)| == |s|
    ensures forall k :: 0 <= k < |s| ==> Reverse(s)[k] == s[|s| - 1 - k]
    decreases |s|
  {
    if s != [] {
      ReverseIndex(s[1..]);
    }
  }

  /** The boards held by the nodes at the given indices. */
  function BoardsOf(a: seq<TreeNode>, c: seq<nat>): seq<seq<int>>
    requires forall k :: 0 <= k < |c| ==> c[k] < |a|
  {
    seq(|c|, k requires 0 <= k < |c| => a[c[k]].board)
  }

  /**
   * tracePath: push the node and each ancestor in turn, then reverse, so the
   * result starts at the parentless root and ends at node i, each entry being
   * the parent of the next.
   */
  method TracePath(a: seq<TreeNode>, i: nat) returns (path: seq<nat>)
    requires Linked(a) && i < |a|
    ensures path == Chain(a, i)
  {
    var collected: seq<nat> := [];
    var node: int := i;
    while node >= 0
      invariant -1 <= node < |a|
      invariant node >= 0 ==> Chain(a, i) == Chain(a, node) + Reverse(collected)
      invariant node < 0 ==> Chain(a, i) == Reverse(collected)
      decreases node + 1
    {
      ReverseAppend<nat>(collected, node);
      collected := collected + [node];
      node := a[node].parent;
    }
    path := Reverse(collected);
  }

  /**
   * In a well-formed arena the chain of any node starts at the start node, and
   * its boards form a move path from the initial board to that node's board.
   */
  lemma ChainIsMovePath(w: nat, a: seq<TreeNode>, initial: seq<int>, i: nat)
    requires WellFormed(w, a, initial) && i < |a|
    ensures var bs := BoardsOf(a, Chain(a, i));
      Chain(a, i)[0] == 0 && bs[0] == initial && Last(bs) == a[i].board && IsMovePath(w, bs)
  {
    var c := Chain(a, i);
    var bs := BoardsOf(a, c);
    assert a[c[0]].parent < 0;
    forall k | 0 <= k < |bs| - 1 ensures IsSlide(w, bs[k], bs[k + 1]) {
      assert a[c[k + 1]].parent == c[k] >= 0;
    }
  }

  /** Growing the arena without changing existing parent links leaves every existing chain as it was. */
  lemma {:induction false} ChainFrame(a: seq<TreeNode>, r: seq<TreeNode>, i: nat)
    requires Linked(a) && Linked(r) && i < |a| <= |r|
    requires forall j :: 0 <= j < |a| ==> r[j].parent == a[j].parent
    ensures Chain(r, i) == Chain(a, i)
    decreases i
  {
    if a[i].parent >= 0 {
      ChainFrame(a, r, a[i].parent);
    }
  }

  /** The number of slides from the start node down to node i: a child is one level below its parent. */
  function Depth(a: seq<TreeNode>, i: nat): nat
    requires Linked(a) && i < |a|
    decreases i
  {
    if a[i].parent < 0 then 0 else Depth(a, a[i].parent) + 1
  }

  /** The chain down to node i holds one node more than its depth: the path has g + 1 boards. */
  lemma {:induction false} ChainLength(a: seq<TreeNode>, i: nat)
    requires Linked(a) && i < |a|
    ensures |Chain(a, i)| == Depth(a, i) + 1
    decreases i
  {
    if a[i].parent >= 0 {
      ChainLength(a, a[i].parent);
    }
  }

  /** Growing the arena without changing existing parent links leaves every existing depth as it was. */
  lemma {:induction false} DepthFrame(a: seq<TreeNode>, r: seq<TreeNode>, i: nat)
    requires Linked(a) && Linked(r) && i < |a| <= |r|
    requires forall j :: 0 <= j < |a| ==> r[j].parent == a[j].parent
    ensures Depth(r, i) == Depth(a, i)
    decreases i
  {
    if a[i].parent >= 0 {
      DepthFrame(a, r, a[i].parent);
    }
  }

  // ---------------------------------------------------------------------------
  // The finite board universe (termination of BFS, GBFS and A*)
  // ---------------------------------------------------------------------------

  /** All sequences of length k over 0 .. n-1. */
  function AllSeqs(n: nat, k: nat): set<seq<int>>
  {
    if k == 0 then {[]}
    else set s, v | s in AllSeqs(n, k - 1) && 0 <= v < n :: s + [v]
  }

  lemma {:induction false} InAllSeqs(n: nat, s: seq<int>)
    requires forall i :: 0 <= i < |s| ==> 0 <= s[i] < n
    ensures s in AllSeqs(n, |s|)
  {
    if |s| > 0 {
      var p := s[..|s| - 1];
      InAllSeqs(n, p);
      assert s == p + [s[|s| - 1]];
    }
  }

  /** A finite set that contains every legal board of width w. */
  function AllBoards(w: nat): set<seq<int>>
  {
    AllSeqs(w * w, w * w)
  }

  lemma BoardInUniverse(w: nat, b: seq<int>)
    requires IsBoard(w, b)
    ensures b in AllBoards(w)
  {
    PermutationFacts(b, w * w);
    InAllSeqs(w * w, b);
  }
}
