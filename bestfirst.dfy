/**
 * The best-first loop that A* (astar.cpp, astar15.cpp) and GBFS (gbfs.cpp)
 * run: a priority-queue open list, a closed set of boards that is deduplicated
 * lazily (a popped node whose board is closed is discarded), and the
 * nodesCount / heuristicSum / startHeuristic statistics.
 *
 * The three loops differ only in the comparator, in the insertion order of
 * the start node (0 for A*, 1 for GBFS) and in whether the insertion counter
 * is bumped once more before the four moves of an expansion (GBFS does,
 * A* does not); those are the parameters `below`, `startOrder` and `bump`.
 */
module BestFirst {
  import opened Puzzle
  import opened SearchTree
  import opened PriorityQueue

  /**
   * An open-list element (AstarNode, AstarNode15, GBFSNode): a tree node, the
   * node's insertion order, and its g and h costs. A*'s stored fCost is always
   * g + h; comparators compute it from the two.
   */
  datatype Entry = Entry(node: nat, order: int, g: int, h: int)

  /**
   * An entry as every push creates it: it names an existing node, repeats
   * that node's insertion order, and carries the node's depth as g and its
   * Manhattan distance to the goal as h.
   */
  ghost predicate EntryOk(w: nat, a: seq<TreeNode>, final: seq<int>, e: Entry) {
    && w > 0 && Linked(a) && e.node < |a|
    && e.order == a[e.node].order
    && e.h == Manhattan(w, a[e.node].board, final)
    && e.g == Depth(a, e.node)
  }

  /** The boards waiting on the open list. */
  function OpenBoards(a: seq<TreeNode>, open: seq<Entry>): set<seq<int>> {
    set e | e in open && e.node < |a| :: a[e.node].board
  }

  /** The sum of the heuristic values of the given boards. */
  function HeuristicTotal(w: nat, bs: seq<seq<int>>, final: seq<int>): int
    requires w > 0
  {
    if bs == [] then 0 else HeuristicTotal(w, bs[..|bs| - 1], final) + Manhattan(w, Last(bs), final)
  }

  // ---------------------------------------------------------------------------
  // Pushing the children of an expanded node
  // ---------------------------------------------------------------------------

  /** The entries the child loop pushes: one per child whose board is not closed, in child order. */
  function Pushed(w: nat, a: seq<TreeNode>, final: seq<int>, closed: set<seq<int>>, kids: seq<nat>, g: int): seq<Entry>
    requires w > 0 && forall k :: 0 <= k < |kids| ==> kids[k] < |a|
  {
    if kids == [] then []
    else
      var n := Last(kids);
      Pushed(w, a, final, closed, kids[..|kids| - 1], g)
      + (if a[n].board in closed then [] else [Entry(n, a[n].order, g, Manhattan(w, a[n].board, final))])
  }

  /**
   * The loop over currentNode->children: a child whose board is closed is
   * skipped, every other child is pushed with cost g and its Manhattan
   * distance.
   */
  method PushChildren(w: nat, a: seq<TreeNode>, final: seq<int>, closed: set<seq<int>>,
                      open: seq<Entry>, kids: seq<nat>, g: int) returns (r: seq<Entry>)
    requires w > 0 && forall k :: 0 <= k < |kids| ==> kids[k] < |a|
    ensures r == open + Pushed(w, a, final, closed, kids, g)
  {
    r := open;
    for j := 0 to |kids|
      invariant r == open + Pushed(w, a, final, closed, kids[..j], g)
    {
      assert kids[..j + 1][..j] == kids[..j];
      var child := a[kids[j]];
      if child.board in closed {
        continue;
      }
      var h := ManhattanDistance(w, child.board, final);
      r := r + [Entry(kids[j], child.order, g, h)];
    }
    assert kids[..|kids|] == kids;
  }

  /**
   * Every pushed entry names one of the children, whose board is not closed,
   * with cost g and the child's own order and heuristic; and every child
   * whose board is not closed is on the pushed list.
   */
  lemma {:induction false} PushedFacts(w: nat, a: seq<TreeNode>, final: seq<int>, closed: set<seq<int>>, kids: seq<nat>, g: int)
    requires w > 0 && forall k :: 0 <= k < |kids| ==> kids[k] < |a|
    ensures var p := Pushed(w, a, final, closed, kids, g);
      && (forall e :: e in p ==>
            e.node in kids && a[e.node].board !in closed && e.g == g
            && e.order == a[e.node].order && e.h == Manhattan(w, a[e.node].board, final))
      && (forall k :: 0 <= k < |kids| ==> a[kids[k]].board in closed || a[kids[k]].board in OpenBoards(a, p))
  {
    if kids != [] {
      var init := kids[..|kids| - 1];
      PushedFacts(w, a, final, closed, init, g);
      var p0 := Pushed(w, a, final, closed, init, g);
      var p := Pushed(w, a, final, closed, kids, g);
      assert OpenBoards(a, p0) <= OpenBoards(a, p);
      forall k | 0 <= k < |kids| && a[kids[k]].board !in closed
        ensures a[kids[k]].board in OpenBoards(a, p)
      {
        if k < |kids| - 1 {
          assert kids[k] == init[k];
        } else {
          assert Last(p) in p;
        }
      }
    }
  }

  // ---------------------------------------------------------------------------
  // Facts about the open list
  // ---------------------------------------------------------------------------

  lemma OpenBoardsAppend(a: seq<TreeNode>, open: seq<Entry>, extra: seq<Entry>)
    ensures OpenBoards(a, open + extra) == OpenBoards(a, open) + OpenBoards(a, extra)
  {
  }

  /** Popping entry k loses at most that entry's board. */
  lemma OpenBoardsPop(a: seq<TreeNode>, open: seq<Entry>, k: nat)
    requires k < |open| && open[k].node < |a|
    ensures OpenBoards(a, open) <= OpenBoards(a, RemoveAt(open, k)) + {a[open[k].node].board}
  {
    var rest := RemoveAt(open, k);
    forall b | b in OpenBoards(a, open) ensures b in OpenBoards(a, rest) + {a[open[k].node].board} {
      var e :| e in open && e.node < |a| && a[e.node].board == b;
      var j :| 0 <= j < |open| && open[j] == e;
      if j != k {
        assert e in rest;
      }
    }
  }

  /** Adding nodes to the arena does not change the boards of existing entries. */
  lemma OpenBoardsFrame(a: seq<TreeNode>, r: seq<TreeNode>, open: seq<Entry>)
    requires |a| <= |r| && forall j :: 0 <= j < |a| ==> r[j].board == a[j].board
    requires forall e :: e in open ==> e.node < |a|
    ensures OpenBoards(r, open) == OpenBoards(a, open)
  {
  }

  lemma EntryFrame(w: nat, a: seq<TreeNode>, r: seq<TreeNode>, final: seq<int>, e: Entry)
    requires EntryOk(w, a, final, e) && Linked(r) && |a| <= |r|
    requires forall j :: 0 <= j < |a| ==>
      r[j].board == a[j].board && r[j].parent == a[j].parent && r[j].order == a[j].order
    ensures EntryOk(w, r, final, e)
  {
    DepthFrame(a, r, e.node);
  }

  /** A set of boards closed under slides holds every board of every move path that starts in it. */
  lemma {:induction false} ClosedSetHoldsPath(w: nat, s: set<seq<int>>, p: seq<seq<int>>)
    requires IsMovePath(w, p) && p[0] in s
    requires forall b, c :: b in s && IsSlide(w, b, c) ==> c in s
    ensures Last(p) in s
  {
    if |p| > 1 {
      var init := p[..|p| - 1];
      assert IsMovePath(w, init) by {
        forall k | 0 <= k < |init| - 1 ensures IsSlide(w, init[k], init[k + 1]) {
          assert IsSlide(w, p[k], p[k + 1]);
        }
      }
      ClosedSetHoldsPath(w, s, init);
      assert IsSlide(w, p[|p| - 2], p[|p| - 1]);
    }
  }

  // ---------------------------------------------------------------------------
  // The search loop
  // ---------------------------------------------------------------------------

  ghost predicate EntriesOk(w: nat, a: seq<TreeNode>, final: seq<int>, open: seq<Entry>) {
    forall e :: e in open ==> EntryOk(w, a, final, e)
  }

  ghost predicate AllLegal(w: nat, s: set<seq<int>>) {
    forall b :: b in s ==> IsBoard(w, b)
  }

  /** Every slide out of a board of `closed` leads into `seen`. */
  ghost predicate Closure(w: nat, closed: set<seq<int>>, seen: set<seq<int>>) {
    forall b, c :: b in closed && IsSlide(w, b, c) ==> c in seen
  }

  lemma ClosureWeaken(w: nat, closed: set<seq<int>>, s1: set<seq<int>>, s2: set<seq<int>>)
    requires Closure(w, closed, s1) && s1 <= s2
    ensures Closure(w, closed, s2)
  {
  }

  lemma ClosureAdd(w: nat, closed: set<seq<int>>, seen: set<seq<int>>, b: seq<int>)
    requires Closure(w, closed, seen)
    requires forall c :: IsSlide(w, b, c) ==> c in seen
    ensures Closure(w, closed + {b}, seen)
  {
  }

  /**
   * The invariant of the search loop, apart from the bookkeeping of the
   * counters: the arena is well formed, every open entry is as pushed, the
   * closed boards are legal and never the goal, the start board is closed or
   * waiting, and every slide out of a closed board leads to a board that is
   * closed or waiting on the open list.
   */
  ghost predicate Frontier(w: nat, initial: seq<int>, final: seq<int>, a: seq<TreeNode>,
                           open: seq<Entry>, closed: set<seq<int>>)
  {
    && WellFormed(w, a, initial)
    && EntriesOk(w, a, final, open)
    && AllLegal(w, closed)
    && final !in closed
    && initial in closed + OpenBoards(a, open)
    && Closure(w, closed, closed + OpenBoards(a, open))
  }

  /** When the open list runs dry, the goal cannot be reached from the start. */
  lemma ExhaustedMeansUnreachable(w: nat, initial: seq<int>, final: seq<int>, a: seq<TreeNode>, closed: set<seq<int>>)
    requires Frontier(w, initial, final, a, [], closed)
    ensures forall p :: IsMovePath(w, p) && p[0] == initial ==> Last(p) != final
  {
    assert OpenBoards(a, []) == {};
    assert closed + OpenBoards(a, []) == closed;
    forall p | IsMovePath(w, p) && p[0] == initial ensures Last(p) != final {
      ClosedSetHoldsPath(w, closed, p);
    }
  }

  /**
   * Popping an entry whose board is already closed keeps the invariant: the
   * only board that can leave the open list is closed.
   */
  lemma DiscardKeepsFrontier(w: nat, initial: seq<int>, final: seq<int>, a: seq<TreeNode>,
                             open: seq<Entry>, closed: set<seq<int>>, k: nat)
    requires Frontier(w, initial, final, a, open, closed)
    requires k < |open| && open[k].node < |a| && a[open[k].node].board in closed
    ensures Frontier(w, initial, final, a, RemoveAt(open, k), closed)
  {
    var rest := RemoveAt(open, k);
    OpenBoardsPop(a, open, k);
    assert closed + OpenBoards(a, open) <= closed + OpenBoards(a, rest);
    ClosureWeaken(w, closed, closed + OpenBoards(a, open), closed + OpenBoards(a, rest));
  }

  /** The arena after an expansion of node i: old nodes keep board, parent and order; i's children are its own. */
  predicate Grown(a: seq<TreeNode>, a2: seq<TreeNode>, i: nat) {
    && i < |a| <= |a2| && Linked(a2)
    && (forall j :: 0 <= j < |a| ==>
          a2[j].board == a[j].board && a2[j].parent == a[j].parent && a2[j].order == a[j].order)
    && (forall j :: 0 <= j < |a2[i].children| ==>
          a2[i].children[j] < |a2| && a2[a2[i].children[j]].parent == i)
  }

  /** Every slide out of node i's board is the board of one of i's children in a2. */
  ghost predicate Covers(w: nat, a: seq<TreeNode>, a2: seq<TreeNode>, i: nat)
    requires Grown(a, a2, i)
  {
    forall c :: IsSlide(w, a[i].board, c) ==>
      exists j :: 0 <= j < |a2[i].children| && a2[a2[i].children[j]].board == c
  }

  lemma ExpandGrown(w: nat, a: seq<TreeNode>, initial: seq<int>, i: nat, orders: seq<int>, a2: seq<TreeNode>)
    requires WellFormed(w, a, initial) && i < |a| && |orders| == 4
    requires a2 == Expand(w, a, i, MoveOrder, orders)
    ensures WellFormed(w, a2, initial) && Grown(a, a2, i) && Covers(w, a, a2, i)
  {
    ExpandWellFormed(w, a, initial, i, orders);
    assert i < |a2|;
    assert IsBoard(w, a[i].board);
    SlidesOfMoveOrder(w, a[i].board);
    forall c | IsSlide(w, a[i].board, c)
      ensures exists j :: 0 <= j < |a2[i].children| && a2[a2[i].children[j]].board == c
    {
      ExpandCoversSlides(w, a, i, MoveOrder, orders, a2, c);
    }
  }

  /** The entries after an expansion: the rest of the open list, still valid, and the pushed children. */
  lemma ExpandKeepsEntries(w: nat, final: seq<int>, a: seq<TreeNode>, open: seq<Entry>, k: nat,
                           a2: seq<TreeNode>, closed2: set<seq<int>>, p: seq<Entry>)
    requires w > 0 && EntriesOk(w, a, final, open) && k < |open| && Grown(a, a2, open[k].node)
    requires p == Pushed(w, a2, final, closed2, a2[open[k].node].children, open[k].g + 1)
    ensures EntriesOk(w, a2, final, RemoveAt(open, k) + p)
  {
    var e := open[k];
    assert e in open;
    var i := e.node;
    PushedFacts(w, a2, final, closed2, a2[i].children, e.g + 1);
    EntryFrame(w, a, a2, final, e);
    forall x | x in RemoveAt(open, k) + p ensures EntryOk(w, a2, final, x) {
      if x in RemoveAt(open, k) {
        assert x in open;
        EntryFrame(w, a, a2, final, x);
      } else {
        assert x in p;
        var j :| 0 <= j < |a2[i].children| && a2[i].children[j] == x.node;
        assert a2[x.node].parent == i;
        assert Depth(a2, x.node) == Depth(a2, i) + 1;
      }
    }
  }

  /** Every board the moves produce from the expanded board is held by one of its children. */
  lemma ExpandCoversSlides(w: nat, a: seq<TreeNode>, i: nat, moves: seq<Move>, orders: seq<int>, a2: seq<TreeNode>,
                           c: seq<int>)
    requires w > 0 && i < |a| && |a[i].board| == w * w && 0 in a[i].board && |orders| == |moves|
    requires a2 == Expand(w, a, i, moves, orders)
    requires c in SlidesOf(w, a[i].board, moves)
    ensures exists j :: 0 <= j < |a2[i].children| && a2[i].children[j] < |a2| && a2[a2[i].children[j]].board == c
  {
    var b := a[i].board;
    var m :| 0 <= m < |SlidesOf(w, b, moves)| && SlidesOf(w, b, moves)[m] == c;
    ExpandChild(w, a, i, moves, orders, a2, m);
    var j := |a[i].children| + m;
    assert 0 <= j < |a2[i].children| && a2[i].children[j] < |a2| && a2[a2[i].children[j]].board == c;
  }

  /** The m-th board the moves produce sits in the m-th new child of node i. */
  lemma ExpandChild(w: nat, a: seq<TreeNode>, i: nat, moves: seq<Move>, orders: seq<int>, a2: seq<TreeNode>, m: nat)
    requires w > 0 && i < |a| && |a[i].board| == w * w && 0 in a[i].board && |orders| == |moves|
    requires a2 == Expand(w, a, i, moves, orders)
    requires m < |SlidesOf(w, a[i].board, moves)|
    ensures var j := |a[i].children| + m;
      j < |a2[i].children| && a2[i].children[j] == |a| + m < |a2|
      && a2[|a| + m].board == SlidesOf(w, a[i].board, moves)[m]
  {
    var j := |a[i].children| + m;
    var added := Range(|a|, |a2|);
    assert a2[i].children == a[i].children + added;
    assert a2[i].children[j] == added[m] == |a| + m;
  }

  /** After the child loop every board that was closed or waiting is still closed or waiting. */
  lemma ExpandKeepsSeen(a: seq<TreeNode>, open: seq<Entry>, closed: set<seq<int>>, k: nat,
                        a2: seq<TreeNode>, p: seq<Entry>)
    requires k < |open|
    requires forall x :: x in open ==> x.node < |a|
    requires Grown(a, a2, open[k].node)
    ensures closed + OpenBoards(a, open) <= closed + {a[open[k].node].board} + OpenBoards(a2, RemoveAt(open, k) + p)
  {
    var rest := RemoveAt(open, k);
    OpenBoardsPop(a, open, k);
    assert forall x :: x in rest ==> x.node < |a| by {
      forall x | x in rest ensures x.node < |a| { assert x in open; }
    }
    OpenBoardsFrame(a, a2, rest);
    OpenBoardsAppend(a2, rest, p);
  }

  /** After the child loop the board of every child of the expanded node is closed or waiting. */
  lemma ExpandKeepsChildren(w: nat, final: seq<int>, a: seq<TreeNode>, open: seq<Entry>,
                            closed2: set<seq<int>>, k: nat, a2: seq<TreeNode>, p: seq<Entry>)
    requires w > 0 && k < |open|
    requires Grown(a, a2, open[k].node)
    requires p == Pushed(w, a2, final, closed2, a2[open[k].node].children, open[k].g + 1)
    ensures forall j :: 0 <= j < |a2[open[k].node].children| ==>
      a2[a2[open[k].node].children[j]].board in closed2 + OpenBoards(a2, RemoveAt(open, k) + p)
  {
    var kids := a2[open[k].node].children;
    PushedFacts(w, a2, final, closed2, kids, open[k].g + 1);
    OpenBoardsAppend(a2, RemoveAt(open, k), p);
  }

  /** The slides out of the expanded board are closed or pushed after the child loop. */
  lemma ExpandKeepsClosure(w: nat, final: seq<int>, a: seq<TreeNode>, open: seq<Entry>,
                           closed: set<seq<int>>, k: nat, a2: seq<TreeNode>, p: seq<Entry>)
    requires w > 0 && k < |open|
    requires forall x :: x in open ==> x.node < |a|
    requires Closure(w, closed, closed + OpenBoards(a, open))
    requires Grown(a, a2, open[k].node) && Covers(w, a, a2, open[k].node)
    requires p == Pushed(w, a2, final, closed + {a[open[k].node].board}, a2[open[k].node].children, open[k].g + 1)
    ensures Closure(w, closed + {a[open[k].node].board},
                    closed + {a[open[k].node].board} + OpenBoards(a2, RemoveAt(open, k) + p))
  {
    var i := open[k].node;
    var b := a[i].board;
    var seen2 := closed + {b} + OpenBoards(a2, RemoveAt(open, k) + p);
    ExpandKeepsSeen(a, open, closed, k, a2, p);
    ExpandKeepsChildren(w, final, a, open, closed + {b}, k, a2, p);
    ClosureWeaken(w, closed, closed + OpenBoards(a, open), seen2);
    forall c | IsSlide(w, b, c) ensures c in seen2 {
      var j :| 0 <= j < |a2[i].children| && a2[a2[i].children[j]].board == c;
    }
    ClosureAdd(w, closed, seen2, b);
  }

  /**
   * Expanding the popped node: its board is closed, the four moves add its
   * children, and every child not closed is pushed with g + 1. The invariant
   * holds again afterwards.
   */
  lemma ExpandKeepsFrontier(w: nat, initial: seq<int>, final: seq<int>, a: seq<TreeNode>,
                            open: seq<Entry>, closed: set<seq<int>>, k: nat,
                            a2: seq<TreeNode>, open2: seq<Entry>)
    requires Frontier(w, initial, final, a, open, closed)
    requires k < |open| && open[k].node < |a|
    requires a[open[k].node].board != final
    requires WellFormed(w, a2, initial) && Grown(a, a2, open[k].node) && Covers(w, a, a2, open[k].node)
    requires open2 == RemoveAt(open, k)
      + Pushed(w, a2, final, closed + {a[open[k].node].board}, a2[open[k].node].children, open[k].g + 1)
    ensures Frontier(w, initial, final, a2, open2, closed + {a[open[k].node].board})
  {
    var i := open[k].node;
    var b := a[i].board;
    var closed2 := closed + {b};
    var p := Pushed(w, a2, final, closed2, a2[i].children, open[k].g + 1);
    assert IsBoard(w, b);
    ExpandKeepsEntries(w, final, a, open, k, a2, closed2, p);
    assert forall x :: x in open ==> x.node < |a|;
    ExpandKeepsSeen(a, open, closed, k, a2, p);
    ExpandKeepsClosure(w, final, a, open, closed, k, a2, p);
    assert AllLegal(w, closed2);
  }

  /** The whole expansion step, from the arena and open list before it to those after it. */
  lemma ExpandPreserves(w: nat, initial: seq<int>, final: seq<int>, a: seq<TreeNode>, open: seq<Entry>,
                        closed: set<seq<int>>, k: nat, orders: seq<int>)
    requires Frontier(w, initial, final, a, open, closed)
    requires k < |open| && open[k].node < |a| && a[open[k].node].board != final && |orders| == 4
    ensures IsBoard(w, a[open[k].node].board)
    ensures var a2 := Expand(w, a, open[k].node, MoveOrder, orders);
      && Grown(a, a2, open[k].node) && Covers(w, a, a2, open[k].node)
      && Frontier(w, initial, final, a2,
                  RemoveAt(open, k) + Pushed(w, a2, final, closed + {a[open[k].node].board},
                                             a2[open[k].node].children, open[k].g + 1),
                  closed + {a[open[k].node].board})
  {
    var i := open[k].node;
    assert IsBoard(w, a[i].board);
    var a2 := Expand(w, a, i, MoveOrder, orders);
    ExpandGrown(w, a, initial, i, orders, a2);
    var open2 := RemoveAt(open, k) + Pushed(w, a2, final, closed + {a[i].board}, a2[i].children, open[k].g + 1);
    ExpandKeepsFrontier(w, initial, final, a, open, closed, k, a2, open2);
  }

  /**
   * The expansion of the popped node k whose board is neither closed nor the
   * goal: the four moves, numbered by `orders` in move order, add its
   * children to the arena, and every child whose board is not closed (after
   * closing the expanded board) is pushed with g + 1 and its Manhattan
   * distance. The loop invariant carries over to the grown closed set, and
   * so does the A* invariant when (`least`) the popped cost is the least
   * over all move paths to the popped board.
   */
  method ExpandNode(w: nat, initial: seq<int>, final: seq<int>, arena: seq<TreeNode>, open: seq<Entry>,
                    closed: set<seq<int>>, k: nat, orders: seq<int>, ghost least: bool)
    returns (arena2: seq<TreeNode>, open2: seq<Entry>)
    requires Frontier(w, initial, final, arena, open, closed)
    requires k < |open| && open[k].node < |arena| && arena[open[k].node].board != final && |orders| == 4
    requires least ==> Optimal(w, initial, arena, open, closed) && arena[open[k].node].board !in closed
    requires least ==> forall p :: Solves(w, p, initial, arena[open[k].node].board) ==> open[k].g <= |p| - 1
    ensures Frontier(w, initial, final, arena2, open2, closed + {arena[open[k].node].board})
    ensures least ==> Optimal(w, initial, arena2, open2, closed + {arena[open[k].node].board})
  {
    ExpandPreserves(w, initial, final, arena, open, closed, k, orders);
    arena2 := Expand(w, arena, open[k].node, MoveOrder, orders);
    open2 := PushChildren(w, arena2, final, closed + {arena[open[k].node].board}, RemoveAt(open, k),
                          arena2[open[k].node].children, open[k].g + 1);
    if least {
      assert open[k] in open;
      ExpandKeepsOptimal(w, initial, final, arena, open, closed, k, arena2);
    }
  }

  /** Before the loop: the arena holds only the start node and the open list only its entry. */
  lemma StartFrontier(w: nat, initial: seq<int>, final: seq<int>, startOrder: int, h: int)
    requires IsBoard(w, initial) && h == Manhattan(w, initial, final)
    ensures Frontier(w, initial, final, [TreeNode(initial, -1, startOrder, [])], [Entry(0, startOrder, 0, h)], {})
  {
    var arena := [TreeNode(initial, -1, startOrder, [])];
    var open := [Entry(0, startOrder, 0, h)];
    assert Chain(arena, 0) == [0];
    assert OpenBoards(arena, open) == {initial} by {
      assert open[0] in open;
    }
  }

  // ---------------------------------------------------------------------------
  // Optimality under an f-ordered open list (A*)
  // ---------------------------------------------------------------------------

  /** Some open entry holds board c with cost at most n. */
  ghost predicate Waiting(a: seq<TreeNode>, open: seq<Entry>, c: seq<int>, n: int) {
    exists e :: e in open && e.node < |a| && a[e.node].board == c && e.g <= n
  }

  /**
   * The A* invariant: the start is closed or waiting with cost 0, and for
   * every closed board reached by some move path p, each board one slide
   * away is closed or waiting with cost at most |p|.
   */
  ghost predicate Optimal(w: nat, initial: seq<int>, a: seq<TreeNode>, open: seq<Entry>, closed: set<seq<int>>) {
    && (initial !in closed ==> Waiting(a, open, initial, 0))
    && (forall b, p, c :: b in closed && Solves(w, p, initial, b) && IsSlide(w, b, c) && c !in closed ==>
          Waiting(a, open, c, |p|))
  }

  /** Entry k has the least f = g + h on the open list. */
  predicate LeastF(open: seq<Entry>, k: nat)
    requires k < |open|
  {
    forall j :: 0 <= j < |open| ==> open[k].g + open[k].h <= open[j].g + open[j].h
  }

  /** The comparator ranks an entry of larger f below one of smaller f. */
  ghost predicate RanksByF(below: (Entry, Entry) -> bool) {
    forall x: Entry, y: Entry :: x.g + x.h > y.g + y.h ==> below(x, y)
  }

  /** Under a comparator that ranks by f, the top of the open list has the least f. */
  lemma TopLeastF(open: seq<Entry>, below: (Entry, Entry) -> bool, k: nat)
    requires RanksByF(below) && k < |open|
    requires forall j :: 0 <= j < |open| ==> !below(open[k], open[j])
    ensures LeastF(open, k)
  {
    forall j | 0 <= j < |open| ensures open[k].g + open[k].h <= open[j].g + open[j].h {
      assert !below(open[k], open[j]);
    }
  }

  /**
   * Every move path from the start to a board not yet closed passes a board
   * waiting on the open list with cost at most its position on the path.
   */
  lemma OnPath(w: nat, initial: seq<int>, a: seq<TreeNode>, open: seq<Entry>, closed: set<seq<int>>,
               p: seq<seq<int>>) returns (i: nat)
    requires Optimal(w, initial, a, open, closed)
    requires IsMovePath(w, p) && p[0] == initial && Last(p) !in closed
    ensures i < |p| && Waiting(a, open, p[i], i)
  {
    i := |p| - 1;
    while i > 0 && p[i - 1] !in closed
      invariant i < |p| && p[i] !in closed
    {
      i := i - 1;
    }
    if i > 0 {
      MovePathPrefix(w, p, i);
      assert Solves(w, p[..i], initial, p[i - 1]) && IsSlide(w, p[i - 1], p[i]);
    }
  }

  /**
   * The first pop of a board carries its least cost: when the popped entry
   * has the least f and its board is not closed, no move path from the start
   * reaches that board in fewer than g slides. This is where the consistency
   * of the Manhattan heuristic enters.
   */
  lemma PopIsShortest(w: nat, initial: seq<int>, final: seq<int>, a: seq<TreeNode>, open: seq<Entry>,
                      closed: set<seq<int>>, k: nat, p: seq<seq<int>>)
    requires Frontier(w, initial, final, a, open, closed) && Optimal(w, initial, a, open, closed)
    requires k < |open| && LeastF(open, k) && open[k].node < |a|
    requires a[open[k].node].board !in closed && Solves(w, p, initial, a[open[k].node].board)
    ensures open[k].g <= |p| - 1
  {
    var i := OnPath(w, initial, a, open, closed, p);
    var x :| x in open && x.node < |a| && a[x.node].board == p[i] && x.g <= i;
    var j :| 0 <= j < |open| && open[j] == x;
    assert open[k] in open;
    assert EntryOk(w, a, final, x) && EntryOk(w, a, final, open[k]);
    assert IsBoard(w, p[i]);
    MovePathFrom(w, p, i);
    ManhattanAlongPath(w, p[i..], final);
  }

  /** A waiting board whose entry is not the one removed stays waiting in a grown arena. */
  lemma WaitingSurvives(a: seq<TreeNode>, open: seq<Entry>, k: nat, a2: seq<TreeNode>, extra: seq<Entry>,
                        c: seq<int>, n: int)
    requires Waiting(a, open, c, n) && k < |open| && open[k].node < |a| && a[open[k].node].board != c
    requires |a| <= |a2| && forall j :: 0 <= j < |a| ==> a2[j].board == a[j].board
    ensures Waiting(a2, RemoveAt(open, k) + extra, c, n)
  {
    var e :| e in open && e.node < |a| && a[e.node].board == c && e.g <= n;
    var j :| 0 <= j < |open| && open[j] == e;
    assert j != k;
    assert e in RemoveAt(open, k) + extra;
  }

  /** Discarding a popped entry whose board is closed keeps the invariant. */
  lemma DiscardKeepsOptimal(w: nat, initial: seq<int>, a: seq<TreeNode>, open: seq<Entry>,
                            closed: set<seq<int>>, k: nat)
    requires Optimal(w, initial, a, open, closed)
    requires k < |open| && open[k].node < |a| && a[open[k].node].board in closed
    ensures Optimal(w, initial, a, RemoveAt(open, k), closed)
  {
    var rest := RemoveAt(open, k);
    assert rest + [] == rest;
    if initial !in closed {
      WaitingSurvives(a, open, k, a, [], initial, 0);
    }
    forall b, p, c | b in closed && Solves(w, p, initial, b) && IsSlide(w, b, c) && c !in closed
      ensures Waiting(a, rest, c, |p|)
    {
      WaitingSurvives(a, open, k, a, [], c, |p|);
    }
  }

  /** Every board one slide from the expanded board is closed or pushed with g + 1. */
  lemma ExpandPushesSlides(w: nat, final: seq<int>, a: seq<TreeNode>, open: seq<Entry>, closed2: set<seq<int>>,
                           k: nat, a2: seq<TreeNode>, c: seq<int>)
    requires w > 0 && k < |open| && Grown(a, a2, open[k].node) && Covers(w, a, a2, open[k].node)
    requires IsSlide(w, a[open[k].node].board, c) && c !in closed2
    ensures Waiting(a2, RemoveAt(open, k) + Pushed(w, a2, final, closed2, a2[open[k].node].children, open[k].g + 1),
                    c, open[k].g + 1)
  {
    var i := open[k].node;
    var kids := a2[i].children;
    var pushed := Pushed(w, a2, final, closed2, kids, open[k].g + 1);
    PushedFacts(w, a2, final, closed2, kids, open[k].g + 1);
    var j :| 0 <= j < |kids| && a2[kids[j]].board == c;
    assert c in OpenBoards(a2, pushed);
    var e :| e in pushed && e.node < |a2| && a2[e.node].board == c;
    assert e in RemoveAt(open, k) + pushed;
  }

  /**
   * Expanding the popped board b, whose cost is least among the move paths
   * reaching it, keeps the invariant once b is closed.
   */
  lemma ExpandKeepsOptimal(w: nat, initial: seq<int>, final: seq<int>, a: seq<TreeNode>, open: seq<Entry>,
                           closed: set<seq<int>>, k: nat, a2: seq<TreeNode>)
    requires w > 0 && Optimal(w, initial, a, open, closed)
    requires k < |open| && open[k].node < |a| && a[open[k].node].board !in closed
    requires forall p :: Solves(w, p, initial, a[open[k].node].board) ==> open[k].g <= |p| - 1
    requires Grown(a, a2, open[k].node) && Covers(w, a, a2, open[k].node)
    ensures Optimal(w, initial, a2,
                    RemoveAt(open, k) + Pushed(w, a2, final, closed + {a[open[k].node].board},
                                               a2[open[k].node].children, open[k].g + 1),
                    closed + {a[open[k].node].board})
  {
    var i := open[k].node;
    var b := a[i].board;
    var closed2 := closed + {b};
    var pushed := Pushed(w, a2, final, closed2, a2[i].children, open[k].g + 1);
    var open2 := RemoveAt(open, k) + pushed;
    if initial !in closed2 {
      WaitingSurvives(a, open, k, a2, pushed, initial, 0);
    }
    forall b', p, c | b' in closed2 && Solves(w, p, initial, b') && IsSlide(w, b', c) && c !in closed2
      ensures Waiting(a2, open2, c, |p|)
    {
      if b' == b {
        ExpandPushesSlides(w, final, a, open, closed2, k, a2, c);
      } else {
        WaitingSurvives(a, open, k, a2, pushed, c, |p|);
      }
    }
  }

  /** Before the loop only the start entry waits, with cost 0, and nothing is closed. */
  lemma StartOptimal(w: nat, initial: seq<int>, startOrder: int, h: int)
    ensures Optimal(w, initial, [TreeNode(initial, -1, startOrder, [])], [Entry(0, startOrder, 0, h)], {})
  {
    var open := [Entry(0, startOrder, 0, h)];
    assert open[0] in open;
  }

  /**
   * The path traced from a popped goal entry of least f is no longer than any
   * move path from the start to the goal.
   */
  lemma FoundShortest(w: nat, initial: seq<int>, final: seq<int>, a: seq<TreeNode>, open: seq<Entry>,
                      closed: set<seq<int>>, k: nat, path: seq<seq<int>>)
    requires Frontier(w, initial, final, a, open, closed) && Optimal(w, initial, a, open, closed)
    requires k < |open| && LeastF(open, k) && open[k].node < |a|
    requires a[open[k].node].board == final && final !in closed
    requires path == BoardsOf(a, Chain(a, open[k].node))
    ensures forall p {:trigger Solves(w, p, initial, final)} :: Solves(w, p, initial, final) ==> |path| <= |p|
  {
    assert open[k] in open;
    ChainLength(a, open[k].node);
    forall p | Solves(w, p, initial, final) ensures |path| <= |p| {
      PopIsShortest(w, initial, final, a, open, closed, k, p);
    }
  }

  /**
   * The statistics kept alongside the loop: the closed boards are exactly the
   * expanded ones, each expanded once and the start first; nodesCount and
   * heuristicSum count and sum over them, and the insertion counter has moved
   * by four (five when `bump` is set) per expansion.
   */
  ghost predicate Books(w: nat, initial: seq<int>, final: seq<int>, bump: bool, closed: set<seq<int>>,
                        expanded: seq<seq<int>>, nodesCount: nat, heuristicSum: int, counter: int)
  {
    && w > 0
    && (forall b :: b in closed <==> b in expanded)
    && (forall p, q :: 0 <= p < q < |expanded| ==> expanded[p] != expanded[q])
    && (|expanded| > 0 ==> expanded[0] == initial)
    && nodesCount == |expanded| && heuristicSum == HeuristicTotal(w, expanded, final)
    && counter == 1 + 4 * nodesCount + (if bump then nodesCount else 0)
  }

  /** Appending the expanded board to the list of expanded boards adds its h to the total. */
  lemma HeuristicTotalAppend(w: nat, expanded: seq<seq<int>>, board: seq<int>, final: seq<int>)
    requires w > 0
    ensures HeuristicTotal(w, expanded + [board], final) == HeuristicTotal(w, expanded, final) + Manhattan(w, board, final)
  {
    var expanded2 := expanded + [board];
    assert expanded2[..|expanded2| - 1] == expanded;
  }

  /** Appending a board that is not closed keeps the expanded boards distinct and in step with the closed set. */
  lemma ExpandedAppend(initial: seq<int>, closed: set<seq<int>>, expanded: seq<seq<int>>, board: seq<int>)
    requires forall b :: b in closed <==> b in expanded
    requires forall p, q :: 0 <= p < q < |expanded| ==> expanded[p] != expanded[q]
    requires |expanded| > 0 ==> expanded[0] == initial
    requires board !in closed && (|expanded| == 0 ==> board == initial)
    ensures forall b :: b in closed + {board} <==> b in expanded + [board]
    ensures forall p, q :: 0 <= p < q < |expanded + [board]| ==> (expanded + [board])[p] != (expanded + [board])[q]
    ensures (expanded + [board])[0] == initial
  {
    var expanded2 := expanded + [board];
    forall p, q | 0 <= p < q < |expanded2| ensures expanded2[p] != expanded2[q] {
      if q == |expanded| {
        assert expanded[p] in expanded;
      }
    }
  }

  /** Expanding a board that is not closed adds it to the statistics. */
  lemma BooksExpand(w: nat, initial: seq<int>, final: seq<int>, bump: bool, closed: set<seq<int>>,
                    expanded: seq<seq<int>>, nodesCount: nat, heuristicSum: int, counter: int, board: seq<int>)
    requires Books(w, initial, final, bump, closed, expanded, nodesCount, heuristicSum, counter)
    requires board !in closed && (|expanded| == 0 ==> board == initial)
    ensures Books(w, initial, final, bump, closed + {board}, expanded + [board], nodesCount + 1,
                  heuristicSum + Manhattan(w, board, final), counter + (if bump then 5 else 4))
  {
    HeuristicTotalAppend(w, expanded, board, final);
    ExpandedAppend(initial, closed, expanded, board);
  }

  /**
   * One round of the loop after the top entry k has been popped, when its
   * board is not the goal or is already closed: discard it if its board is
   * closed, otherwise close and expand it. When (`least`) the popped entry
   * has the least f, the A* invariant is kept.
   */
  method Round(w: nat, initial: seq<int>, final: seq<int>, bump: bool,
               arena: seq<TreeNode>, open: seq<Entry>, closed: set<seq<int>>, k: nat,
               ghost expanded: seq<seq<int>>, nodesCount: nat, heuristicSum: int, counter: int, ghost least: bool)
    returns (arena2: seq<TreeNode>, open2: seq<Entry>, closed2: set<seq<int>>,
             ghost expanded2: seq<seq<int>>, nodesCount2: nat, heuristicSum2: int, counter2: int)
    requires Frontier(w, initial, final, arena, open, closed)
    requires Books(w, initial, final, bump, closed, expanded, nodesCount, heuristicSum, counter)
    requires k < |open| && open[k].node < |arena|
    requires arena[open[k].node].board in closed || arena[open[k].node].board != final
    requires |expanded| == 0 ==> arena[open[k].node].board == initial
    requires least ==> Optimal(w, initial, arena, open, closed) && LeastF(open, k)
    ensures Frontier(w, initial, final, arena2, open2, closed2)
    ensures least ==> Optimal(w, initial, arena2, open2, closed2)
    ensures Books(w, initial, final, bump, closed2, expanded2, nodesCount2, heuristicSum2, counter2)
    ensures |expanded2| > 0
    ensures (closed2 == closed && |open2| < |open|) || AllBoards(w) - closed2 < AllBoards(w) - closed
    ensures arena[open[k].node].board in closed ==>
      && arena2 == arena && open2 == RemoveAt(open, k) && closed2 == closed
      && nodesCount2 == nodesCount && heuristicSum2 == heuristicSum && counter2 == counter
    ensures arena[open[k].node].board !in closed ==>
      closed2 == closed + {arena[open[k].node].board} && nodesCount2 == nodesCount + 1
  {
    var e := open[k];
    var board := arena[e.node].board;
    if board in closed {
      DiscardKeepsFrontier(w, initial, final, arena, open, closed, k);
      if least {
        DiscardKeepsOptimal(w, initial, arena, open, closed, k);
      }
      arena2, open2, closed2 := arena, RemoveAt(open, k), closed;
      expanded2, nodesCount2, heuristicSum2, counter2 := expanded, nodesCount, heuristicSum, counter;
    } else {
      assert IsBoard(w, board);
      BoardInUniverse(w, board);
      assert e in open;
      BooksExpand(w, initial, final, bump, closed, expanded, nodesCount, heuristicSum, counter, board);
      nodesCount2 := nodesCount + 1;
      heuristicSum2 := heuristicSum + e.h;
      expanded2 := expanded + [board];
      counter2 := counter;
      if bump {
        counter2 := counter2 + 1;
      }
      if least {
        forall p | Solves(w, p, initial, board) ensures e.g <= |p| - 1 {
          PopIsShortest(w, initial, final, arena, open, closed, k, p);
        }
      }
      arena2, open2 := ExpandNode(w, initial, final, arena, open, closed, k,
                                  [counter2, counter2 + 1, counter2 + 2, counter2 + 3], least);
      counter2 := counter2 + 4;
      closed2 := closed + {board};
      assert AllBoards(w) - closed2 < AllBoards(w) - closed;
    }
  }

  /** The path traced back from a goal node runs from the start board to the goal by slides. */
  lemma FoundPath(w: nat, initial: seq<int>, final: seq<int>, arena: seq<TreeNode>, i: nat, path: seq<seq<int>>)
    requires WellFormed(w, arena, initial) && i < |arena| && arena[i].board == final
    requires path == BoardsOf(arena, Chain(arena, i))
    ensures path != [] && path[0] == initial && Last(path) == final && IsMovePath(w, path)
    ensures |arena| == 1 ==> path == [initial]
  {
    ChainIsMovePath(w, arena, initial, i);
    if |arena| == 1 {
      assert Chain(arena, i) == [0];
    }
  }

  /**
   * The search loop: pop the top entry; return the traced path if its board
   * is the goal and not yet closed; otherwise run one round. An empty path
   * comes back when the open list runs dry. Under a comparator that ranks
   * by f the path found is a shortest one.
   */
  method Explore(w: nat, initial: seq<int>, final: seq<int>, below: (Entry, Entry) -> bool, bump: bool,
                 arena0: seq<TreeNode>, open0: seq<Entry>, closed0: set<seq<int>>,
                 ghost expanded0: seq<seq<int>>, nodesCount0: nat, heuristicSum0: int, counter0: int)
    returns (path: seq<seq<int>>, nodesCount: nat, heuristicSum: int,
             ghost expanded: seq<seq<int>>, ghost insertionCounter: int)
    requires StrictOrder(below)
    requires Frontier(w, initial, final, arena0, open0, closed0)
    requires Books(w, initial, final, bump, closed0, expanded0, nodesCount0, heuristicSum0, counter0)
    requires |expanded0| == 0 ==> |arena0| == 1 && |open0| == 1 && open0[0].node == 0
    requires RanksByF(below) ==> Optimal(w, initial, arena0, open0, closed0)
    ensures path != [] ==> path[0] == initial && Last(path) == final && IsMovePath(w, path)
    ensures RanksByF(below) && path != [] ==>
      forall p {:trigger Solves(w, p, initial, final)} :: Solves(w, p, initial, final) ==> |path| <= |p|
    ensures path == [] ==> forall p :: IsMovePath(w, p) && p[0] == initial ==> Last(p) != final
    ensures initial == final ==> path == [initial] && nodesCount == 0
    ensures nodesCount == |expanded| && heuristicSum == HeuristicTotal(w, expanded, final)
    ensures forall p, q :: 0 <= p < q < |expanded| ==> expanded[p] != expanded[q]
    ensures final !in expanded && (|expanded| > 0 ==> expanded[0] == initial)
    ensures insertionCounter == 1 + 4 * nodesCount + (if bump then nodesCount else 0)
  {
    var arena, open, closed, counter := arena0, open0, closed0, counter0;
    expanded, nodesCount, heuristicSum := expanded0, nodesCount0, heuristicSum0;
    while |open| > 0
      invariant Frontier(w, initial, final, arena, open, closed)
      invariant Books(w, initial, final, bump, closed, expanded, nodesCount, heuristicSum, counter)
      invariant |expanded| == 0 ==> |arena| == 1 && |open| == 1 && open[0].node == 0
      invariant RanksByF(below) ==> Optimal(w, initial, arena, open, closed)
      decreases AllBoards(w) - closed, |open|
    {
      var k := Top(open, below);
      var e := open[k];
      assert e in open;
      ghost var least := RanksByF(below);
      if least {
        TopLeastF(open, below, k);
      }
      var current := arena[e.node];
      if current.board !in closed && current.board == final {
        var chain := TracePath(arena, e.node);
        path := BoardsOf(arena, chain);
        FoundPath(w, initial, final, arena, e.node, path);
        if least {
          FoundShortest(w, initial, final, arena, open, closed, k, path);
        }
        insertionCounter := counter;
        return;
      }
      arena, open, closed, expanded, nodesCount, heuristicSum, counter :=
        Round(w, initial, final, bump, arena, open, closed, k, expanded, nodesCount, heuristicSum, counter, least);
    }
    path := [];
    insertionCounter := counter;
    ExhaustedMeansUnreachable(w, initial, final, arena, closed);
  }

  /**
   * One best-first search from `initial` towards `final`.
   *
   * The start node gets insertion order `startOrder` and its heuristic is
   * recorded as startHeuristic before the loop. Each round pops the top of the
   * open list. A node whose board is already closed is discarded. Otherwise
   * its board is closed and, if it is the goal, its parent chain is returned.
   * Otherwise nodesCount and heuristicSum grow by one and by the node's h, the
   * counter is bumped once more when `bump` is set, the four moves take the
   * next four insertion orders, and every child whose board is not closed is
   * pushed with g + 1 and its own h. An empty path comes back only when the
   * open list is exhausted. Under a comparator that ranks by f, as A*'s
   * does, the path is a shortest one.
   *
   * `expanded` lists the boards expanded, in order (the source keeps no such
   * list) and `insertionCounter` is the final value of the local counter.
   */
  method Search(w: nat, initial: seq<int>, final: seq<int>, below: (Entry, Entry) -> bool,
                startOrder: int, bump: bool)
    returns (path: seq<seq<int>>, nodesCount: nat, heuristicSum: int, startHeuristic: int,
             ghost expanded: seq<seq<int>>, ghost insertionCounter: int)
    requires IsBoard(w, initial) && IsBoard(w, final) && StrictOrder(below)
    ensures startHeuristic == Manhattan(w, initial, final)
    ensures path != [] ==> path[0] == initial && Last(path) == final && IsMovePath(w, path)
    ensures RanksByF(below) && path != [] ==>
      forall p {:trigger Solves(w, p, initial, final)} :: Solves(w, p, initial, final) ==> |path| <= |p|
    ensures path == [] ==> forall p :: IsMovePath(w, p) && p[0] == initial ==> Last(p) != final
    ensures initial == final ==> path == [initial] && nodesCount == 0
    ensures nodesCount == |expanded| && heuristicSum == HeuristicTotal(w, expanded, final)
    ensures forall p, q :: 0 <= p < q < |expanded| ==> expanded[p] != expanded[q]
    ensures final !in expanded && (|expanded| > 0 ==> expanded[0] == initial)
    ensures insertionCounter == 1 + 4 * nodesCount + (if bump then nodesCount else 0)
  {
    var counter := 0;
    var arena := [TreeNode(initial, -1, startOrder, [])];
    counter := 1;
    startHeuristic := ManhattanDistance(w, initial, final);
    var open := [Entry(0, startOrder, 0, startHeuristic)];
    StartFrontier(w, initial, final, startOrder, startHeuristic);
    StartOptimal(w, initial, startOrder, startHeuristic);
    path, nodesCount, heuristicSum, expanded, insertionCounter :=
      Explore(w, initial, final, below, bump, arena, open, {}, [], 0, 0, counter);
  }
}
