/**
 * Breadth-first search (bfs.cpp, class BFS) over the 8-puzzle.
 *
 * The frontier object BFSNode is declared in a header that is not part of
 * this model; it is taken to be a FIFO queue of nodes together with a set of
 * visited boards, seeded with the start node, whose board is marked visited.
 * Each dequeued node is expanded by the four moves and counted; then its
 * children are scanned in move order: a child holding the goal board ends the
 * search at once (before the visited test), and any other child whose board
 * is not yet visited is queued and its board marked visited. The dequeued
 * node itself is never compared with the goal.
 */
module Bfs {
  import opened Puzzle
  import opened SearchTree
  import BestFirst

  /** Every index names a node of the arena. */
  predicate InArena(a: seq<TreeNode>, ns: seq<nat>) {
    forall j :: 0 <= j < |ns| ==> ns[j] < |a|
  }

  function BoardSet(a: seq<TreeNode>, ns: seq<nat>): set<seq<int>>
    requires InArena(a, ns)
  {
    set j | 0 <= j < |ns| :: a[ns[j]].board
  }

  predicate DistinctBoards(a: seq<TreeNode>, ns: seq<nat>)
    requires InArena(a, ns)
  {
    forall p, q :: 0 <= p < q < |ns| ==> a[ns[p]].board != a[ns[q]].board
  }

  // ---------------------------------------------------------------------------
  // The child loop
  // ---------------------------------------------------------------------------

  /** The boards of a concatenation are the boards of its parts. */
  lemma BoardSetSplit(a: seq<TreeNode>, s: seq<nat>, t: seq<nat>)
    requires InArena(a, s) && InArena(a, t)
    ensures InArena(a, s + t) && BoardSet(a, s + t) == BoardSet(a, s) + BoardSet(a, t)
  {
    var st := s + t;
    forall x | x in BoardSet(a, st) ensures x in BoardSet(a, s) + BoardSet(a, t) {
      var j :| 0 <= j < |st| && a[st[j]].board == x;
      if j < |s| {
        assert st[j] == s[j];
      } else {
        assert st[j] == t[j - |s|];
      }
    }
    forall x | x in BoardSet(a, s) ensures x in BoardSet(a, st) {
      var j :| 0 <= j < |s| && a[s[j]].board == x;
      assert st[j] == s[j];
    }
    forall x | x in BoardSet(a, t) ensures x in BoardSet(a, st) {
      var j :| 0 <= j < |t| && a[t[j]].board == x;
      assert st[|s| + j] == t[j];
    }
  }

  lemma BoardSetSingle(a: seq<TreeNode>, n: nat)
    requires n < |a|
    ensures InArena(a, [n]) && BoardSet(a, [n]) == {a[n].board}
  {
    assert [n][0] == n;
  }

  /** Nodes whose boards are kept keep the board set. */
  lemma BoardSetFrame(a: seq<TreeNode>, a2: seq<TreeNode>, s: seq<nat>)
    requires InArena(a, s) && |a| <= |a2|
    requires forall j :: 0 <= j < |a| ==> a2[j].board == a[j].board
    ensures InArena(a2, s) && BoardSet(a2, s) == BoardSet(a, s)
  {
    assert forall j :: 0 <= j < |s| ==> a2[s[j]].board == a[s[j]].board;
  }

  /**
   * The child loop when no child is the goal: a child whose board is not yet
   * visited is queued and its board marked visited, any other child is
   * dropped. The result pairs the queued children, in order, with the visited
   * set after the loop.
   */
  function Admit(a: seq<TreeNode>, kids: seq<nat>, visited: set<seq<int>>): (r: (seq<nat>, set<seq<int>>))
    requires InArena(a, kids)
    ensures InArena(a, r.0)
    decreases |kids|
  {
    if kids == [] then
      ([], visited)
    else
      var b := a[kids[0]].board;
      if b in visited then
        Admit(a, kids[1..], visited)
      else
        var r := Admit(a, kids[1..], visited + {b});
        ([kids[0]] + r.0, r.1)
  }

  /** After the child loop every child's board is visited. */
  lemma {:induction false} AdmitVisits(a: seq<TreeNode>, kids: seq<nat>, visited: set<seq<int>>)
    requires InArena(a, kids)
    ensures Admit(a, kids, visited).1 == visited + BoardSet(a, kids)
    decreases |kids|
  {
    if kids != [] {
      var b := a[kids[0]].board;
      var tail := kids[1..];
      assert kids == [kids[0]] + tail;
      BoardSetSingle(a, kids[0]);
      BoardSetSplit(a, [kids[0]], tail);
      if b in visited {
        AdmitVisits(a, tail, visited);
      } else {
        AdmitVisits(a, tail, visited + {b});
      }
    }
  }

  /** The queued children are children whose boards were not visited before, one per board. */
  lemma {:induction false} AdmitQueues(a: seq<TreeNode>, kids: seq<nat>, visited: set<seq<int>>)
    requires InArena(a, kids)
    ensures var r := Admit(a, kids, visited);
      && (forall j :: 0 <= j < |r.0| ==> r.0[j] in kids && a[r.0[j]].board !in visited)
      && DistinctBoards(a, r.0)
    decreases |kids|
  {
    if kids != [] {
      var b := a[kids[0]].board;
      var tail := kids[1..];
      if b in visited {
        AdmitQueues(a, tail, visited);
        assert forall x :: x in tail ==> x in kids;
      } else {
        AdmitQueues(a, tail, visited + {b});
        var r := Admit(a, tail, visited + {b});
        var q := [kids[0]] + r.0;
        forall j | 0 <= j < |q| ensures q[j] in kids && a[q[j]].board !in visited {
          if j > 0 {
            assert q[j] == r.0[j - 1];
            assert r.0[j - 1] in tail;
          }
        }
        forall p, p' | 0 <= p < p' < |q| ensures a[q[p]].board != a[q[p']].board {
          assert q[p'] == r.0[p' - 1];
          if p > 0 {
            assert q[p] == r.0[p - 1];
          }
        }
      }
    }
  }

  /** The boards of the queued children are exactly the boards the loop newly marked visited. */
  lemma {:induction false} AdmitAccounts(a: seq<TreeNode>, kids: seq<nat>, visited: set<seq<int>>)
    requires InArena(a, kids)
    ensures BoardSet(a, Admit(a, kids, visited).0) == Admit(a, kids, visited).1 - visited
    decreases |kids|
  {
    if kids != [] {
      var b := a[kids[0]].board;
      var tail := kids[1..];
      if b in visited {
        AdmitAccounts(a, tail, visited);
      } else {
        AdmitAccounts(a, tail, visited + {b});
        AdmitQueues(a, tail, visited + {b});
        AdmitVisits(a, tail, visited + {b});
        var r := Admit(a, tail, visited + {b});
        BoardSetSingle(a, kids[0]);
        BoardSetSplit(a, [kids[0]], r.0);
      }
    }
  }

  /** Both facts about the child loop together. */
  lemma AdmitFacts(a: seq<TreeNode>, kids: seq<nat>, visited: set<seq<int>>)
    requires InArena(a, kids)
    ensures var r := Admit(a, kids, visited);
      && r.1 == visited + BoardSet(a, kids)
      && (forall j :: 0 <= j < |r.0| ==> r.0[j] in kids && a[r.0[j]].board !in visited)
      && DistinctBoards(a, r.0)
      && BoardSet(a, r.0) == r.1 - visited
  {
    AdmitVisits(a, kids, visited);
    AdmitQueues(a, kids, visited);
    AdmitAccounts(a, kids, visited);
  }

  lemma AdmitStep(a: seq<TreeNode>, kids: seq<nat>, t: nat, visited: set<seq<int>>)
    requires InArena(a, kids) && t < |kids|
    ensures var b := a[kids[t]].board;
      Admit(a, kids[t..], visited) ==
        if b in visited then Admit(a, kids[t + 1..], visited)
        else ([kids[t]] + Admit(a, kids[t + 1..], visited + {b}).0, Admit(a, kids[t + 1..], visited + {b}).1)
  {
    assert kids[t..][1..] == kids[t + 1..];
  }

  /**
   * The for loop over the children of the dequeued node. `goal` is the
   * position of the first child holding the goal board, or -1 when there is
   * none, in which case the queue and the visited set are updated as Admit
   * says.
   */
  method ScanChildren(a: seq<TreeNode>, final: seq<int>, kids: seq<nat>, queue: seq<nat>, visited: set<seq<int>>)
    returns (goal: int, queue2: seq<nat>, visited2: set<seq<int>>)
    requires InArena(a, kids)
    ensures goal >= 0 ==> goal < |kids| && a[kids[goal]].board == final
    ensures goal < 0 ==> forall j :: 0 <= j < |kids| ==> a[kids[j]].board != final
    ensures goal < 0 ==> queue2 == queue + Admit(a, kids, visited).0 && visited2 == Admit(a, kids, visited).1
  {
    queue2, visited2 := queue, visited;
    for t := 0 to |kids|
      invariant forall j :: 0 <= j < t ==> a[kids[j]].board != final
      invariant queue2 + Admit(a, kids[t..], visited2).0 == queue + Admit(a, kids, visited).0
      invariant Admit(a, kids[t..], visited2).1 == Admit(a, kids, visited).1
    {
      var b := a[kids[t]].board;
      if b == final {
        return t, queue2, visited2;
      }
      AdmitStep(a, kids, t, visited2);
      if b !in visited2 {
        queue2 := queue2 + [kids[t]];
        visited2 := visited2 + {b};
      }
    }
    assert kids[|kids|..] == [];
    goal := -1;
  }

  // ---------------------------------------------------------------------------
  // The loop invariant
  // ---------------------------------------------------------------------------

  /**
   * The invariant of the BFS loop. `done` holds the boards of the nodes
   * dequeued so far (the source keeps no such set). The arena is well formed;
   * the queued nodes hold distinct boards, none of them dequeued; the visited
   * boards are the dequeued and the queued ones, the start board among them;
   * every slide out of a dequeued board leads to a visited board other than
   * the goal; and the goal is visited only as the start.
   */
  ghost predicate Sweep(w: nat, initial: seq<int>, final: seq<int>, a: seq<TreeNode>, queue: seq<nat>,
                        visited: set<seq<int>>, done: set<seq<int>>)
  {
    WellFormed(w, a, initial) && QueueShape(a, queue, visited, done) && Reach(w, initial, final, visited, done)
  }

  /** The queued nodes hold distinct boards, none dequeued; visited = dequeued + queued. */
  ghost predicate QueueShape(a: seq<TreeNode>, queue: seq<nat>, visited: set<seq<int>>, done: set<seq<int>>) {
    && InArena(a, queue) && DistinctBoards(a, queue)
    && BoardSet(a, queue) !! done
    && visited == done + BoardSet(a, queue)
  }

  /**
   * The dequeued boards are legal; the start is visited; every slide out of
   * a dequeued board is visited and is not the goal; the goal is visited
   * only as the start.
   */
  ghost predicate Reach(w: nat, initial: seq<int>, final: seq<int>, visited: set<seq<int>>, done: set<seq<int>>) {
    && BestFirst.AllLegal(w, done)
    && initial in visited
    && BestFirst.Closure(w, done, visited)
    && (forall b, c :: b in done && IsSlide(w, b, c) ==> c != final)
    && (final in visited ==> final == initial)
  }

  /** The statistics: one count per dequeued node, each board dequeued once, the start first. */
  ghost predicate Tally(initial: seq<int>, final: seq<int>, done: set<seq<int>>, expanded: seq<seq<int>>, nodesCount: nat) {
    && (forall b :: b in done <==> b in expanded)
    && (forall p, q :: 0 <= p < q < |expanded| ==> expanded[p] != expanded[q])
    && (|expanded| > 0 ==> expanded[0] == initial)
    && (final in done ==> final == initial)
    && nodesCount == |expanded|
  }

  /** The queue and the visited set after a dequeue and a child loop that met no goal child. */
  lemma ScanKeepsQueue(a: seq<TreeNode>, queue: seq<nat>, visited: set<seq<int>>, done: set<seq<int>>,
                       a2: seq<TreeNode>, admitted: seq<nat>, visited2: set<seq<int>>)
    requires QueueShape(a, queue, visited, done)
    requires |queue| > 0 && |a| <= |a2| && forall j :: 0 <= j < |a| ==> a2[j].board == a[j].board
    requires InArena(a2, admitted) && DistinctBoards(a2, admitted)
    requires forall j :: 0 <= j < |admitted| ==> a2[admitted[j]].board !in visited
    requires visited <= visited2 && BoardSet(a2, admitted) == visited2 - visited
    ensures QueueShape(a2, queue[1..] + admitted, visited2, done + {a[queue[0]].board})
  {
    var b := a[queue[0]].board;
    var rest := queue[1..];
    var q2 := rest + admitted;
    assert queue == [queue[0]] + rest;
    BoardSetSingle(a, queue[0]);
    BoardSetSplit(a, [queue[0]], rest);
    BoardSetFrame(a, a2, rest);
    BoardSetSplit(a2, rest, admitted);
    forall j | 0 <= j < |rest| ensures a[rest[j]].board != b {
      assert rest[j] == queue[j + 1];
    }
    forall p, q | 0 <= p < q < |q2| ensures a2[q2[p]].board != a2[q2[q]].board {
      if q < |rest| {
        assert q2[p] == queue[p + 1] && q2[q] == queue[q + 1];
      } else if p < |rest| {
        assert q2[q] == admitted[q - |rest|];
        assert a2[q2[p]].board in BoardSet(a2, rest);
      } else {
        assert q2[p] == admitted[p - |rest|] && q2[q] == admitted[q - |rest|];
      }
    }
  }

  /** The slides out of the dequeued board lead to visited boards other than the goal. */
  lemma ScanKeepsReach(w: nat, initial: seq<int>, final: seq<int>, done: set<seq<int>>, visited: set<seq<int>>,
                       visited2: set<seq<int>>, b: seq<int>, kidBoards: set<seq<int>>)
    requires Reach(w, initial, final, visited, done) && IsBoard(w, b)
    requires forall c :: IsSlide(w, b, c) ==> c in kidBoards
    requires visited2 == visited + kidBoards && final !in kidBoards
    ensures Reach(w, initial, final, visited2, done + {b})
  {
  }

  /** The invariant carries over a dequeue whose child loop met no goal child. */
  lemma ScanKeepsSweep(w: nat, initial: seq<int>, final: seq<int>, a: seq<TreeNode>, queue: seq<nat>,
                       visited: set<seq<int>>, done: set<seq<int>>, a2: seq<TreeNode>,
                       queue2: seq<nat>, visited2: set<seq<int>>)
    requires Sweep(w, initial, final, a, queue, visited, done) && |queue| > 0
    requires WellFormed(w, a2, initial) && BestFirst.Grown(a, a2, queue[0]) && BestFirst.Covers(w, a, a2, queue[0])
    requires forall j :: 0 <= j < |a2[queue[0]].children| ==> a2[a2[queue[0]].children[j]].board != final
    requires queue2 == queue[1..] + Admit(a2, a2[queue[0]].children, visited).0
    requires visited2 == Admit(a2, a2[queue[0]].children, visited).1
    ensures Sweep(w, initial, final, a2, queue2, visited2, done + {a[queue[0]].board})
  {
    var i := queue[0];
    var b := a[i].board;
    var kids := a2[i].children;
    assert InArena(a2, kids);
    AdmitFacts(a2, kids, visited);
    var r := Admit(a2, kids, visited);
    ScanKeepsQueue(a, queue, visited, done, a2, r.0, visited2);
    assert IsBoard(w, b);
    forall c | IsSlide(w, b, c) ensures c in BoardSet(a2, kids) {
      var j :| 0 <= j < |kids| && a2[kids[j]].board == c;
    }
    ScanKeepsReach(w, initial, final, done, visited, visited2, b, BoardSet(a2, kids));
  }

  /** A set of boards closed under slides holds the board before the last slide of a path starting in it. */
  lemma LastStepFrom(w: nat, s: set<seq<int>>, p: seq<seq<int>>)
    requires IsMovePath(w, p) && |p| >= 2 && p[0] in s
    requires BestFirst.Closure(w, s, s)
    ensures p[|p| - 2] in s && IsSlide(w, p[|p| - 2], p[|p| - 1])
  {
    var init := p[..|p| - 1];
    assert IsMovePath(w, init) by {
      forall k | 0 <= k < |init| - 1 ensures IsSlide(w, init[k], init[k + 1]) {
        assert IsSlide(w, p[k], p[k + 1]);
      }
    }
    BestFirst.ClosedSetHoldsPath(w, s, init);
  }

  /** A start whose neighbours were all dequeued is not the goal: a neighbour slides back to it. */
  lemma DrainedStart(w: nat, initial: seq<int>, final: seq<int>, done: set<seq<int>>)
    requires Reach(w, initial, final, done, done) && w >= 2
    ensures initial != final
  {
    assert IsBoard(w, initial);
    SuccessorCount(w, initial);
    var c := Successors(w, initial)[0];
    assert IsSlide(w, initial, c);
    assert c in done;
    SlideStep(w, initial, c);
    assert IsSlide(w, c, initial);
  }

  /**
   * When the queue runs dry, the goal cannot be reached from the start: the
   * dequeued boards are closed under slides and none of them slides to the
   * goal. The zero-move path is excluded too, because the start would then
   * slide to a board that slides back to it.
   */
  lemma DrainedMeansUnreachable(w: nat, initial: seq<int>, final: seq<int>, done: set<seq<int>>)
    requires Reach(w, initial, final, done, done) && w >= 2
    ensures forall p :: IsMovePath(w, p) && p[0] == initial ==> Last(p) != final
  {
    DrainedStart(w, initial, final, done);
    forall p | IsMovePath(w, p) && p[0] == initial && |p| >= 2 ensures Last(p) != final {
      LastStepFrom(w, done, p);
    }
  }

  // ---------------------------------------------------------------------------
  // Breadth-first layers
  // ---------------------------------------------------------------------------

  /** Every board reachable from the start in at most n slides is visited. */
  ghost predicate WithinVisited(w: nat, initial: seq<int>, n: int, visited: set<seq<int>>) {
    forall p :: IsMovePath(w, p) && p[0] == initial && |p| <= n + 1 ==> Last(p) in visited
  }

  /**
   * The queue holds the tree level by level: depths along the queue never
   * fall and span at most one level; every board reachable from the start in
   * no more slides than the depth of the front node is visited; and no queued
   * board is reachable in fewer slides than the depth of its node.
   */
  ghost predicate Layered(w: nat, initial: seq<int>, a: seq<TreeNode>, queue: seq<nat>, visited: set<seq<int>>) {
    && Linked(a) && InArena(a, queue)
    && (forall j, k :: 0 <= j < k < |queue| ==> Depth(a, queue[j]) <= Depth(a, queue[k]) <= Depth(a, queue[j]) + 1)
    && (|queue| > 0 ==> WithinVisited(w, initial, Depth(a, queue[0]), visited))
    && (forall j, p :: 0 <= j < |queue| && Solves(w, p, initial, a[queue[j]].board) ==> Depth(a, queue[j]) < |p|)
  }

  /** Before the loop: the start node alone is queued, at depth 0, with only its board visited. */
  lemma StartState(w: nat, initial: seq<int>, final: seq<int>)
    requires IsBoard(w, initial)
    ensures var a := [TreeNode(initial, -1, 1, [])];
      Sweep(w, initial, final, a, [0], {initial}, {}) && Layered(w, initial, a, [0], {initial})
  {
    var a := [TreeNode(initial, -1, 1, [])];
    assert BoardSet(a, [0]) == {initial} by {
      assert a[[0][0]].board == initial;
    }
  }

  /** The depths of the queue after a pass: the rest of the old queue keeps its depths, the admitted children are one level below the dequeued node. */
  lemma LayerDepths(w: nat, initial: seq<int>, a: seq<TreeNode>, queue: seq<nat>, visited: set<seq<int>>,
                    a2: seq<TreeNode>, admitted: seq<nat>)
    requires Layered(w, initial, a, queue, visited) && |queue| > 0 && BestFirst.Grown(a, a2, queue[0])
    requires forall j :: 0 <= j < |admitted| ==> admitted[j] in a2[queue[0]].children
    ensures var q2 := queue[1..] + admitted;
      && InArena(a2, q2)
      && (forall j :: 0 <= j < |queue| - 1 ==> Depth(a2, q2[j]) == Depth(a, queue[j + 1]))
      && (forall j :: |queue| - 1 <= j < |q2| ==> Depth(a2, q2[j]) == Depth(a, queue[0]) + 1)
      && (forall j :: 0 <= j < |q2| ==> Depth(a, queue[0]) <= Depth(a2, q2[j]) <= Depth(a, queue[0]) + 1)
      && (forall j, k :: 0 <= j < k < |q2| ==> Depth(a2, q2[j]) <= Depth(a2, q2[k]) <= Depth(a2, q2[j]) + 1)
  {
    var i := queue[0];
    var d := Depth(a, i);
    var rest := queue[1..];
    var q2 := rest + admitted;
    DepthFrame(a, a2, i);
    forall j | 0 <= j < |rest| ensures q2[j] < |a2| && Depth(a2, q2[j]) == Depth(a, queue[j + 1]) {
      assert q2[j] == queue[j + 1];
      DepthFrame(a, a2, queue[j + 1]);
    }
    forall j | |rest| <= j < |q2| ensures q2[j] < |a2| && Depth(a2, q2[j]) == d + 1 {
      assert q2[j] == admitted[j - |rest|];
      var m :| 0 <= m < |a2[i].children| && a2[i].children[m] == q2[j];
    }
    assert forall j :: 0 < j < |queue| ==> d <= Depth(a, queue[j]) <= d + 1;
  }

  /** No admitted child is reachable in fewer slides than its depth: it was not visited. */
  lemma LayerTight(w: nat, initial: seq<int>, a: seq<TreeNode>, queue: seq<nat>, visited: set<seq<int>>,
                   a2: seq<TreeNode>, admitted: seq<nat>)
    requires Layered(w, initial, a, queue, visited) && |queue| > 0 && BestFirst.Grown(a, a2, queue[0])
    requires forall j :: 0 <= j < |admitted| ==> admitted[j] in a2[queue[0]].children && a2[admitted[j]].board !in visited
    ensures var q2 := queue[1..] + admitted;
      && InArena(a2, q2)
      && forall j, p :: 0 <= j < |q2| && Solves(w, p, initial, a2[q2[j]].board) ==> Depth(a2, q2[j]) < |p|
  {
    var q2 := queue[1..] + admitted;
    LayerDepths(w, initial, a, queue, visited, a2, admitted);
    forall j, p | 0 <= j < |q2| && Solves(w, p, initial, a2[q2[j]].board) ensures Depth(a2, q2[j]) < |p| {
      if j < |queue| - 1 {
        assert q2[j] == queue[j + 1];
      } else {
        assert q2[j] == admitted[j - (|queue| - 1)];
      }
    }
  }

  /**
   * A pass with no goal child keeps the layers. A board reachable in one slide
   * more than the old front depth is one slide from a visited board; that
   * board cannot still wait in the queue, whose depths are now beyond it, so
   * it was dequeued and its slides are visited.
   */
  lemma ScanKeepsLayers(w: nat, initial: seq<int>, a: seq<TreeNode>, queue: seq<nat>, visited: set<seq<int>>,
                        a2: seq<TreeNode>, admitted: seq<nat>, visited2: set<seq<int>>, done2: set<seq<int>>)
    requires Layered(w, initial, a, queue, visited) && |queue| > 0 && BestFirst.Grown(a, a2, queue[0])
    requires forall j :: 0 <= j < |admitted| ==> admitted[j] in a2[queue[0]].children && a2[admitted[j]].board !in visited
    requires visited <= visited2
    requires QueueShape(a2, queue[1..] + admitted, visited2, done2) && BestFirst.Closure(w, done2, visited2)
    ensures Layered(w, initial, a2, queue[1..] + admitted, visited2)
  {
    var q2 := queue[1..] + admitted;
    var d := Depth(a, queue[0]);
    LayerDepths(w, initial, a, queue, visited, a2, admitted);
    LayerTight(w, initial, a, queue, visited, a2, admitted);
    if |q2| > 0 && Depth(a2, q2[0]) == d + 1 {
      NextLayerVisited(w, initial, d, visited, a2, q2, visited2, done2);
    }
  }

  /**
   * When no queued board is reachable within d + 1 slides, every board
   * reachable within d + 1 slides is visited: the board before its last slide
   * is within d slides, hence visited and, not being queued, dequeued.
   */
  lemma NextLayerVisited(w: nat, initial: seq<int>, d: nat, visited: set<seq<int>>,
                         a2: seq<TreeNode>, q2: seq<nat>, visited2: set<seq<int>>, done2: set<seq<int>>)
    requires WithinVisited(w, initial, d, visited) && visited <= visited2
    requires QueueShape(a2, q2, visited2, done2) && BestFirst.Closure(w, done2, visited2)
    requires forall j, p :: 0 <= j < |q2| && Solves(w, p, initial, a2[q2[j]].board) ==> d + 1 < |p|
    ensures WithinVisited(w, initial, d + 1, visited2)
  {
    forall p | IsMovePath(w, p) && p[0] == initial && |p| <= d + 2 ensures Last(p) in visited2 {
      if |p| == d + 2 {
        MovePathInit(w, p);
        var x := p[|p| - 2];
        assert x in visited2;
      }
    }
  }

  /**
   * A goal child is one level below the dequeued node, and when the start is
   * not the goal no solution is shorter: every board within the front depth
   * is visited, and the goal is not.
   */
  lemma GoalChildShortest(w: nat, initial: seq<int>, final: seq<int>, a: seq<TreeNode>, queue: seq<nat>,
                          visited: set<seq<int>>, a2: seq<TreeNode>, goal: nat)
    requires Layered(w, initial, a, queue, visited) && |queue| > 0 && BestFirst.Grown(a, a2, queue[0])
    requires goal < |a2| && a2[goal].parent == queue[0] && a2[goal].board == final
    requires final in visited ==> final == initial
    ensures Depth(a2, goal) == Depth(a, queue[0]) + 1
    ensures initial != final ==>
      forall p {:trigger Solves(w, p, initial, final)} :: Solves(w, p, initial, final) ==> Depth(a2, goal) < |p|
  {
    DepthFrame(a, a2, queue[0]);
  }

  /** The queue after the first pass: its front node is one level down and holds the first successor of the start. */
  ghost predicate FirstPass(w: nat, initial: seq<int>, a: seq<TreeNode>, queue: seq<nat>) {
    && |queue| > 0 && queue[0] < |a| && Linked(a)
    && w > 0 && |initial| == w * w && 0 in initial && |Successors(w, initial)| > 0
    && a[queue[0]].board == Successors(w, initial)[0] && Depth(a, queue[0]) == 1
  }

  /**
   * The first pass, from the start node alone: the first node queued is the
   * first child, one level down, holding the first successor of the start in
   * move order.
   */
  lemma FirstRound(w: nat, initial: seq<int>, a2: seq<TreeNode>, queue2: seq<nat>)
    requires w >= 2 && IsBoard(w, initial) && FirstChildren(w, initial, a2)
    requires InArena(a2, a2[0].children) && queue2 == [0][1..] + Admit(a2, a2[0].children, {initial}).0
    ensures FirstPass(w, initial, a2, queue2)
  {
    SuccessorCount(w, initial);
    assert IsSlide(w, initial, a2[1].board);
    SlideStep(w, initial, a2[1].board);
    FirstAdmitted(a2, {initial});
    assert [0][1..] == [];
  }

  /** The arena after expanding the start node alone: its children are all the later nodes, the first holding the first successor. */
  ghost predicate FirstChildren(w: nat, initial: seq<int>, a: seq<TreeNode>) {
    && Linked(a) && |a| >= 2 && a[0].children == Range(1, |a|) && a[0].parent < 0 && a[1].parent == 0
    && w > 0 && |initial| == w * w && 0 in initial && |Successors(w, initial)| > 0
    && a[1].board == Successors(w, initial)[0]
  }

  /**
   * The four move calls on the dequeued node, each new child with insertion
   * order 1. The arena stays well formed, the old nodes keep their boards
   * and parents, and every slide out of the dequeued board is held by one
   * of its children.
   */
  method ExpandFront(w: nat, initial: seq<int>, a: seq<TreeNode>, i: nat) returns (a2: seq<TreeNode>)
    requires w >= 2 && WellFormed(w, a, initial) && i < |a|
    ensures WellFormed(w, a2, initial) && BestFirst.Grown(a, a2, i) && BestFirst.Covers(w, a, a2, i)
    ensures a == [TreeNode(initial, -1, 1, [])] ==> FirstChildren(w, initial, a2)
  {
    BestFirst.ExpandGrown(w, a, initial, i, [1, 1, 1, 1], Expand(w, a, i, MoveOrder, [1, 1, 1, 1]));
    a2 := Expand(w, a, i, MoveOrder, [1, 1, 1, 1]);
    if a == [TreeNode(initial, -1, 1, [])] {
      assert IsBoard(w, initial);
      SuccessorCount(w, initial);
      FirstKids(w, a, [1, 1, 1, 1], a2);
    }
  }

  /** Expanding a childless root whose board has a successor appends its successors, the first as node 1. */
  lemma FirstKids(w: nat, a: seq<TreeNode>, orders: seq<int>, a2: seq<TreeNode>)
    requires w > 0 && |a| == 1 && |a[0].board| == w * w && 0 in a[0].board && a[0].children == []
    requires |Successors(w, a[0].board)| > 0 && |orders| == 4
    requires a2 == Expand(w, a, 0, MoveOrder, orders)
    ensures |a2| >= 2 && a2[0].children == Range(1, |a2|) && a2[0].parent == a[0].parent
    ensures a2[1].parent == 0 && a2[1].board == Successors(w, a[0].board)[0]
  {
    SlidesOfMoveOrder(w, a[0].board);
  }

  /** Node 1, the first child of the root, is admitted first when its board is new. */
  lemma FirstAdmitted(a: seq<TreeNode>, visited: set<seq<int>>)
    requires Linked(a) && |a| >= 2 && a[0].children == Range(1, |a|)
    requires a[0].parent < 0 && a[1].parent == 0 && a[1].board !in visited
    ensures var q := Admit(a, a[0].children, visited).0;
      |q| > 0 && q[0] == 1 && Depth(a, 1) == 1
  {
    var kids := a[0].children;
    assert kids[0] == 1;
  }

  // ---------------------------------------------------------------------------
  // The search loop
  // ---------------------------------------------------------------------------

  /**
   * One pass of the while loop: dequeue the front node, expand it by the four
   * moves, count it, and scan its children. `goal` is the arena index of the
   * goal child found, or -1.
   */
  method Step(w: nat, initial: seq<int>, final: seq<int>, a: seq<TreeNode>, queue: seq<nat>,
              visited: set<seq<int>>, ghost done: set<seq<int>>, ghost expanded: seq<seq<int>>, nodesCount: nat)
    returns (goal: int, a2: seq<TreeNode>, queue2: seq<nat>, visited2: set<seq<int>>,
             ghost done2: set<seq<int>>, ghost expanded2: seq<seq<int>>, nodesCount2: nat)
    requires Sweep(w, initial, final, a, queue, visited, done) && Layered(w, initial, a, queue, visited)
    requires Tally(initial, final, done, expanded, nodesCount)
    requires w >= 2 && |queue| > 0
    requires |expanded| == 0 ==> queue == [0] && a == [TreeNode(initial, -1, 1, [])] && visited == {initial}
    ensures WellFormed(w, a2, initial)
    ensures expanded2 == expanded + [a[queue[0]].board] && done2 == done + {a[queue[0]].board}
    ensures Tally(initial, final, done2, expanded2, nodesCount2) && |expanded2| > 0
    ensures goal >= 0 ==>
      && goal < |a2| && a2[goal].board == final && a2[goal].parent == queue[0]
      && a2[a2[goal].parent].board == Last(expanded2)
      && Depth(a2, goal) == Depth(a, queue[0]) + 1
    ensures goal >= 0 && initial != final ==>
      forall p {:trigger Solves(w, p, initial, final)} :: Solves(w, p, initial, final) ==> Depth(a2, goal) < |p|
    ensures goal < 0 ==> Sweep(w, initial, final, a2, queue2, visited2, done2)
    ensures goal < 0 ==> Layered(w, initial, a2, queue2, visited2)
    ensures goal < 0 && |expanded| == 0 ==> FirstPass(w, initial, a2, queue2)
    ensures goal < 0 ==> AllBoards(w) - done2 < AllBoards(w) - done
  {
    var i := queue[0];
    var b := a[i].board;
    assert b in BoardSet(a, queue);
    assert IsBoard(w, b);
    BoardInUniverse(w, b);
    BestFirst.ExpandedAppend(initial, done, expanded, b);
    nodesCount2, expanded2, done2 := nodesCount + 1, expanded + [b], done + {b};
    a2 := ExpandFront(w, initial, a, i);
    var kids := a2[i].children;
    var t;
    t, queue2, visited2 := ScanChildren(a2, final, kids, queue[1..], visited);
    if t >= 0 {
      goal := kids[t];
      assert a2[goal].parent == i && a2[i].board == b;
      GoalChildShortest(w, initial, final, a, queue, visited, a2, goal);
    } else {
      goal := -1;
      ScanKeepsSweep(w, initial, final, a, queue, visited, done, a2, queue2, visited2);
      AdmitFacts(a2, kids, visited);
      ScanKeepsLayers(w, initial, a, queue, visited, a2, Admit(a2, kids, visited).0, visited2, done2);
      if |expanded| == 0 {
        FirstRound(w, initial, a2, queue2);
      }
      assert AllBoards(w) - done2 < AllBoards(w) - done;
    }
  }

  /** The traced path of a goal child: one board per level down to it, its last move starting from the node dequeued last. */
  lemma GoalChildPath(w: nat, initial: seq<int>, final: seq<int>, a: seq<TreeNode>, i: nat, path: seq<seq<int>>)
    requires WellFormed(w, a, initial) && i < |a| && a[i].board == final && 0 <= a[i].parent < |a|
    requires path == BoardsOf(a, Chain(a, i))
    ensures |path| >= 2 && path[0] == initial && Last(path) == final && IsMovePath(w, path)
    ensures path[|path| - 2] == a[a[i].parent].board && |path| == Depth(a, i) + 1
  {
    BestFirst.FoundPath(w, initial, final, a, i, path);
    ChainLength(a, i);
    var c := Chain(a, i);
    assert |c| >= 2;
    assert a[c[|c| - 1]].parent == c[|c| - 2];
  }

  /**
   * The state between passes: the loop invariant, the layers, and, when the
   * start is the goal, at most the start dequeued, with its first neighbour
   * next in the queue one level down.
   */
  ghost predicate Pending(w: nat, initial: seq<int>, final: seq<int>, a: seq<TreeNode>, queue: seq<nat>,
                          visited: set<seq<int>>, done: set<seq<int>>, expanded: seq<seq<int>>, nodesCount: nat)
  {
    && Sweep(w, initial, final, a, queue, visited, done) && Layered(w, initial, a, queue, visited)
    && Tally(initial, final, done, expanded, nodesCount)
    && (|expanded| == 0 ==> queue == [0] && a == [TreeNode(initial, -1, 1, [])] && visited == {initial})
    && (initial == final ==> |expanded| <= 1)
    && (initial == final && |expanded| == 1 ==>
          && |queue| > 0 && |Successors(w, initial)| > 0
          && a[queue[0]].board == Successors(w, initial)[0] && Depth(a, queue[0]) == 1)
  }

  /**
   * One turn of the while loop, with the path traced when it meets the goal
   * child: a solution through the board dequeued last, of minimal length
   * when the start is not the goal and the detour through the first
   * neighbour when it is.
   */
  method Pass(w: nat, initial: seq<int>, final: seq<int>, a: seq<TreeNode>, queue: seq<nat>,
              visited: set<seq<int>>, ghost done: set<seq<int>>, ghost expanded: seq<seq<int>>, nodesCount: nat)
    returns (found: bool, path: seq<seq<int>>, a2: seq<TreeNode>, queue2: seq<nat>, visited2: set<seq<int>>,
             ghost done2: set<seq<int>>, ghost expanded2: seq<seq<int>>, nodesCount2: nat)
    requires w >= 2 && IsBoard(w, initial) && |Successors(w, initial)| > 0 && |queue| > 0
    requires Pending(w, initial, final, a, queue, visited, done, expanded, nodesCount)
    ensures found ==> |path| >= 2 && path[0] == initial && Last(path) == final && IsMovePath(w, path)
    ensures found ==> |expanded2| > 0 && path[|path| - 2] == Last(expanded2)
    ensures found && initial != final ==>
      forall p {:trigger Solves(w, p, initial, final)} :: Solves(w, p, initial, final) ==> |path| <= |p|
    ensures found && initial == final ==> path == [initial, Successors(w, initial)[0], initial]
    ensures Tally(initial, final, done2, expanded2, nodesCount2)
    ensures !found ==> Pending(w, initial, final, a2, queue2, visited2, done2, expanded2, nodesCount2)
    ensures !found ==> AllBoards(w) - done2 < AllBoards(w) - done
  {
    var goal;
    goal, a2, queue2, visited2, done2, expanded2, nodesCount2 := Step(w, initial, final, a, queue, visited, done, expanded, nodesCount);
    found := goal >= 0;
    if found {
      var chain := TracePath(a2, goal);
      path := BoardsOf(a2, chain);
      GoalPath(w, initial, final, a, queue[0], |expanded|, a2, goal, path);
    } else {
      path := [];
      if |expanded| == 1 && initial == final {
        NeighbourLeadsBack(w, initial, final, a[queue[0]].board, visited2, done2);
      }
    }
  }

  /**
   * solve, as written. A path found is a shortest solution: the queue takes
   * the tree level by level and the goal test on children stops at the
   * first level holding the goal. The start board, though, is never
   * compared with the goal, so a start that is already solved comes back as
   * the detour through its first neighbour in move order and back.
   */
  method Search(w: nat, initial: seq<int>, final: seq<int>)
    returns (path: seq<seq<int>>, nodesCount: nat, ghost expanded: seq<seq<int>>)
    requires w >= 2 && IsBoard(w, initial) && IsBoard(w, final)
    ensures path != [] ==> |path| >= 2 && path[0] == initial && Last(path) == final && IsMovePath(w, path)
    ensures path != [] ==> |expanded| > 0 && path[|path| - 2] == Last(expanded)
    ensures path != [] && initial != final ==>
      forall p {:trigger Solves(w, p, initial, final)} :: Solves(w, p, initial, final) ==> |path| <= |p|
    ensures path == [] ==> forall p :: IsMovePath(w, p) && p[0] == initial ==> Last(p) != final
    ensures initial == final ==>
      |Successors(w, initial)| > 0 && path == [initial, Successors(w, initial)[0], initial]
    ensures nodesCount == |expanded|
    ensures forall p, q :: 0 <= p < q < |expanded| ==> expanded[p] != expanded[q]
    ensures |expanded| > 0 ==> expanded[0] == initial
    ensures final in expanded ==> final == initial
  {
    var a := [TreeNode(initial, -1, 1, [])];
    var queue := [0];
    var visited := {initial};
    StartState(w, initial, final);
    SuccessorCount(w, initial);
    ghost var done := {};
    expanded, nodesCount := [], 0;
    while |queue| > 0
      invariant Pending(w, initial, final, a, queue, visited, done, expanded, nodesCount)
      decreases AllBoards(w) - done
    {
      var found;
      found, path, a, queue, visited, done, expanded, nodesCount := Pass(w, initial, final, a, queue, visited, done, expanded, nodesCount);
      if found {
        return;
      }
    }
    path := [];
    assert BoardSet(a, []) == {};
    DrainedMeansUnreachable(w, initial, final, done);
  }

  /**
   * The path traced from the goal child of a pass: a solution through the
   * board dequeued on that pass, no longer than any other when the start is
   * not the goal. When it is, a one-move path cannot reach it (a slide
   * changes the board), so the goal child is found on the second pass, below
   * the first neighbour of the start.
   */
  lemma GoalPath(w: nat, initial: seq<int>, final: seq<int>, a1: seq<TreeNode>, front: nat, passes: nat,
                 a: seq<TreeNode>, goal: nat, path: seq<seq<int>>)
    requires IsBoard(w, initial) && |Successors(w, initial)| > 0
    requires WellFormed(w, a, initial) && goal < |a| && a[goal].board == final && 0 <= a[goal].parent < |a|
    requires Linked(a1) && front < |a1| && a[a[goal].parent].board == a1[front].board
    requires Depth(a, goal) == Depth(a1, front) + 1
    requires initial != final ==>
      forall p {:trigger Solves(w, p, initial, final)} :: Solves(w, p, initial, final) ==> Depth(a, goal) < |p|
    requires passes == 0 ==> a1 == [TreeNode(initial, -1, 1, [])] && front == 0
    requires initial == final ==> passes <= 1
    requires initial == final && passes == 1 ==> a1[front].board == Successors(w, initial)[0] && Depth(a1, front) == 1
    requires path == BoardsOf(a, Chain(a, goal))
    ensures |path| >= 2 && path[0] == initial && Last(path) == final && IsMovePath(w, path)
    ensures path[|path| - 2] == a1[front].board
    ensures initial != final ==>
      forall p {:trigger Solves(w, p, initial, final)} :: Solves(w, p, initial, final) ==> |path| <= |p|
    ensures initial == final ==> path == [initial, Successors(w, initial)[0], initial]
  {
    GoalChildPath(w, initial, final, a, goal, path);
    if initial == final && passes == 0 {
      assert IsSlide(w, path[0], path[1]);
      SlideStep(w, initial, initial);
    }
  }

  /** A dequeued neighbour of the start slides back to it, so the start is not the goal. */
  lemma NeighbourLeadsBack(w: nat, initial: seq<int>, final: seq<int>, c: seq<int>, visited: set<seq<int>>,
                           done: set<seq<int>>)
    requires IsBoard(w, initial) && c in Successors(w, initial)
    requires Reach(w, initial, final, visited, done) && c in done
    ensures initial != final
  {
    assert IsSlide(w, initial, c);
    SlideStep(w, initial, c);
  }

  /**
   * solve with the start compared with the goal first: a solved start
   * returns the one-board path without expanding anything; otherwise the
   * search runs as written.
   */
  method SearchFromStart(w: nat, initial: seq<int>, final: seq<int>)
    returns (path: seq<seq<int>>, nodesCount: nat, ghost expanded: seq<seq<int>>)
    requires w >= 2 && IsBoard(w, initial) && IsBoard(w, final)
    ensures path != [] ==> path[0] == initial && Last(path) == final && IsMovePath(w, path)
    ensures path != [] ==>
      forall p {:trigger Solves(w, p, initial, final)} :: Solves(w, p, initial, final) ==> |path| <= |p|
    ensures path == [] ==> forall p :: IsMovePath(w, p) && p[0] == initial ==> Last(p) != final
    ensures initial == final <==> path == [initial]
    ensures nodesCount == |expanded|
    ensures forall p, q :: 0 <= p < q < |expanded| ==> expanded[p] != expanded[q]
    ensures final !in expanded
  {
    if initial == final {
      return [initial], 0, [];
    }
    path, nodesCount, expanded := Search(w, initial, final);
  }

  /** The solver object of bfs.cpp; its statistics accumulate over calls. */
  class BFS {
    const finalVector: seq<int>
    var nodesCount: int
    var solutionDepth: int

    constructor(finalVector: seq<int>)
      ensures this.finalVector == finalVector && nodesCount == 0 && solutionDepth == 0
    {
      this.finalVector := finalVector;
      nodesCount, solutionDepth := 0, 0;
    }

    /**
     * solve: every dequeued node adds one to nodesCount; a found path sets
     * solutionDepth to its number of boards (moves + 1), an empty result
     * leaves it as it was.
     */
    method Solve(initialVector: seq<int>) returns (path: seq<seq<int>>, ghost expanded: seq<seq<int>>)
      requires IsBoard(3, initialVector) && IsBoard(3, finalVector)
      modifies this
      ensures path != [] ==> |path| >= 2 && path[0] == initialVector && Last(path) == finalVector && IsMovePath(3, path)
      ensures path != [] ==> |expanded| > 0 && path[|path| - 2] == Last(expanded)
      ensures path != [] && initialVector != finalVector ==>
        forall p {:trigger Solves(3, p, initialVector, finalVector)} ::
          Solves(3, p, initialVector, finalVector) ==> |path| <= |p|
      ensures path == [] ==> forall p :: IsMovePath(3, p) && p[0] == initialVector ==> Last(p) != finalVector
      ensures initialVector == finalVector ==>
        path == [initialVector, Successors(3, initialVector)[0], initialVector] && solutionDepth == 3
      ensures nodesCount == old(nodesCount) + |expanded|
      ensures solutionDepth == if path != [] then |path| else old(solutionDepth)
      ensures forall p, q :: 0 <= p < q < |expanded| ==> expanded[p] != expanded[q]
      ensures |expanded| > 0 ==> expanded[0] == initialVector
    {
      var count;
      path, count, expanded := Search(3, initialVector, finalVector);
      nodesCount := nodesCount + count;
      if path != [] {
        solutionDepth := |path|;
      }
    }
  }
}
