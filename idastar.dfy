/**
 * IDA* over the 8-puzzle (idastar.cpp, class IDAStar).
 *
 * depthLimitedSearch is a recursive method that updates the solver's
 * counters and a visited set shared by reference across the whole run; it is
 * specified by the pure function Dls (with DlsKids for its loop over the
 * children), and the properties are proved about those functions. The
 * parent chain that tracePath follows is the chain of recursive calls, so the
 * model carries it as the list of ancestor boards. INT_MAX, the "nothing was
 * cut off" bound, is the constructor Infinite.
 */
module Ida {
  import opened Puzzle

  datatype Bound = Finite(n: int) | Infinite

  /** The bound is above the limit (INT_MAX counts as above every limit). */
  predicate Exceeds(b: Bound, limit: int) {
    b.Infinite? || b.n > limit
  }

  /** a <= b, with INT_MAX the largest bound. */
  predicate NoMore(a: Bound, b: Bound) {
    b.Infinite? || (a.Finite? && a.n <= b.n)
  }

  /** std::min of two bounds: the smaller one, the first on a tie. */
  function Min(a: Bound, b: Bound): (r: Bound)
    ensures r == a || r == b
    ensures NoMore(r, a) && NoMore(r, b)
  {
    match a
    case Infinite => b
    case Finite(x) => if b.Finite? && b.n < x then b else a
  }

  /**
   * What one call of depthLimitedSearch returns and does: the returned bound
   * and path, the visited set afterwards, and how much it added to
   * nodes_expanded, nodes_generated and heuristic_sum.
   */
  datatype Outcome = Outcome(bound: Bound, path: seq<seq<int>>, visited: set<seq<int>>,
                             expanded: int, generated: int, hsum: int)

  /**
   * depthLimitedSearch on a node holding `state`, reached by the ancestor
   * boards `ancestors`, whose stored h_cost is `storedH`, at depth g under
   * `limit`. The call counts itself as expanded and generated and adds the
   * stored (not the recomputed) h to the sum. If g + h exceeds the limit it
   * returns g + h; a goal returns INT_MAX and the path; otherwise the
   * children are searched in move order.
   */
  function Dls(goal: seq<int>, state: seq<int>, ancestors: seq<seq<int>>, storedH: int, g: int, limit: int,
               visited: set<seq<int>>): Outcome
    requires IsBoard(3, state)
    decreases limit - g + 1, 0, 0
  {
    var h := Manhattan(3, state, goal);
    if g + h > limit then
      Outcome(Finite(g + h), [], visited, 1, 1, storedH)
    else if state == goal then
      Outcome(Infinite, ancestors + [state], visited, 1, 1, storedH)
    else
      ManhattanNonNegative(3, state, goal);
      SuccessorsAreBoards(3, state);
      var k := DlsKids(goal, Successors(3, state), ancestors + [state], g + 1, limit, visited, Infinite);
      Outcome(k.bound, k.path, k.visited, 1 + k.expanded, 1 + k.generated, storedH + k.hsum)
  }

  /**
   * The loop over the children: a child whose board is already visited takes
   * one back from nodes_expanded; the board is marked visited and the child
   * searched with stored h 0 (a fresh node); a found path is returned at
   * once; otherwise next_limit takes the minimum of the bounds returned.
   */
  function DlsKids(goal: seq<int>, kids: seq<seq<int>>, ancestors: seq<seq<int>>, g: int, limit: int,
                   visited: set<seq<int>>, nextLimit: Bound): Outcome
    requires forall j :: 0 <= j < |kids| ==> IsBoard(3, kids[j])
    decreases limit - g + 1, 1, |kids|
  {
    if kids == [] then
      Outcome(nextLimit, [], visited, 0, 0, 0)
    else
      var kid := kids[0];
      var dup := if kid in visited then 1 else 0;
      var r := Dls(goal, kid, ancestors, 0, g, limit, visited + {kid});
      if r.path != [] then
        Outcome(r.bound, r.path, r.visited, r.expanded - dup, r.generated, r.hsum)
      else
        var rest := DlsKids(goal, kids[1..], ancestors, g, limit, r.visited, Min(nextLimit, r.bound));
        Outcome(rest.bound, rest.path, rest.visited, r.expanded - dup + rest.expanded,
                r.generated + rest.generated, r.hsum + rest.hsum)
  }

  // ---------------------------------------------------------------------------
  // The bound returned
  // ---------------------------------------------------------------------------

  /** A failed call returns a finite bound above the limit; a successful one returns INT_MAX. */
  lemma {:induction false} DlsBound(goal: seq<int>, state: seq<int>, ancestors: seq<seq<int>>, storedH: int,
                                    g: int, limit: int, visited: set<seq<int>>)
    requires IsBoard(3, state)
    ensures var r := Dls(goal, state, ancestors, storedH, g, limit, visited);
      && (r.path == [] ==> r.bound.Finite? && r.bound.n > limit)
      && (r.path != [] ==> r.bound.Infinite?)
    decreases limit - g + 1, 0, 0
  {
    var h := Manhattan(3, state, goal);
    var r := Dls(goal, state, ancestors, storedH, g, limit, visited);
    if g + h > limit {
      assert r.bound == Finite(g + h) && r.path == [];
    } else if state == goal {
      assert r.path == ancestors + [state];
    } else {
      ManhattanNonNegative(3, state, goal);
      SuccessorsAreBoards(3, state);
      var kids := Successors(3, state);
      SuccessorCount(3, state);
      var k := DlsKids(goal, kids, ancestors + [state], g + 1, limit, visited, Infinite);
      assert r.bound == k.bound && r.path == k.path;
      DlsKidsBound(goal, kids, ancestors + [state], g + 1, limit, visited, Infinite);
    }
  }

  lemma {:induction false} DlsKidsBound(goal: seq<int>, kids: seq<seq<int>>, ancestors: seq<seq<int>>, g: int,
                                        limit: int, visited: set<seq<int>>, nextLimit: Bound)
    requires forall j :: 0 <= j < |kids| ==> IsBoard(3, kids[j])
    requires Exceeds(nextLimit, limit)
    ensures var r := DlsKids(goal, kids, ancestors, g, limit, visited, nextLimit);
      && (r.path == [] ==> Exceeds(r.bound, limit) && (kids != [] || nextLimit.Finite? ==> r.bound.Finite?))
      && (r.path != [] ==> r.bound.Infinite?)
    decreases limit - g + 1, 1, |kids|
  {
    if kids != [] {
      var kid := kids[0];
      DlsBound(goal, kid, ancestors, 0, g, limit, visited + {kid});
      var r := Dls(goal, kid, ancestors, 0, g, limit, visited + {kid});
      if r.path == [] {
        DlsKidsBound(goal, kids[1..], ancestors, g, limit, r.visited, Min(nextLimit, r.bound));
      }
    }
  }

  // ---------------------------------------------------------------------------
  // The counters and the visited set
  // ---------------------------------------------------------------------------

  /**
   * A call never shrinks the visited set; it counts at least itself as
   * expanded and never counts more expanded than generated nodes; and it adds
   * exactly its own stored h to heuristic_sum, because every child starts
   * with a stored h of 0.
   */
  lemma {:induction false} DlsCounts(goal: seq<int>, state: seq<int>, ancestors: seq<seq<int>>, storedH: int,
                                     g: int, limit: int, visited: set<seq<int>>)
    requires IsBoard(3, state)
    ensures var r := Dls(goal, state, ancestors, storedH, g, limit, visited);
      visited <= r.visited && 1 <= r.expanded <= r.generated && r.hsum == storedH
    decreases limit - g + 1, 0, 0
  {
    var h := Manhattan(3, state, goal);
    if g + h <= limit && state != goal {
      ManhattanNonNegative(3, state, goal);
      SuccessorsAreBoards(3, state);
      DlsKidsCounts(goal, Successors(3, state), ancestors + [state], g + 1, limit, visited, Infinite);
    }
  }

  lemma {:induction false} DlsKidsCounts(goal: seq<int>, kids: seq<seq<int>>, ancestors: seq<seq<int>>, g: int,
                                         limit: int, visited: set<seq<int>>, nextLimit: Bound)
    requires forall j :: 0 <= j < |kids| ==> IsBoard(3, kids[j])
    ensures var r := DlsKids(goal, kids, ancestors, g, limit, visited, nextLimit);
      visited <= r.visited && 0 <= r.expanded <= r.generated && r.hsum == 0
    decreases limit - g + 1, 1, |kids|
  {
    if kids != [] {
      var kid := kids[0];
      DlsCounts(goal, kid, ancestors, 0, g, limit, visited + {kid});
      var r := Dls(goal, kid, ancestors, 0, g, limit, visited + {kid});
      if r.path == [] {
        DlsKidsCounts(goal, kids[1..], ancestors, g, limit, r.visited, Min(nextLimit, r.bound));
      }
    }
  }

  // ---------------------------------------------------------------------------
  // The path returned
  // ---------------------------------------------------------------------------

  lemma MovePathExtend(w: nat, p: seq<seq<int>>, c: seq<int>)
    requires IsMovePath(w, p) && IsSlide(w, Last(p), c)
    ensures IsMovePath(w, p + [c])
  {
    var q := p + [c];
    forall k | 0 <= k < |q| - 1 ensures IsSlide(w, q[k], q[k + 1]) {
      if k < |p| - 1 {
        assert q[k] == p[k] && q[k + 1] == p[k + 1];
      }
    }
  }

  /**
   * A found path extends the ancestor chain through `state` to the goal by
   * slides, and has at most limit + 1 boards: the goal was reached at a depth
   * g with g + 0 <= limit.
   */
  lemma {:induction false} DlsPath(goal: seq<int>, state: seq<int>, ancestors: seq<seq<int>>, storedH: int,
                                   g: int, limit: int, visited: set<seq<int>>)
    requires IsBoard(3, state) && IsBoard(3, goal)
    requires IsMovePath(3, ancestors + [state]) && g == |ancestors|
    ensures var r := Dls(goal, state, ancestors, storedH, g, limit, visited);
      r.path != [] ==>
        && IsMovePath(3, r.path) && |ancestors| < |r.path| <= limit + 1
        && r.path[..|ancestors| + 1] == ancestors + [state] && Last(r.path) == goal
    decreases limit - g + 1, 0, 0
  {
    var h := Manhattan(3, state, goal);
    if g + h <= limit {
      if state == goal {
        ManhattanOfGoal(3, goal);
        assert (ancestors + [state])[..|ancestors| + 1] == ancestors + [state];
      } else {
        ManhattanNonNegative(3, state, goal);
        SuccessorsAreBoards(3, state);
        var a := ancestors + [state];
        DlsKidsPath(goal, Successors(3, state), a, g + 1, limit, visited, Infinite);
        var k := DlsKids(goal, Successors(3, state), a, g + 1, limit, visited, Infinite);
        if k.path != [] {
          assert k.path[..|ancestors| + 1] == k.path[..|a|];
        }
      }
    }
  }

  lemma {:induction false} DlsKidsPath(goal: seq<int>, kids: seq<seq<int>>, ancestors: seq<seq<int>>, g: int,
                                       limit: int, visited: set<seq<int>>, nextLimit: Bound)
    requires forall j :: 0 <= j < |kids| ==> IsBoard(3, kids[j])
    requires IsBoard(3, goal) && IsMovePath(3, ancestors) && g == |ancestors|
    requires forall j :: 0 <= j < |kids| ==> IsSlide(3, Last(ancestors), kids[j])
    ensures var r := DlsKids(goal, kids, ancestors, g, limit, visited, nextLimit);
      r.path != [] ==>
        && IsMovePath(3, r.path) && |ancestors| < |r.path| <= limit + 1
        && r.path[..|ancestors|] == ancestors && Last(r.path) == goal
    decreases limit - g + 1, 1, |kids|
  {
    if kids != [] {
      var kid := kids[0];
      MovePathExtend(3, ancestors, kid);
      DlsPath(goal, kid, ancestors, 0, g, limit, visited + {kid});
      var r := Dls(goal, kid, ancestors, 0, g, limit, visited + {kid});
      if r.path != [] {
        assert r.path[..|ancestors|] == (ancestors + [kid])[..|ancestors|] == ancestors;
      } else {
        DlsKidsPath(goal, kids[1..], ancestors, g, limit, r.visited, Min(nextLimit, r.bound));
      }
    }
  }

  // ---------------------------------------------------------------------------
  // The bound is a lower bound on solution cost
  // ---------------------------------------------------------------------------

  lemma MovePathTail(w: nat, p: seq<seq<int>>)
    requires IsMovePath(w, p) && |p| >= 2
    ensures IsMovePath(w, p[1..]) && IsSlide(w, p[0], p[1])
  {
    forall k | 0 <= k < |p[1..]| - 1 ensures IsSlide(w, p[1..][k], p[1..][k + 1]) {
      assert IsSlide(w, p[k + 1], p[k + 2]);
    }
  }

  /**
   * A failed call's bound never exceeds the cost of a solution through its
   * node: every move path from `state` to the goal takes at least
   * bound - g slides. This rests on the Manhattan distance never
   * overestimating.
   */
  /** A bound below every solution from the children is below every solution through them. */
  lemma ThroughChild(goal: seq<int>, kids: seq<seq<int>>, b: Bound, g: int, p: seq<seq<int>>)
    requires forall q {:trigger IsMovePath(3, q)} :: IsMovePath(3, q) && q[0] in kids && Last(q) == goal ==> NoMore(b, Finite(g + |q| - 1))
    requires IsMovePath(3, p) && |p| >= 2 && p[1] in kids && Last(p) == goal
    ensures NoMore(b, Finite(g - 1 + |p| - 1))
  {
    MovePathTail(3, p);
    var q := p[1..];
    assert q[0] in kids && Last(q) == goal;
  }

  lemma {:induction false} DlsLowerBound(goal: seq<int>, state: seq<int>, ancestors: seq<seq<int>>, storedH: int,
                                         g: int, limit: int, visited: set<seq<int>>)
    requires IsBoard(3, state) && IsBoard(3, goal)
    ensures var r := Dls(goal, state, ancestors, storedH, g, limit, visited);
      r.path == [] ==> forall p {:trigger Solves(3, p, state, goal)} :: Solves(3, p, state, goal) ==>
        NoMore(r.bound, Finite(g + |p| - 1))
    decreases limit - g + 1, 0, 0
  {
    var h := Manhattan(3, state, goal);
    var r := Dls(goal, state, ancestors, storedH, g, limit, visited);
    if g + h > limit {
      assert r.bound == Finite(g + h);
      forall p | Solves(3, p, state, goal)
        ensures NoMore(r.bound, Finite(g + |p| - 1))
      {
        ManhattanAdmissible(3, p, goal);
      }
    } else if state != goal {
      ManhattanNonNegative(3, state, goal);
      SuccessorsAreBoards(3, state);
      var kids := Successors(3, state);
      var k := DlsKids(goal, kids, ancestors + [state], g + 1, limit, visited, Infinite);
      assert r.bound == k.bound && r.path == k.path;
      DlsKidsLowerBound(goal, kids, ancestors + [state], g + 1, limit, visited, Infinite);
      if k.path == [] {
        forall p | Solves(3, p, state, goal)
          ensures NoMore(k.bound, Finite(g + |p| - 1))
        {
          if |p| == 1 {
            assert false;
          } else {
            assert IsSlide(3, p[0], p[1]);
            ThroughChild(goal, kids, k.bound, g + 1, p);
          }
        }
      }
    }
  }

  lemma {:induction false} DlsKidsLowerBound(goal: seq<int>, kids: seq<seq<int>>, ancestors: seq<seq<int>>, g: int,
                                             limit: int, visited: set<seq<int>>, nextLimit: Bound)
    requires forall j :: 0 <= j < |kids| ==> IsBoard(3, kids[j])
    requires IsBoard(3, goal)
    ensures var r := DlsKids(goal, kids, ancestors, g, limit, visited, nextLimit);
      r.path == [] ==>
        && NoMore(r.bound, nextLimit)
        && forall p {:trigger IsMovePath(3, p)} :: IsMovePath(3, p) && p[0] in kids && Last(p) == goal ==> NoMore(r.bound, Finite(g + |p| - 1))
    decreases limit - g + 1, 1, |kids|
  {
    var res := DlsKids(goal, kids, ancestors, g, limit, visited, nextLimit);
    if kids == [] {
      assert res.bound == nextLimit;
    } else {
      var kid := kids[0];
      var r := Dls(goal, kid, ancestors, 0, g, limit, visited + {kid});
      if r.path == [] {
        DlsLowerBound(goal, kid, ancestors, 0, g, limit, visited + {kid});
        var m := Min(nextLimit, r.bound);
        var rest := DlsKids(goal, kids[1..], ancestors, g, limit, r.visited, m);
        assert res.bound == rest.bound && res.path == rest.path;
        DlsKidsLowerBound(goal, kids[1..], ancestors, g, limit, r.visited, m);
        if rest.path == [] {
          forall p | IsMovePath(3, p) && p[0] in kids && Last(p) == goal
            ensures NoMore(rest.bound, Finite(g + |p| - 1))
          {
            if p[0] == kid {
              assert Solves(3, p, kid, goal);
            } else {
              assert p[0] in kids[1..];
            }
          }
        }
      }
    }
  }

  // ---------------------------------------------------------------------------
  // The solver
  // ---------------------------------------------------------------------------

  lemma DlsKidsStep(goal: seq<int>, kids: seq<seq<int>>, i: nat, ancestors: seq<seq<int>>, g: int, limit: int,
                    visited: set<seq<int>>, nextLimit: Bound)
    requires forall j :: 0 <= j < |kids| ==> IsBoard(3, kids[j])
    requires i < |kids|
    ensures var kid := kids[i];
      var dup := if kid in visited then 1 else 0;
      var r := Dls(goal, kid, ancestors, 0, g, limit, visited + {kid});
      DlsKids(goal, kids[i..], ancestors, g, limit, visited, nextLimit) ==
        if r.path != [] then Outcome(r.bound, r.path, r.visited, r.expanded - dup, r.generated, r.hsum)
        else
          var rest := DlsKids(goal, kids[i + 1..], ancestors, g, limit, r.visited, Min(nextLimit, r.bound));
          Outcome(rest.bound, rest.path, rest.visited, r.expanded - dup + rest.expanded,
                  r.generated + rest.generated, r.hsum + rest.hsum)
  {
    assert kids[i..][0] == kids[i];
    assert kids[i..][1..] == kids[i + 1..];
  }

  /** The three ways a call of depthLimitedSearch ends, one equation each. */
  lemma DlsCases(goal: seq<int>, state: seq<int>, ancestors: seq<seq<int>>, storedH: int, g: int, limit: int,
                 visited: set<seq<int>>)
    requires IsBoard(3, state)
    ensures var r := Dls(goal, state, ancestors, storedH, g, limit, visited);
      var h := Manhattan(3, state, goal);
      && (g + h > limit ==> r == Outcome(Finite(g + h), [], visited, 1, 1, storedH))
      && (g + h <= limit && state == goal ==> r == Outcome(Infinite, ancestors + [state], visited, 1, 1, storedH))
      && (g + h <= limit && state != goal ==>
            && (forall j :: 0 <= j < |Successors(3, state)| ==> IsBoard(3, Successors(3, state)[j]))
            && limit - (g + 1) + 1 < limit - g + 1 && 0 <= limit - g + 1
            && var k := DlsKids(goal, Successors(3, state), ancestors + [state], g + 1, limit, visited, Infinite);
               && r.bound == k.bound && r.path == k.path && r.visited == k.visited
               && r.expanded == 1 + k.expanded && r.generated == 1 + k.generated && r.hsum == storedH + k.hsum)
  {
    var h := Manhattan(3, state, goal);
    var r := Dls(goal, state, ancestors, storedH, g, limit, visited);
    if g + h > limit {
      assert r == Outcome(Finite(g + h), [], visited, 1, 1, storedH);
    } else if state == goal {
      assert r == Outcome(Infinite, ancestors + [state], visited, 1, 1, storedH);
    } else {
      ManhattanNonNegative(3, state, goal);
      SuccessorsAreBoards(3, state);
      var k := DlsKids(goal, Successors(3, state), ancestors + [state], g + 1, limit, visited, Infinite);
      assert r.bound == k.bound && r.path == k.path && r.visited == k.visited;
      assert r.expanded == 1 + k.expanded && r.generated == 1 + k.generated && r.hsum == storedH + k.hsum;
    }
  }

  /**
   * One round of idaStar, from the root at depth 0. It counts at least one
   * expansion and adds the root's stored h to heuristic_sum. When every
   * solution has at least `limit` slides, a failed round returns a bound
   * above the limit that is still no more than the slides of any solution,
   * and a found path is a solution no longer than any other.
   */
  lemma Round(goal: seq<int>, start: seq<int>, storedH: int, limit: int, visited: set<seq<int>>) returns (r: Outcome)
    requires IsBoard(3, start) && IsBoard(3, goal)
    requires forall p {:trigger Solves(3, p, start, goal)} :: Solves(3, p, start, goal) ==> limit <= |p| - 1
    ensures r == Dls(goal, start, [], storedH, 0, limit, visited)
    ensures visited <= r.visited && 1 <= r.expanded <= r.generated && r.hsum == storedH
    ensures r.path == [] ==> r.bound.Finite? && r.bound.n > limit
    ensures r.path == [] ==>
      forall p {:trigger Solves(3, p, start, goal)} :: Solves(3, p, start, goal) ==> r.bound.n <= |p| - 1
    ensures r.path != [] ==>
      IsMovePath(3, r.path) && r.path[0] == start && Last(r.path) == goal && |r.path| <= limit + 1
    ensures r.path != [] ==>
      forall p {:trigger Solves(3, p, start, goal)} :: Solves(3, p, start, goal) ==> |r.path| <= |p|
  {
    r := Dls(goal, start, [], storedH, 0, limit, visited);
    DlsBound(goal, start, [], storedH, 0, limit, visited);
    DlsCounts(goal, start, [], storedH, 0, limit, visited);
    assert IsMovePath(3, [] + [start]);
    DlsPath(goal, start, [], storedH, 0, limit, visited);
    DlsLowerBound(goal, start, [], storedH, 0, limit, visited);
    if r.path != [] {
      assert r.path[0] == r.path[..1][0] == start;
    }
  }

  class IDAStar {
    const goalState: seq<int>
    var nodesExpanded: int
    var nodesGenerated: int
    var heuristicSum: int
    var startHeuristic: int

    constructor(goalState: seq<int>)
      ensures this.goalState == goalState
      ensures nodesExpanded == 0 && nodesGenerated == 0 && heuristicSum == 0 && startHeuristic == 0
    {
      this.goalState := goalState;
      nodesExpanded, nodesGenerated, heuristicSum, startHeuristic := 0, 0, 0, 0;
    }

    /**
     * depthLimitedSearch: returns the bound and path Dls gives, leaves the
     * visited set as Dls says and moves the counters by Dls's amounts.
     */
    method DepthLimitedSearch(state: seq<int>, ancestors: seq<seq<int>>, storedH: int, g: int, limit: int,
                              visited: set<seq<int>>)
      returns (bound: Bound, path: seq<seq<int>>, visited2: set<seq<int>>)
      requires IsBoard(3, state)
      modifies this
      decreases limit - g + 1, 0
      ensures var r := Dls(goalState, state, ancestors, storedH, g, limit, visited);
        && bound == r.bound && path == r.path && visited2 == r.visited
        && nodesExpanded == old(nodesExpanded) + r.expanded
        && nodesGenerated == old(nodesGenerated) + r.generated
        && heuristicSum == old(heuristicSum) + r.hsum
      ensures startHeuristic == old(startHeuristic)
    {
      DlsCases(goalState, state, ancestors, storedH, g, limit, visited);
      nodesExpanded := nodesExpanded + 1;
      heuristicSum := heuristicSum + storedH;
      nodesGenerated := nodesGenerated + 1;
      var h := ManhattanDistance(3, state, goalState);
      var f := g + h;
      if f > limit {
        return Finite(f), [], visited;
      }
      if state == goalState {
        return Infinite, ancestors + [state], visited;
      }
      bound, path, visited2 := SearchChildren(Successors(3, state), ancestors + [state], g + 1, limit, visited);
    }

    /**
     * The loop of depthLimitedSearch over the children of a node at depth
     * g - 1: it does what DlsKids says, starting from next_limit = INT_MAX.
     */
    method SearchChildren(children: seq<seq<int>>, ancestors: seq<seq<int>>, g: int, limit: int,
                          visited: set<seq<int>>)
      returns (bound: Bound, path: seq<seq<int>>, visited2: set<seq<int>>)
      requires forall j :: 0 <= j < |children| ==> IsBoard(3, children[j])
      modifies this
      decreases limit - g + 1, 1
      ensures var r := DlsKids(goalState, children, ancestors, g, limit, visited, Infinite);
        && bound == r.bound && path == r.path && visited2 == r.visited
        && nodesExpanded == old(nodesExpanded) + r.expanded
        && nodesGenerated == old(nodesGenerated) + r.generated
        && heuristicSum == old(heuristicSum) + r.hsum
      ensures startHeuristic == old(startHeuristic)
    {
      ghost var full := DlsKids(goalState, children, ancestors, g, limit, visited, Infinite);
      var nextLimit := Infinite;
      visited2 := visited;
      for i := 0 to |children|
        invariant var rest := DlsKids(goalState, children[i..], ancestors, g, limit, visited2, nextLimit);
          && full.bound == rest.bound && full.path == rest.path && full.visited == rest.visited
          && full.expanded == nodesExpanded - old(nodesExpanded) + rest.expanded
          && full.generated == nodesGenerated - old(nodesGenerated) + rest.generated
          && full.hsum == heuristicSum - old(heuristicSum) + rest.hsum
        invariant startHeuristic == old(startHeuristic)
      {
        var kid := children[i];
        DlsKidsStep(goalState, children, i, ancestors, g, limit, visited2, nextLimit);
        if kid in visited2 {
          nodesExpanded := nodesExpanded - 1;
        }
        visited2 := visited2 + {kid};
        var b, p;
        b, p, visited2 := DepthLimitedSearch(kid, ancestors, 0, g, limit, visited2);
        if p != [] {
          return b, p, visited2;
        }
        nextLimit := Min(nextLimit, b);
      }
      assert children[|children|..] == [];
      return nextLimit, [], visited2;
    }

    /**
     * idaStar with at most `fuel` rounds (the source loops until a path is
     * found). The limit starts at the start heuristic and each failed round
     * raises it to the bound that round returned, which is strictly larger;
     * `limits` lists the limit of every round run. A path found is a shortest
     * solution: no move path from the start to the goal has fewer boards.
     * When the rounds run out, every solution needs more moves than the last
     * limit tried, and so more than startHeuristic + fuel.
     */
    method IdaStar(initialState: seq<int>, fuel: nat) returns (path: seq<seq<int>>, ghost limits: seq<int>)
      requires IsBoard(3, initialState) && IsBoard(3, goalState)
      modifies this
      ensures startHeuristic == Manhattan(3, initialState, goalState)
      ensures |limits| <= fuel && (|limits| > 0 ==> limits[0] == startHeuristic)
      ensures forall k :: 0 <= k < |limits| - 1 ==> limits[k] < limits[k + 1]
      ensures path == [] ==> |limits| == fuel
      ensures path == [] ==>
        forall p {:trigger Solves(3, p, initialState, goalState)} :: Solves(3, p, initialState, goalState) ==>
          startHeuristic + fuel <= |p| - 1 && (|limits| > 0 ==> Last(limits) < |p| - 1)
      ensures path != [] ==>
        && path[0] == initialState && Last(path) == goalState && IsMovePath(3, path)
        && |limits| > 0 && |path| <= Last(limits) + 1
      ensures path != [] ==>
        forall p {:trigger Solves(3, p, initialState, goalState)} :: Solves(3, p, initialState, goalState) ==> |path| <= |p|
      ensures heuristicSum == old(heuristicSum) + |limits| * startHeuristic
      ensures old(nodesExpanded) <= nodesExpanded
      ensures nodesExpanded - old(nodesExpanded) <= nodesGenerated - old(nodesGenerated)
    {
      startHeuristic := ManhattanDistance(3, initialState, goalState);
      var storedH := startHeuristic;
      var limit := startHeuristic;
      var visited: set<seq<int>> := {};
      var round := 0;
      path, limits := [], [];
      forall p | Solves(3, p, initialState, goalState)
        ensures limit <= |p| - 1
      {
        ManhattanAdmissible(3, p, goalState);
      }
      while path == [] && round < fuel
        invariant round == |limits| <= fuel
        invariant startHeuristic == Manhattan(3, initialState, goalState) && storedH == startHeuristic
        invariant |limits| > 0 ==> limits[0] == startHeuristic
        invariant |limits| == 0 ==> limit == startHeuristic
        invariant forall k :: 0 <= k < |limits| - 1 ==> limits[k] < limits[k + 1]
        invariant path == [] && |limits| > 0 ==> Last(limits) < limit
        invariant path == [] ==> startHeuristic + |limits| <= limit
        invariant path == [] ==> forall p {:trigger Solves(3, p, initialState, goalState)} :: Solves(3, p, initialState, goalState) ==>
          limit <= |p| - 1
        invariant path != [] ==>
          && path[0] == initialState && Last(path) == goalState && IsMovePath(3, path)
          && |limits| > 0 && |path| <= Last(limits) + 1
        invariant path != [] ==>
          forall p {:trigger Solves(3, p, initialState, goalState)} :: Solves(3, p, initialState, goalState) ==> |path| <= |p|
        invariant heuristicSum == old(heuristicSum) + |limits| * startHeuristic
        invariant old(nodesExpanded) <= nodesExpanded
        invariant nodesExpanded - old(nodesExpanded) <= nodesGenerated - old(nodesGenerated)
        decreases fuel - round
      {
        visited := visited + {initialState};
        ghost var r := Round(goalState, initialState, storedH, limit, visited);
        var b, p;
        b, p, visited := DepthLimitedSearch(initialState, [], storedH, 0, limit, visited);
        assert (|limits| + 1) * startHeuristic == |limits| * startHeuristic + startHeuristic;
        ghost var before := limits;
        limits := limits + [limit];
        forall k | 0 <= k < |limits| - 1 ensures limits[k] < limits[k + 1] {
          if k < |before| - 1 {
            assert limits[k] == before[k] && limits[k + 1] == before[k + 1];
          }
        }
        round := round + 1;
        if p != [] {
          path := p;
        } else {
          limit := b.n;
        }
      }
    }
  }
}
