/**
 * Iterative-deepening depth-first search over the 8-puzzle (idfs.cpp, class
 * IDFSPuzzle).
 *
 * recursive_idfs is a recursive method that bumps nodesCount and, on
 * success, writes depth; it is specified by the pure function Idfs (with
 * TryKids for its loop over the children). A node's parent chain is the chain
 * of recursive calls, carried as the list of boards above it. The root node is
 * created once per IDFS call and keeps its children vector across rounds, so
 * the children already generated by earlier rounds are a parameter, `prior`;
 * every other node is a fresh copy with no children yet.
 */
module Idfs {
  import opened Puzzle

  /**
   * What one call of recursive_idfs gives: the value it returns (the node
   * count of the path found, or -1), the path itself and how much it added
   * to nodesCount.
   */
  datatype Outcome = Outcome(objective: int, path: seq<seq<int>>, count: int)

  predicate Boards(s: seq<seq<int>>) {
    forall j :: 0 <= j < |s| ==> IsBoard(3, s[j])
  }

  /**
   * Every board in `kids` is one slide away from b (stated one
   * child at a time, the way the loop over the children meets them).
   */
  predicate FromBoard(b: seq<int>, kids: seq<seq<int>>)
    decreases |kids|
  {
    kids == [] || (IsSlide(3, b, kids[0]) && FromBoard(b, kids[1..]))
  }

  lemma {:induction false} FromBoardIntro(b: seq<int>, kids: seq<seq<int>>)
    requires forall j :: 0 <= j < |kids| ==> IsSlide(3, b, kids[j])
    ensures FromBoard(b, kids)
    decreases |kids|
  {
    if kids != [] {
      assert forall j :: 0 <= j < |kids[1..]| ==> kids[1..][j] == kids[j + 1];
      FromBoardIntro(b, kids[1..]);
    }
  }

  lemma {:induction false} FromBoardElim(b: seq<int>, kids: seq<seq<int>>)
    requires FromBoard(b, kids)
    ensures forall j :: 0 <= j < |kids| ==> IsSlide(3, b, kids[j])
    decreases |kids|
  {
    if kids != [] {
      FromBoardElim(b, kids[1..]);
      assert forall j :: 1 <= j < |kids| ==> kids[j] == kids[1..][j - 1];
    }
  }

  /** No step of the path undoes the previous one. */
  predicate NoBackStep(p: seq<seq<int>>) {
    forall k :: 0 <= k < |p| - 2 ==> p[k] != p[k + 2]
  }

  /**
   * p is a walk to the goal by slides that never steps straight back to the
   * board before. Reaches and StepsOn spell it out one board at a time.
   */
  predicate Walks(p: seq<seq<int>>, goal: seq<int>) {
    Reaches(p, goal)
  }

  predicate Reaches(p: seq<seq<int>>, goal: seq<int>)
    decreases |p|, 1
  {
    && |p| >= 1
    && (|p| == 1 ==> p[0] == goal)
    && (|p| >= 2 ==> StepsOn(p, goal))
  }

  predicate StepsOn(p: seq<seq<int>>, goal: seq<int>)
    requires |p| >= 2
    decreases |p|, 0
  {
    IsSlide(3, p[0], p[1]) && (|p| >= 3 ==> p[0] != p[2]) && Reaches(p[1..], goal)
  }

  /** A move path to the goal that never steps straight back is such a walk. */
  lemma {:induction false} WalksIntro(p: seq<seq<int>>, goal: seq<int>)
    requires IsMovePath(3, p) && NoBackStep(p) && Last(p) == goal
    ensures Walks(p, goal)
    decreases |p|
  {
    if |p| >= 2 {
      PathTail(p);
      WalksIntro(p[1..], goal);
      if |p| >= 3 {
        assert p[0] != p[2];
      }
      assert StepsOn(p, goal);
    }
  }

    /** m copies of s one after the other. */
  function Repeat(s: seq<seq<int>>, m: nat): seq<seq<int>> {
    if m == 0 then [] else s + Repeat(s, m - 1)
  }

  /** The parent of the current node, when there is one: the last board above it. */
  predicate IsParentBoard(above: seq<seq<int>>, c: seq<int>) {
    above != [] && c == Last(above)
  }

  /**
   * recursive_idfs on a node holding `state` with the boards `above` on its
   * parent chain and `prior` already in its children vector. The goal test
   * comes first and returns the node count of the chain; a budget of zero
   * or less fails at once; otherwise the four moves are appended to the
   * children, the node is counted, and the children are tried in turn with
   * one less budget.
   */
  function Idfs(goal: seq<int>, state: seq<int>, above: seq<seq<int>>, prior: seq<seq<int>>, maxDepth: int): Outcome
    requires IsBoard(3, state) && Boards(prior)
    decreases maxDepth, 2, 0
  {
    if state == goal then
      Outcome(|above| + 1, above + [state], 0)
    else if maxDepth <= 0 then
      Outcome(-1, [], 0)
    else
      var r := Expanded(goal, state, above, prior, maxDepth);
      Outcome(r.objective, r.path, 1 + r.count)
  }

  /** The expanded node: the four moves join its children vector, which is then tried in turn. */
  function Expanded(goal: seq<int>, state: seq<int>, above: seq<seq<int>>, prior: seq<seq<int>>,
                    maxDepth: int): Outcome
    requires IsBoard(3, state) && Boards(prior) && maxDepth > 0
    decreases maxDepth, 1, 0
  {
    SuccessorsAreBoards(3, state);
    TryKids(goal, prior + Successors(3, state), above, state, [], maxDepth).0
  }

  /**
   * The loop over the children vector. A child holding the parent's board is
   * skipped, and so is one equal to a child tried earlier in this call
   * (`tried` is the local solution vector); any other child is searched as a
   * fresh node. A found path is returned at once; a failed child joins
   * `tried`. The second component is `tried` at the end.
   */
  function TryKids(goal: seq<int>, kids: seq<seq<int>>, above: seq<seq<int>>, state: seq<int>,
                   tried: seq<seq<int>>, maxDepth: int): (Outcome, seq<seq<int>>)
    requires Boards(kids) && maxDepth > 0
    decreases maxDepth, 0, |kids|
  {
    if kids == [] then
      (Outcome(-1, [], 0), tried)
    else
      var c := kids[0];
      if IsParentBoard(above, c) || c in tried then
        TryKids(goal, kids[1..], above, state, tried, maxDepth)
      else
        var r := Idfs(goal, c, above + [state], [], maxDepth - 1);
        if r.objective != -1 then
          (r, tried)
        else
          var rest := TryKids(goal, kids[1..], above, state, tried + [c], maxDepth);
          (Outcome(rest.0.objective, rest.0.path, r.count + rest.0.count), rest.1)
  }

  // ---------------------------------------------------------------------------
  // The path found
  // ---------------------------------------------------------------------------

  lemma MovePathExtend(p: seq<seq<int>>, c: seq<int>)
    requires IsMovePath(3, p) && IsSlide(3, Last(p), c)
    ensures IsMovePath(3, p + [c])
  {
    var q := p + [c];
    forall k | 0 <= k < |q| - 1 ensures IsSlide(3, q[k], q[k + 1]) {
      if k < |p| - 1 {
        assert q[k] == p[k] && q[k + 1] == p[k + 1];
      }
    }
  }

  lemma NoBackStepExtend(p: seq<seq<int>>, c: seq<int>)
    requires NoBackStep(p) && |p| >= 1 && (|p| >= 2 ==> c != p[|p| - 2])
    ensures NoBackStep(p + [c])
  {
    var q := p + [c];
    forall k | 0 <= k < |q| - 2 ensures q[k] != q[k + 2] {
      if k < |p| - 2 {
        assert q[k] == p[k] && q[k + 2] == p[k + 2];
      }
    }
  }

  /**
   * What a found result promises: a value other than -1 is the node count of
   * the path, a path of slides that starts with the parent chain `chain`,
   * ends at the goal, never steps straight back, and adds at most `budget`
   * boards to the chain.
   */
  predicate Found(objective: int, path: seq<seq<int>>, chain: seq<seq<int>>, goal: seq<int>, budget: int) {
    objective != -1 ==>
      && objective == |path| && IsMovePath(3, path) && NoBackStep(path)
      && |chain| <= |path| <= |chain| + budget
      && path[..|chain|] == chain && Last(path) == goal
  }

  /** A path found below a child is a path found below its parent, with one more board of budget. */
  lemma FoundAbove(objective: int, path: seq<seq<int>>, chain: seq<seq<int>>, c: seq<int>, goal: seq<int>,
                   budget: int)
    requires Found(objective, path, chain + [c], goal, budget)
    ensures Found(objective, path, chain, goal, budget + 1)
  {
    if objective != -1 {
      assert path[..|chain|] == path[..|chain| + 1][..|chain|];
      assert (chain + [c])[..|chain|] == chain;
    }
  }

  /**
   * A value other than -1 is the node count of the path found. That path
   * extends the chain above the node through `state` to the goal by slides,
   * never steps straight back to the board it came from, and has at most
   * maxDepth more boards than the chain.
   */
  lemma {:induction false} IdfsPath(goal: seq<int>, state: seq<int>, above: seq<seq<int>>, prior: seq<seq<int>>,
                                    maxDepth: int)
    requires IsBoard(3, state) && Boards(prior) && FromBoard(state, prior)
    requires IsMovePath(3, above + [state]) && NoBackStep(above + [state])
    ensures var r := Idfs(goal, state, above, prior, maxDepth);
      Found(r.objective, r.path, above + [state], goal, if maxDepth > 0 then maxDepth else 0)
    decreases maxDepth, 1, 0
  {
    IdfsCases(goal, state, above, prior, maxDepth);
    var r := Idfs(goal, state, above, prior, maxDepth);
    if state == goal {
      assert r.path[..|above| + 1] == above + [state];
    } else if maxDepth > 0 {
      KidsFromBoard(state, prior);
      TryKidsPath(goal, prior + Successors(3, state), above, state, [], maxDepth);
    }
  }

  /** Appending the four moves to children that come from `state` keeps them children of `state`. */
  lemma KidsFromBoard(state: seq<int>, prior: seq<seq<int>>)
    requires IsBoard(3, state) && Boards(prior) && FromBoard(state, prior)
    ensures Boards(prior + Successors(3, state)) && FromBoard(state, prior + Successors(3, state))
  {
    SuccessorsAreBoards(3, state);
    var kids := prior + Successors(3, state);
    FromBoardElim(state, prior);
    forall j | 0 <= j < |kids| ensures IsBoard(3, kids[j]) && IsSlide(3, state, kids[j]) {
      if j >= |prior| {
        assert kids[j] == Successors(3, state)[j - |prior|];
      }
    }
    FromBoardIntro(state, kids);
  }

  lemma {:induction false} TryKidsPath(goal: seq<int>, kids: seq<seq<int>>, above: seq<seq<int>>, state: seq<int>,
                                       tried: seq<seq<int>>, maxDepth: int)
    requires Boards(kids) && FromBoard(state, kids) && maxDepth > 0
    requires IsMovePath(3, above + [state]) && NoBackStep(above + [state])
    ensures var r := TryKids(goal, kids, above, state, tried, maxDepth).0;
      Found(r.objective, r.path, above + [state], goal, maxDepth)
    decreases maxDepth, 0, |kids|
  {
    if kids != [] {
      var c := kids[0];
      var res := TryKids(goal, kids, above, state, tried, maxDepth).0;
      BoardsTail(kids);
      if IsParentBoard(above, c) || c in tried {
        var rest := TryKids(goal, kids[1..], above, state, tried, maxDepth).0;
        assert res.objective == rest.objective && res.path == rest.path;
        TryKidsPath(goal, kids[1..], above, state, tried, maxDepth);
      } else {
        ChildPath(goal, c, above, state, maxDepth);
        var r := Idfs(goal, c, above + [state], [], maxDepth - 1);
        if r.objective != -1 {
          assert res.objective == r.objective && res.path == r.path;
        } else {
          var rest := TryKids(goal, kids[1..], above, state, tried + [c], maxDepth).0;
          assert res.objective == rest.objective && res.path == rest.path;
          TryKidsPath(goal, kids[1..], above, state, tried + [c], maxDepth);
        }
      }
    }
  }

  /** The search below a child that is not the parent's board finds only paths through that child. */
  lemma {:induction false} ChildPath(goal: seq<int>, c: seq<int>, above: seq<seq<int>>, state: seq<int>,
                                     maxDepth: int)
    requires IsBoard(3, c) && IsSlide(3, state, c) && !IsParentBoard(above, c) && maxDepth > 0
    requires IsMovePath(3, above + [state]) && NoBackStep(above + [state])
    ensures var r := Idfs(goal, c, above + [state], [], maxDepth - 1);
      Found(r.objective, r.path, above + [state], goal, maxDepth)
    decreases maxDepth, 0, 0
  {
    var a := above + [state];
    MovePathExtend(a, c);
    NoBackStepExtend(a, c);
    IdfsPath(goal, c, a, [], maxDepth - 1);
    var r := Idfs(goal, c, a, [], maxDepth - 1);
    FoundAbove(r.objective, r.path, a, c, goal, maxDepth - 1);
  }

  lemma BoardsTail(kids: seq<seq<int>>)
    requires Boards(kids) && kids != []
    ensures Boards(kids[1..])
  {
    forall j | 0 <= j < |kids[1..]| ensures IsBoard(3, kids[1..][j]) {
      assert kids[1..][j] == kids[j + 1];
    }
  }

  // ---------------------------------------------------------------------------
  // nodesCount
  // ---------------------------------------------------------------------------

  /**
   * A call found at the goal, or with no budget left, counts nothing; any
   * other call counts itself once and whatever its children count.
   */
  lemma {:induction false} IdfsCount(goal: seq<int>, state: seq<int>, above: seq<seq<int>>, prior: seq<seq<int>>,
                                     maxDepth: int)
    requires IsBoard(3, state) && Boards(prior)
    ensures var r := Idfs(goal, state, above, prior, maxDepth);
      && (state == goal || maxDepth <= 0 ==> r.count == 0)
      && (state != goal && maxDepth > 0 ==> r.count >= 1)
    decreases maxDepth, 1, 0
  {
    if state != goal && maxDepth > 0 {
      SuccessorsAreBoards(3, state);
      TryKidsCount(goal, prior + Successors(3, state), above, state, [], maxDepth);
    }
  }

  lemma {:induction false} TryKidsCount(goal: seq<int>, kids: seq<seq<int>>, above: seq<seq<int>>, state: seq<int>,
                                        tried: seq<seq<int>>, maxDepth: int)
    requires Boards(kids) && maxDepth > 0
    ensures TryKids(goal, kids, above, state, tried, maxDepth).0.count >= 0
    decreases maxDepth, 0, |kids|
  {
    if kids != [] {
      var c := kids[0];
      if IsParentBoard(above, c) || c in tried {
        TryKidsCount(goal, kids[1..], above, state, tried, maxDepth);
      } else {
        IdfsCount(goal, c, above + [state], [], maxDepth - 1);
        TryKidsCount(goal, kids[1..], above, state, tried + [c], maxDepth);
      }
    }
  }

  // ---------------------------------------------------------------------------
  // Completeness up to the depth cap
  // ---------------------------------------------------------------------------

  /**
   * If some path from `state` to the goal fits in the budget and never steps
   * straight back (in particular not to the parent's board), the call finds
   * a path. Children skipped as repeats of tried siblings have already
   * failed with the same budget, so skipping them loses nothing.
   */
  lemma {:induction false} IdfsComplete(goal: seq<int>, state: seq<int>, above: seq<seq<int>>, prior: seq<seq<int>>,
                                        maxDepth: int, p: seq<seq<int>>)
    requires IsBoard(3, state) && Boards(prior)
    requires Walks(p, goal) && p[0] == state && |p| - 1 <= maxDepth
    requires |p| >= 2 ==> !IsParentBoard(above, p[1])
    ensures Finds(goal, state, above, prior, maxDepth)
    decreases |p|
  {
    if state != goal {
      var c, q := ChildFacts(p, above, goal);
      IdfsComplete(goal, c, above + [state], [], maxDepth - 1, q);
      ExpandFinds(goal, state, above, prior, maxDepth, p);
    }
  }

  /** The rest of a walk is a walk from the child, one board shorter, that does not step back to its parent. */
  lemma ChildFacts(p: seq<seq<int>>, above: seq<seq<int>>, goal: seq<int>) returns (c: seq<int>, q: seq<seq<int>>)
    requires Walks(p, goal) && IsBoard(3, p[0]) && p[0] != goal && |p| >= 2 && !IsParentBoard(above, p[1])
    ensures c == p[1] && q == p[1..] && |q| == |p| - 1
    ensures IsBoard(3, c) && !IsParentBoard(above, c)
    ensures Walks(q, goal) && q[0] == c
    ensures |q| >= 2 ==> !IsParentBoard(above + [p[0]], q[1])
  {
    assert StepsOn(p, goal);
    c, q := p[1], p[1..];
    SlideStep(3, p[0], c);
    if |q| >= 2 {
      assert q[1] == p[2];
      ParentOfChild(above, p[0], q[1]);
    }
  }

  /**
   * A node other than the goal, with budget left, finds a path when one of
   * its moves, other than back to its parent's board, leads to a child that
   * finds one.
   */
  lemma ExpandFinds(goal: seq<int>, state: seq<int>, above: seq<seq<int>>, prior: seq<seq<int>>, maxDepth: int,
                    p: seq<seq<int>>)
    requires IsBoard(3, state) && Boards(prior) && state != goal && maxDepth > 0
    requires Walks(p, goal) && |p| >= 2 && p[0] == state
    requires IsBoard(3, p[1]) && !IsParentBoard(above, p[1])
    requires !Fails(goal, p[1], above + [state], maxDepth - 1)
    ensures Finds(goal, state, above, prior, maxDepth)
  {
    assert StepsOn(p, goal);
    var c := p[1];
    IdfsCases(goal, state, above, prior, maxDepth);
    var kids := prior + Successors(3, state);
    var i :| 0 <= i < |Successors(3, state)| && Successors(3, state)[i] == c;
    assert kids[|prior| + i] == c;
    TryKidsComplete(goal, kids, above, state, [], maxDepth, |prior| + i);
  }

  /** Dropping the first board of a path that never steps back leaves such a path, to the same end. */
  lemma PathTail(p: seq<seq<int>>)
    requires IsMovePath(3, p) && NoBackStep(p) && |p| >= 2
    ensures IsSlide(3, p[0], p[1]) && IsMovePath(3, p[1..]) && NoBackStep(p[1..]) && Last(p[1..]) == Last(p)
    ensures |p| >= 3 ==> p[1..][1] != p[0]
  {
    var q := p[1..];
    assert IsSlide(3, p[0], p[0 + 1]);
    forall k | 0 <= k < |q| - 1 ensures IsSlide(3, q[k], q[k + 1]) {
      assert IsSlide(3, p[k + 1], p[k + 2]);
    }
    forall k | 0 <= k < |q| - 2 ensures q[k] != q[k + 2] {
      assert p[k + 1] != p[k + 3];
    }
    if |p| >= 3 {
      assert p[0] != p[2];
    }
  }

  /** The parent of a child of `state` holds `state`. */
  lemma ParentOfChild(above: seq<seq<int>>, state: seq<int>, x: seq<int>)
    ensures IsParentBoard(above + [state], x) <==> x == state
  {
    assert Last(above + [state]) == state;
  }

  /** Every board in `tried` failed as a child of the chain with the given budget. */
  /** The call of recursive_idfs returns a path. */
  predicate Finds(goal: seq<int>, state: seq<int>, above: seq<seq<int>>, prior: seq<seq<int>>, maxDepth: int)
    requires IsBoard(3, state) && Boards(prior)
  {
    Idfs(goal, state, above, prior, maxDepth).objective != -1
  }

  /** The search of a fresh node holding c below the chain fails with the given budget. */
  predicate Fails(goal: seq<int>, c: seq<int>, chain: seq<seq<int>>, budget: int)
    requires IsBoard(3, c)
  {
    !Finds(goal, c, chain, [], budget)
  }

  predicate AllFail(goal: seq<int>, tried: seq<seq<int>>, chain: seq<seq<int>>, budget: int)
    requires Boards(tried)
  {
    forall i :: 0 <= i < |tried| ==> Fails(goal, tried[i], chain, budget)
  }

  lemma AllFailExtend(goal: seq<int>, tried: seq<seq<int>>, c: seq<int>, chain: seq<seq<int>>, budget: int)
    requires Boards(tried) && IsBoard(3, c) && AllFail(goal, tried, chain, budget) && Fails(goal, c, chain, budget)
    ensures Boards(tried + [c]) && AllFail(goal, tried + [c], chain, budget)
  {
    var t := tried + [c];
    forall i | 0 <= i < |t| ensures IsBoard(3, t[i]) && Fails(goal, t[i], chain, budget) {
      if i < |tried| {
        assert t[i] == tried[i];
      }
    }
  }

  /**
   * The loop finds a path when one of the children, not the parent's board,
   * finds one: the children skipped before it as repeats are copies of
   * siblings that already failed, so the loop reaches it or a success
   * before it.
   */
  lemma {:induction false} TryKidsComplete(goal: seq<int>, kids: seq<seq<int>>, above: seq<seq<int>>,
                                           state: seq<int>, tried: seq<seq<int>>, maxDepth: int, j: nat)
    requires Boards(kids) && Boards(tried) && maxDepth > 0
    requires AllFail(goal, tried, above + [state], maxDepth - 1)
    requires j < |kids| && !IsParentBoard(above, kids[j])
    requires !Fails(goal, kids[j], above + [state], maxDepth - 1)
    ensures TryKids(goal, kids, above, state, tried, maxDepth).0.objective != -1
    decreases |kids|
  {
    var c := kids[0];
    BoardsTail(kids);
    if j == 0 {
      if c in tried {
        assert false;
      }
    } else {
      assert kids[1..][j - 1] == kids[j];
      if IsParentBoard(above, c) || c in tried {
        TryKidsComplete(goal, kids[1..], above, state, tried, maxDepth, j - 1);
      } else if Fails(goal, c, above + [state], maxDepth - 1) {
        AllFailExtend(goal, tried, c, above + [state], maxDepth - 1);
        TryKidsComplete(goal, kids[1..], above, state, tried + [c], maxDepth, j - 1);
      }
    }
  }

  /**
   * Any move path can be shortened to one with the same ends that never
   * steps straight back: cutting out a step and its undoing keeps it a path.
   */
  lemma {:induction false} DropBackSteps(p: seq<seq<int>>) returns (q: seq<seq<int>>)
    requires IsMovePath(3, p) && |p| > 0
    ensures IsMovePath(3, q) && NoBackStep(q) && |q| <= |p| && |q| > 0
    ensures q[0] == p[0] && Last(q) == Last(p)
    decreases |p|
  {
    if NoBackStep(p) {
      return p;
    }
    var k :| 0 <= k < |p| - 2 && p[k] == p[k + 2];
    var s := CutBackStep(p, k);
    q := DropBackSteps(s);
  }

  /** Cutting p[k + 1] and p[k + 2] out of a move path with p[k] == p[k + 2] leaves a move path with the same ends. */
  lemma CutBackStep(p: seq<seq<int>>, k: nat) returns (s: seq<seq<int>>)
    requires IsMovePath(3, p) && k < |p| - 2 && p[k] == p[k + 2]
    ensures IsMovePath(3, s) && |s| == |p| - 2 && s[0] == p[0] && Last(s) == Last(p)
  {
    s := p[..k + 1] + p[k + 3..];
    assert forall i :: 0 <= i <= k ==> s[i] == p[i];
    assert forall i :: k < i < |s| ==> s[i] == p[i + 2];
    forall i | 0 <= i < |s| - 1 ensures IsSlide(3, s[i], s[i + 1]) {
      if i < k {
        assert IsSlide(3, p[i], p[i + 1]);
      } else {
        assert IsSlide(3, p[i + 2], p[i + 3]);
      }
    }
    assert Last(s) == Last(p) by {
      if k + 3 == |p| {
        assert Last(s) == p[k];
      }
    }
  }

  /**
   * A round from the root that fails with cap `cap` proves that no move path
   * from the start to the goal has cap + 1 boards or fewer.
   */
  lemma FailedRound(goal: seq<int>, start: seq<int>, prior: seq<seq<int>>, cap: int)
    requires IsBoard(3, start) && IsBoard(3, goal) && Boards(prior)
    requires Idfs(goal, start, [], prior, cap).objective == -1
    ensures forall p {:trigger Solves(3, p, start, goal)} :: Solves(3, p, start, goal) ==> |p| > cap + 1
  {
    forall p | Solves(3, p, start, goal)
      ensures |p| > cap + 1
    {
      var q := DropBackSteps(p);
      WalksIntro(q, goal);
      if |q| - 1 <= cap {
        IdfsComplete(goal, start, [], prior, cap, q);
      }
    }
  }

  /**
   * What one round of IDFS from the root with the given cap yields: the count
   * is never negative, a path found has at most cap + 1 boards and leads from
   * the start to the goal, and a failure means no path to the goal has cap + 1
   * boards or fewer.
   */
  ghost predicate RoundOutcome(r: Outcome, start: seq<int>, goal: seq<int>, cap: int) {
    && r.count >= 0
    && (start == goal ==> r.objective == 1 && r.count == 0)
    && (r.objective != -1 ==>
          && r.objective == |r.path| && 0 < |r.path| <= (if cap > 0 then cap else 0) + 1
          && r.path[0] == start && Last(r.path) == goal && IsMovePath(3, r.path))
    && (r.objective == -1 ==>
          forall p {:trigger Solves(3, p, start, goal)} :: Solves(3, p, start, goal) ==> |p| > cap + 1)
  }

  lemma RoundFacts(goal: seq<int>, start: seq<int>, prior: seq<seq<int>>, cap: int) returns (r: Outcome)
    requires IsBoard(3, start) && IsBoard(3, goal) && Boards(prior) && FromBoard(start, prior)
    ensures r == Idfs(goal, start, [], prior, cap) && RoundOutcome(r, start, goal, cap)
  {
    r := Idfs(goal, start, [], prior, cap);
    IdfsCount(goal, start, [], prior, cap);
    assert IsMovePath(3, [] + [start]);
    IdfsPath(goal, start, [], prior, cap);
    if r.objective != -1 {
      assert r.path[0] == r.path[..1][0] == start;
    } else {
      FailedRound(goal, start, prior, cap);
    }
  }

  /** The round after `rounds` earlier ones, whose expansions left that many copies of the moves in the root's vector. */
  lemma RootRound(goal: seq<int>, start: seq<int>, rounds: nat, cap: int) returns (r: Outcome)
    requires IsBoard(3, start) && IsBoard(3, goal)
    ensures Boards(Repeat(Successors(3, start), rounds))
    ensures r == Idfs(goal, start, [], Repeat(Successors(3, start), rounds), cap) && RoundOutcome(r, start, goal, cap)
  {
    RootChildren(start, rounds);
    r := RoundFacts(goal, start, Repeat(Successors(3, start), rounds), cap);
  }

  /**
   * The nodes counted by the first n rounds, with caps 0 to n - 1. Round c
   * starts with the moves its c - 1 expanding predecessors left in the
   * root's children vector. A goal start counts nothing; otherwise every
   * round after the first counts at least the root.
   */
  function RoundsCount(goal: seq<int>, start: seq<int>, n: nat): (total: int)
    requires IsBoard(3, start)
    ensures start == goal ==> total == 0
    ensures start != goal ==> total >= n - 1
  {
    if n == 0 then 0 else RoundsCount(goal, start, n - 1) + RootCount(goal, start, n - 1)
  }

  /**
   * The nodes counted by the root round with the given cap, whose children
   * vector holds one copy of the moves per earlier expanding round.
   */
  function RootCount(goal: seq<int>, start: seq<int>, cap: nat): (count: int)
    requires IsBoard(3, start)
    ensures start == goal || cap == 0 ==> count == 0
    ensures start != goal && cap > 0 ==> count >= 1
  {
    var m := if cap == 0 then 0 else cap - 1;
    RootChildren(start, m);
    IdfsCount(goal, start, [], Repeat(Successors(3, start), m), cap);
    Idfs(goal, start, [], Repeat(Successors(3, start), m), cap).count
  }

  // ---------------------------------------------------------------------------
  // The root keeps its children across rounds
  // ---------------------------------------------------------------------------

  lemma {:induction false} RepeatFacts(s: seq<seq<int>>, m: nat)
    ensures forall i :: 0 <= i < |Repeat(s, m)| ==> Repeat(s, m)[i] in s
    ensures Boards(s) ==> Boards(Repeat(s, m))
    ensures Repeat(s, m) + s == s + Repeat(s, m)
  {
    if m > 0 {
      RepeatFacts(s, m - 1);
      var r := Repeat(s, m - 1);
      assert Repeat(s, m) == s + r;
      forall i | 0 <= i < |s + r| ensures (s + r)[i] in s {
        if i >= |s| {
          assert (s + r)[i] == r[i - |s|];
        }
      }
      calc {
        Repeat(s, m) + s;
        (s + r) + s;
        s + (r + s);
        s + (s + r);
        s + Repeat(s, m);
      }
    }
  }

  /**
   * A failed loop leaves every child either in `tried` or holding the
   * parent's board, keeps what `tried` held, and returns no path.
   */
  lemma {:induction false} TryKidsFail(goal: seq<int>, kids: seq<seq<int>>, above: seq<seq<int>>, state: seq<int>,
                                       tried: seq<seq<int>>, maxDepth: int)
    requires Boards(kids) && maxDepth > 0
    ensures var res := TryKids(goal, kids, above, state, tried, maxDepth);
      res.0.objective == -1 ==>
        && res.0.path == []
        && (forall t :: t in tried ==> t in res.1)
        && forall i :: 0 <= i < |kids| ==> kids[i] in res.1 || IsParentBoard(above, kids[i])
    decreases |kids|
  {
    if kids != [] {
      var c := kids[0];
      if IsParentBoard(above, c) || c in tried {
        TryKidsFail(goal, kids[1..], above, state, tried, maxDepth);
        assert forall i :: 1 <= i < |kids| ==> kids[i] == kids[1..][i - 1];
      } else if Idfs(goal, c, above + [state], [], maxDepth - 1).objective == -1 {
        TryKidsFail(goal, kids[1..], above, state, tried + [c], maxDepth);
        assert forall i :: 1 <= i < |kids| ==> kids[i] == kids[1..][i - 1];
      }
    }
  }

  /** A loop over children that were all tried already, or hold the parent's board, does nothing. */
  lemma {:induction false} TryKidsAllSkipped(goal: seq<int>, kids: seq<seq<int>>, above: seq<seq<int>>,
                                             state: seq<int>, tried: seq<seq<int>>, maxDepth: int)
    requires Boards(kids) && maxDepth > 0
    requires forall i :: 0 <= i < |kids| ==> kids[i] in tried || IsParentBoard(above, kids[i])
    ensures var res := TryKids(goal, kids, above, state, tried, maxDepth);
      res.0.objective == -1 && res.0.path == [] && res.0.count == 0 && res.1 == tried
    decreases |kids|
  {
    if kids != [] {
      assert forall i :: 0 <= i < |kids[1..]| ==> kids[1..][i] == kids[i + 1];
      TryKidsAllSkipped(goal, kids[1..], above, state, tried, maxDepth);
    }
  }

  /** The loop over xs + ys is the loop over xs and, if that fails, the loop over ys after it. */
  lemma {:induction false} TryKidsConcat(goal: seq<int>, xs: seq<seq<int>>, ys: seq<seq<int>>,
                                         above: seq<seq<int>>, state: seq<int>, tried: seq<seq<int>>,
                                         maxDepth: int)
    requires Boards(xs) && Boards(ys) && maxDepth > 0
    ensures Boards(xs + ys)
    ensures var a := TryKids(goal, xs, above, state, tried, maxDepth);
      var b := TryKids(goal, ys, above, state, a.1, maxDepth);
      var whole := TryKids(goal, xs + ys, above, state, tried, maxDepth);
      && (a.0.objective != -1 ==>
            whole.0.objective == a.0.objective && whole.0.path == a.0.path && whole.0.count == a.0.count)
      && (a.0.objective == -1 ==>
            && whole.0.objective == b.0.objective && whole.0.path == b.0.path
            && whole.0.count == a.0.count + b.0.count && whole.1 == b.1)
    decreases |xs|
  {
    assert Boards(xs + ys) by {
      forall i | 0 <= i < |xs + ys| ensures IsBoard(3, (xs + ys)[i]) {
        if i >= |xs| {
          assert (xs + ys)[i] == ys[i - |xs|];
        }
      }
    }
    if xs != [] {
      assert (xs + ys)[0] == xs[0];
      assert (xs + ys)[1..] == xs[1..] + ys;
      var c := xs[0];
      if IsParentBoard(above, c) || c in tried {
        TryKidsConcat(goal, xs[1..], ys, above, state, tried, maxDepth);
      } else if Idfs(goal, c, above + [state], [], maxDepth - 1).objective == -1 {
        TryKidsConcat(goal, xs[1..], ys, above, state, tried + [c], maxDepth);
      }
    } else {
      assert xs + ys == ys;
    }
  }

  /** Children reached from b by one slide, joined, are still such children. */
  lemma {:induction false} FromBoardConcat(b: seq<int>, xs: seq<seq<int>>, ys: seq<seq<int>>)
    requires FromBoard(b, xs) && FromBoard(b, ys)
    ensures FromBoard(b, xs + ys)
    decreases |xs|
  {
    if xs == [] {
      assert xs + ys == ys;
    } else {
      FromBoardConcat(b, xs[1..], ys);
      assert (xs + ys)[0] == xs[0] && (xs + ys)[1..] == xs[1..] + ys;
    }
  }

  lemma {:induction false} RepeatFromBoard(b: seq<int>, s: seq<seq<int>>, m: nat)
    requires FromBoard(b, s)
    ensures FromBoard(b, Repeat(s, m))
  {
    if m > 0 {
      RepeatFromBoard(b, s, m - 1);
      FromBoardConcat(b, s, Repeat(s, m - 1));
    }
  }

  /** Any number of copies of a board's moves are boards reached from it by one slide. */
  lemma RootChildren(state: seq<int>, m: nat)
    requires IsBoard(3, state)
    ensures Boards(Repeat(Successors(3, state), m)) && FromBoard(state, Repeat(Successors(3, state), m))
  {
    var s := Successors(3, state);
    KidsFromBoard(state, []);
    assert [] + s == s;
    RepeatFromBoard(state, s, m);
    RepeatFacts(s, m);
  }

  /** The root's children vector after the round with the given cap: one more copy of the moves, unless the cap is 0. */
  lemma RepeatNext(s: seq<seq<int>>, prior: seq<seq<int>>, cap: int)
    requires cap >= 0 && prior == Repeat(s, if cap == 0 then 0 else cap - 1)
    ensures (if cap > 0 then prior + s else prior) == Repeat(s, cap)
  {
    if cap > 0 {
      RepeatFacts(s, cap - 1);
    }
  }

  /**
   * Children repeated after the ones already looped over change nothing:
   * each of them was tried before, so the loop skips it.
   */
  lemma TryKidsReuse(goal: seq<int>, s: seq<seq<int>>, r: seq<seq<int>>, above: seq<seq<int>>, state: seq<int>,
                     maxDepth: int)
    requires Boards(s) && Boards(r) && maxDepth > 0
    requires forall i :: 0 <= i < |r| ==> r[i] in s
    ensures Boards(s + r)
    ensures var whole := TryKids(goal, s + r, above, state, [], maxDepth).0;
      var once := TryKids(goal, s, above, state, [], maxDepth).0;
      whole.objective == once.objective && whole.path == once.path && whole.count == once.count
  {
    TryKidsConcat(goal, s, r, above, state, [], maxDepth);
    var a := TryKids(goal, s, above, state, [], maxDepth);
    if a.0.objective == -1 {
      TryKidsFail(goal, s, above, state, [], maxDepth);
      forall i | 0 <= i < |r| ensures r[i] in a.1 || IsParentBoard(above, r[i]) {
        var j :| 0 <= j < |s| && s[j] == r[i];
      }
      TryKidsAllSkipped(goal, r, above, state, a.1, maxDepth);
    }
  }

  /**
   * The children the root piles up over earlier rounds change nothing: with m
   * earlier expansions behind it, the root searches exactly as a fresh node
   * would, because every repeated child equals a sibling already tried.
   */
  lemma RootReuse(goal: seq<int>, state: seq<int>, above: seq<seq<int>>, m: nat, maxDepth: int)
    requires IsBoard(3, state)
    ensures Boards(Repeat(Successors(3, state), m))
    ensures var again := Idfs(goal, state, above, Repeat(Successors(3, state), m), maxDepth);
      var once := Idfs(goal, state, above, [], maxDepth);
      again.objective == once.objective && again.path == once.path && again.count == once.count
  {
    var s := Successors(3, state);
    SuccessorsAreBoards(3, state);
    RepeatFacts(s, m);
    var r := Repeat(s, m);
    IdfsCases(goal, state, above, r, maxDepth);
    IdfsCases(goal, state, above, [], maxDepth);
    if state != goal && maxDepth > 0 {
      assert [] + s == s;
      TryKidsReuse(goal, s, r, above, state, maxDepth);
    }
  }

  // ---------------------------------------------------------------------------
  // manhattan_distance_matrix
  // ---------------------------------------------------------------------------

  /** C++ integer division on ints: the quotient truncated toward zero (n > 0). */
  function CDiv(a: int, n: int): int
    requires n > 0
  {
    if a >= 0 then a / n else -((-a) / n)
  }

  /** C++ %: the remainder taking the sign of the dividend (n > 0). */
  function CMod(a: int, n: int): int
    requires n > 0
  {
    a - n * CDiv(a, n)
  }

  /** The contribution of the tile `num` at row i, column j: its distance to row num / 3, column num % 3. */
  function Cell(i: int, j: int, num: int): int {
    if num == 0 then 0 else Abs(i - CDiv(num, 3)) + Abs(j - CMod(num, 3))
  }

  /** The grid read row by row. */
  function RowMajor(puzzle: array2<int>): seq<int>
    requires puzzle.Length0 == 3 && puzzle.Length1 == 3
    reads puzzle
  {
    seq(9, k requires 0 <= k < 9 reads puzzle => puzzle[k / 3, k % 3])
  }

  /** The cell contributions of a flattened 3x3 grid, in row-major order. */
  function Cells(s: seq<int>): seq<int>
  {
    seq(|s|, k requires 0 <= k < |s| => Cell(k / 3, k % 3, s[k]))
  }

  /** manhattan_distance_matrix: the sum over the grid, row by row, of every tile's distance to its home cell. */
  method ManhattanDistanceMatrix(puzzle: array2<int>) returns (sum: int)
    requires puzzle.Length0 == 3 && puzzle.Length1 == 3
    ensures sum == Sum(Cells(RowMajor(puzzle)))
  {
    ghost var ts := Cells(RowMajor(puzzle));
    sum := 0;
    var n := 3;
    for i := 0 to n
      invariant sum == Sum(ts[..3 * i])
    {
      for j := 0 to n
        invariant sum == Sum(ts[..3 * i + j])
      {
        var num := puzzle[i, j];
        DivModUnique(3 * i + j, 3, i, j);
        assert ts[3 * i + j] == Cell(i, j, num);
        assert ts[..3 * i + j + 1][..3 * i + j] == ts[..3 * i + j];
        if num == 0 {
          continue;
        }
        var rowGoal := CDiv(num, n);
        var colGoal := CMod(num, n);
        var rowDiff := Abs(i - rowGoal);
        var colDiff := Abs(j - colGoal);
        sum := sum + rowDiff + colDiff;
      }
    }
    assert ts[..9] == ts;
  }

  lemma {:induction false} SumPointwise(xs: seq<int>, ys: seq<int>)
    requires |xs| == |ys| && forall k :: 0 <= k < |xs| ==> xs[k] == ys[k]
    ensures Sum(xs) == Sum(ys)
  {
    assert xs == ys;
  }

  /**
   * On a grid holding only tiles 0 .. 8, the matrix version agrees with
   * manhattanDistanceIDFS against the goal 0, 1, ..., 8 read row by row.
   */
  lemma MatrixIsManhattan(s: seq<int>)
    requires |s| == 9 && forall k :: 0 <= k < 9 ==> 0 <= s[k] < 9
    ensures Sum(Cells(s)) == Manhattan(3, s, Goal(9))
  {
    var g := Goal(9);
    forall k | 0 <= k < 9 ensures Cells(s)[k] == Terms(3, s, g)[k] {
      IndexOfDistinct(g, s[k]);
      assert g[s[k]] == s[k];
    }
    SumPointwise(Cells(s), Terms(3, s, g));
  }

  // ---------------------------------------------------------------------------
  // The solver
  // ---------------------------------------------------------------------------

  /**
   * traceSolution: push the goal, then each parent up to the root, reverse
   * the vector, and count its entries. The parent chain of the goal node is
   * `above` followed by the goal itself.
   */
  method TraceSolution(above: seq<seq<int>>, goal: seq<int>) returns (solution: seq<seq<int>>, depth: int)
    ensures solution == above + [goal] && depth == |solution|
  {
    var chain := above + [goal];
    var up := [goal];
    var k := |chain| - 1;
    while k > 0
      invariant 0 <= k < |chain| && |up| == |chain| - k
      invariant forall t :: 0 <= t < |up| ==> up[t] == chain[|chain| - 1 - t]
    {
      k := k - 1;
      up := up + [chain[k]];
    }
    solution := [];
    var i := |up|;
    while i > 0
      invariant 0 <= i <= |up| && |solution| == |up| - i
      invariant forall t :: 0 <= t < |solution| ==> solution[t] == up[|up| - 1 - t]
    {
      i := i - 1;
      solution := solution + [up[i]];
    }
    depth := 0;
    for t := 0 to |solution|
      invariant depth == t
    {
      depth := depth + 1;
    }
  }

  /** The three ways a call of recursive_idfs ends, one equation each. */
  lemma IdfsCases(goal: seq<int>, state: seq<int>, above: seq<seq<int>>, prior: seq<seq<int>>, maxDepth: int)
    requires IsBoard(3, state) && Boards(prior)
    ensures var r := Idfs(goal, state, above, prior, maxDepth);
      && (state == goal ==> r.objective == |above| + 1 && r.path == above + [state] && r.count == 0)
      && (state != goal && maxDepth <= 0 ==> r.objective == -1 && r.count == 0)
      && (state != goal && maxDepth > 0 ==>
            && Boards(prior + Successors(3, state))
            && var k := TryKids(goal, prior + Successors(3, state), above, state, [], maxDepth).0;
               r.objective == k.objective && r.path == k.path && r.count == 1 + k.count)
  {
    var r := Idfs(goal, state, above, prior, maxDepth);
    if state != goal && maxDepth > 0 {
      SuccessorsAreBoards(3, state);
      var kids := prior + Successors(3, state);
      var e := Expanded(goal, state, above, prior, maxDepth);
      var k := TryKids(goal, kids, above, state, [], maxDepth).0;
      assert e.objective == k.objective && e.path == k.path && e.count == k.count;
      assert r.objective == e.objective && r.path == e.path && r.count == 1 + e.count;
    }
  }

  lemma TryKidsStep(goal: seq<int>, kids: seq<seq<int>>, i: nat, above: seq<seq<int>>, state: seq<int>,
                    tried: seq<seq<int>>, maxDepth: int)
    requires Boards(kids) && maxDepth > 0 && i < |kids|
    ensures Boards(kids[i..]) && Boards(kids[i + 1..])
    ensures var c := kids[i];
      var here := TryKids(goal, kids[i..], above, state, tried, maxDepth);
      if IsParentBoard(above, c) || c in tried then
        here == TryKids(goal, kids[i + 1..], above, state, tried, maxDepth)
      else
        var r := Idfs(goal, c, above + [state], [], maxDepth - 1);
        if r.objective != -1 then here == (r, tried)
        else
          var rest := TryKids(goal, kids[i + 1..], above, state, tried + [c], maxDepth);
          && here.0.objective == rest.0.objective && here.0.path == rest.0.path
          && here.0.count == r.count + rest.0.count && here.1 == rest.1
  {
    assert kids[i..][0] == kids[i];
    assert kids[i..][1..] == kids[i + 1..];
    var c := kids[i];
    if !(IsParentBoard(above, c) || c in tried) {
      var r := Idfs(goal, c, above + [state], [], maxDepth - 1);
      if r.objective == -1 {
        var rest := TryKids(goal, kids[i + 1..], above, state, tried + [c], maxDepth);
        var here := TryKids(goal, kids[i..], above, state, tried, maxDepth);
      }
    }
  }

  class IDFSPuzzle {
    const finalVector: seq<int>
    var depth: int
    var nodesCount: int

    constructor(finalVector: seq<int>)
      ensures this.finalVector == finalVector && depth == 0 && nodesCount == 0
    {
      this.finalVector := finalVector;
      depth, nodesCount := 0, 0;
    }

    /**
     * recursive_idfs: returns what Idfs returns, adds its count to
     * nodesCount, writes depth only when a path is found, and leaves the
     * node's children vector with the four moves appended when it expanded
     * the node.
     */
    method RecursiveIdfs(maxDepth: int, state: seq<int>, above: seq<seq<int>>, children: seq<seq<int>>)
      returns (objective: int, children2: seq<seq<int>>)
      requires IsBoard(3, state) && Boards(children)
      modifies this
      decreases maxDepth, 1
      ensures var r := Idfs(finalVector, state, above, children, maxDepth);
        && objective == r.objective
        && nodesCount == old(nodesCount) + r.count
        && depth == (if r.objective != -1 then r.objective else old(depth))
      ensures children2 == if state == finalVector || maxDepth <= 0 then children
                           else children + Successors(3, state)
    {
      IdfsCases(finalVector, state, above, children, maxDepth);
      if state == finalVector {
        var solution;
        solution, depth := TraceSolution(above, state);
        return depth, children;
      }
      children2 := children;
      objective := -1;
      if maxDepth > 0 {
        children2 := children2 + Successors(3, state);
        nodesCount := nodesCount + 1;
        objective := TryChildren(maxDepth, state, above, children2);
      }
    }

    /** The loop of recursive_idfs over the node's children vector, with an empty solution vector to start. */
    method TryChildren(maxDepth: int, state: seq<int>, above: seq<seq<int>>, children: seq<seq<int>>)
      returns (objective: int)
      requires Boards(children) && maxDepth > 0
      modifies this
      decreases maxDepth, 0
      ensures var r := TryKids(finalVector, children, above, state, [], maxDepth).0;
        && objective == r.objective
        && nodesCount == old(nodesCount) + r.count
        && depth == (if r.objective != -1 then r.objective else old(depth))
    {
      ghost var full := TryKids(finalVector, children, above, state, [], maxDepth).0;
      var solution: seq<seq<int>> := [];
      for i := 0 to |children|
        invariant Boards(children[i..])
        invariant var rest := TryKids(finalVector, children[i..], above, state, solution, maxDepth).0;
          && full.objective == rest.objective && full.path == rest.path
          && full.count == nodesCount - old(nodesCount) + rest.count
        invariant depth == old(depth)
      {
        var child := children[i];
        TryKidsStep(finalVector, children, i, above, state, solution, maxDepth);
        if IsParentBoard(above, child) {
          continue;
        }
        var alreadyVisited := false;
        for v := 0 to |solution|
          invariant alreadyVisited <==> child in solution[..v]
        {
          if solution[v] == child {
            alreadyVisited := true;
            break;
          }
        }
        if alreadyVisited {
          continue;
        }
        assert solution[..|solution|] == solution;
        var childChildren;
        objective, childChildren := RecursiveIdfs(maxDepth - 1, child, above + [state], []);
        if objective != -1 {
          return;
        }
        solution := solution + [child];
      }
      assert children[|children|..] == [];
      objective := -1;
    }

    /**
     * IDFS with caps 0, 1, ..., fuel (the source raises the cap without
     * bound). The root node and its children vector persist across rounds. A
     * value other than -1 is the node count of a shortest solution; -1 means
     * no solution has fuel + 1 boards or fewer.
     */
    method IDFS(initialVector: seq<int>, fuel: nat) returns (objective: int, ghost path: seq<seq<int>>)
      requires IsBoard(3, initialVector) && IsBoard(3, finalVector)
      modifies this
      ensures objective != -1 ==>
        && objective == |path| == depth && |path| > 0 && path[0] == initialVector && Last(path) == finalVector
        && IsMovePath(3, path)
      ensures objective != -1 ==>
        forall p {:trigger Solves(3, p, initialVector, finalVector)} :: Solves(3, p, initialVector, finalVector) ==> objective <= |p|
      ensures objective == -1 ==>
        forall p {:trigger Solves(3, p, initialVector, finalVector)} :: Solves(3, p, initialVector, finalVector) ==> |p| > fuel + 1
      ensures initialVector == finalVector ==> objective == 1 && nodesCount == old(nodesCount)
      ensures nodesCount == old(nodesCount) +
        RoundsCount(finalVector, initialVector, if objective == -1 then fuel + 1 else objective)
    {
      objective := -1;
      depth := 0;
      path := [];
      var rootChildren: seq<seq<int>> := [];
      ghost var s := Successors(3, initialVector);
      ghost var rounds: nat := 0;
      while depth <= fuel
        invariant 0 <= depth <= fuel + 1 && objective == -1
        invariant rounds == (if depth == 0 then 0 else depth - 1) && rootChildren == Repeat(s, rounds)
        invariant forall p {:trigger Solves(3, p, initialVector, finalVector)} :: Solves(3, p, initialVector, finalVector) ==> |p| > depth
        invariant nodesCount == old(nodesCount) + RoundsCount(finalVector, initialVector, depth)
        invariant initialVector == finalVector ==> depth == 0
        decreases fuel + 1 - depth
      {
        ghost var cap, prior := depth, rootChildren;
        ghost var r := RootRound(finalVector, initialVector, rounds, cap);
        objective, rootChildren := RecursiveIdfs(depth, initialVector, [], rootChildren);
        assert r.count == RootCount(finalVector, initialVector, cap);
        assert nodesCount == old(nodesCount) + RoundsCount(finalVector, initialVector, cap + 1);
        if objective != -1 {
          path := r.path;
          assert Solves(3, path, initialVector, finalVector);
          assert objective == cap + 1;
          break;
        }
        assert rootChildren == (if cap > 0 then prior + s else prior);
        RepeatNext(s, prior, cap);
        rounds := cap;
        depth := depth + 1;
      }
    }
  }
}
