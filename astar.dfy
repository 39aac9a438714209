/**
 * A* over the 8-puzzle (astar.cpp, class Astar) and the 15-puzzle
 * (astar15.cpp, class A15Puzzle). Both run the best-first loop of module
 * BestFirst with the comparator of astar15.cpp: start order 0, no extra bump
 * of the insertion counter before the four moves.
 */
module AStar {
  import opened Puzzle
  import opened PriorityQueue
  import opened BestFirst

  /**
   * AstarComparator15: true when `a` ranks below `b` in the open list. Equal
   * f falls back to h, equal f and h to the insertion order, and in each case
   * the entry with the larger key loses, except that the LARGER insertion
   * order wins.
   */
  function Comparator(a: Entry, b: Entry): bool {
    if a.g + a.h == b.g + b.h then
      if a.h == b.h then a.order < b.order else a.h > b.h
    else a.g + a.h > b.g + b.h
  }

  /** The priority of an entry as a triple, smallest first: f, then h, then the negated insertion order. */
  function Key(e: Entry): seq<int> {
    [e.g + e.h, e.h, -e.order]
  }

  /** Lexicographic order on equal-length integer sequences. */
  predicate LexLess(x: seq<int>, y: seq<int>)
    requires |x| == |y|
  {
    |x| > 0 && (x[0] < y[0] || (x[0] == y[0] && LexLess(x[1..], y[1..])))
  }

  lemma {:induction false} LexLessIrreflexive(x: seq<int>)
    ensures !LexLess(x, x)
  {
    if |x| > 0 {
      LexLessIrreflexive(x[1..]);
    }
  }

  lemma {:induction false} LexLessTransitive(x: seq<int>, y: seq<int>, z: seq<int>)
    requires |x| == |y| == |z|
    requires LexLess(x, y) && LexLess(y, z)
    ensures LexLess(x, z)
  {
    if x[0] == y[0] == z[0] {
      LexLessTransitive(x[1..], y[1..], z[1..]);
    }
  }

  /** a ranks below b exactly when b's key is lexicographically smaller than a's. */
  lemma ComparatorIsKeyOrder(a: Entry, b: Entry)
    ensures Comparator(a, b) <==> LexLess(Key(b), Key(a))
  {
    var ka, kb := Key(a), Key(b);
    assert ka[1..] == [a.h, -a.order] && kb[1..] == [b.h, -b.order];
    assert ka[1..][1..] == [-a.order] && kb[1..][1..] == [-b.order];
    assert !LexLess(kb[1..][1..][1..], ka[1..][1..][1..]);
    assert LexLess(kb[1..][1..], ka[1..][1..]) <==> b.order > a.order;
    assert LexLess(kb[1..], ka[1..]) <==> b.h < a.h || (b.h == a.h && b.order > a.order);
  }

  /** The comparator is a strict weak order, as std::priority_queue demands. */
  lemma ComparatorIsStrictOrder()
    ensures StrictOrder(Comparator)
  {
    forall x ensures !Comparator(x, x) {
      ComparatorIsKeyOrder(x, x);
      LexLessIrreflexive(Key(x));
    }
    forall x, y, z | Comparator(x, y) && Comparator(y, z) ensures Comparator(x, z) {
      ComparatorIsKeyOrder(x, y);
      ComparatorIsKeyOrder(y, z);
      ComparatorIsKeyOrder(x, z);
      LexLessTransitive(Key(z), Key(y), Key(x));
    }
  }

  /**
   * The entry top() returns has the least f on the open list; among entries
   * of equal f the least h; and among entries of equal f and h the largest
   * insertion order, i.e. the most recently generated node.
   */
  lemma TopHasLeastKey(q: seq<Entry>, k: nat)
    requires k < |q| && forall j :: 0 <= j < |q| ==> !Comparator(q[k], q[j])
    ensures forall j :: 0 <= j < |q| ==>
      && q[k].g + q[k].h <= q[j].g + q[j].h
      && (q[k].g + q[k].h == q[j].g + q[j].h ==> q[k].h <= q[j].h)
      && (q[k].g + q[k].h == q[j].g + q[j].h && q[k].h == q[j].h ==> q[j].order <= q[k].order)
  {
    forall j | 0 <= j < |q|
      ensures q[k].g + q[k].h <= q[j].g + q[j].h
      ensures q[k].g + q[k].h == q[j].g + q[j].h ==> q[k].h <= q[j].h
      ensures q[k].g + q[k].h == q[j].g + q[j].h && q[k].h == q[j].h ==> q[j].order <= q[k].order
    {
      ComparatorIsKeyOrder(q[k], q[j]);
      var kk, kj := Key(q[k]), Key(q[j]);
      assert kk[1..][1..][1..] == [] && kj[1..][1..][1..] == [];
    }
  }

  /** An entry of larger f always ranks below one of smaller f, so A* pops by least f. */
  lemma ComparatorRanksByF()
    ensures RanksByF(Comparator)
  {
    forall x: Entry, y: Entry | x.g + x.h > y.g + y.h ensures Comparator(x, y) {
    }
  }

  /** The 8-puzzle solver of astar.cpp. */
  class Astar {
    const finalVector: seq<int>
    var nodesCount: int
    var heuristicSum: int
    var startHeuristic: int

    constructor(finalVector: seq<int>)
      ensures this.finalVector == finalVector
      ensures nodesCount == 0 && heuristicSum == 0 && startHeuristic == 0
    {
      this.finalVector := finalVector;
      nodesCount, heuristicSum, startHeuristic := 0, 0, 0;
    }

    /**
     * findSolution: the A* loop on 3x3 boards; a path found is a shortest
     * one, because the comparator pops by least f and the Manhattan distance
     * is consistent. The statistics accumulate over
     * calls: nodesCount and heuristicSum grow by the number and the summed h
     * of the boards expanded, and startHeuristic is overwritten.
     */
    method FindSolution(initialVector: seq<int>)
      returns (path: seq<seq<int>>, ghost expanded: seq<seq<int>>, ghost insertionCounter: int)
      requires IsBoard(3, initialVector) && IsBoard(3, finalVector)
      modifies this
      ensures startHeuristic == Manhattan(3, initialVector, finalVector)
      ensures path != [] ==> path[0] == initialVector && Last(path) == finalVector && IsMovePath(3, path)
      ensures path != [] ==> forall p {:trigger Solves(3, p, initialVector, finalVector)} ::
        Solves(3, p, initialVector, finalVector) ==> |path| <= |p|
      ensures path == [] ==> forall p :: IsMovePath(3, p) && p[0] == initialVector ==> Last(p) != finalVector
      ensures initialVector == finalVector ==> path == [initialVector] && expanded == []
      ensures nodesCount == old(nodesCount) + |expanded|
      ensures heuristicSum == old(heuristicSum) + HeuristicTotal(3, expanded, finalVector)
      ensures forall p, q :: 0 <= p < q < |expanded| ==> expanded[p] != expanded[q]
      ensures finalVector !in expanded && (|expanded| > 0 ==> expanded[0] == initialVector)
      ensures insertionCounter == 1 + 4 * |expanded|
    {
      ComparatorIsStrictOrder();
      ComparatorRanksByF();
      var count, sum, h;
      path, count, sum, h, expanded, insertionCounter := Search(3, initialVector, finalVector, Comparator, 0, false);
      nodesCount := nodesCount + count;
      heuristicSum := heuristicSum + sum;
      startHeuristic := h;
    }
  }

  /** The 15-puzzle solver of astar15.cpp. */
  class A15Puzzle {
    const finalVector: seq<int>
    var nodesCount: int
    var heuristicSum: int
    var startHeuristic: int

    constructor(finalVector: seq<int>)
      ensures this.finalVector == finalVector
      ensures nodesCount == 0 && heuristicSum == 0 && startHeuristic == 0
    {
      this.finalVector := finalVector;
      nodesCount, heuristicSum, startHeuristic := 0, 0, 0;
    }

    /** Astar15: the same loop on 4x4 boards, with the same shortest-path guarantee. */
    method Astar15(initialVector: seq<int>)
      returns (path: seq<seq<int>>, ghost expanded: seq<seq<int>>, ghost insertionCounter: int)
      requires IsBoard(4, initialVector) && IsBoard(4, finalVector)
      modifies this
      ensures startHeuristic == Manhattan(4, initialVector, finalVector)
      ensures path != [] ==> path[0] == initialVector && Last(path) == finalVector && IsMovePath(4, path)
      ensures path != [] ==> forall p {:trigger Solves(4, p, initialVector, finalVector)} ::
        Solves(4, p, initialVector, finalVector) ==> |path| <= |p|
      ensures path == [] ==> forall p :: IsMovePath(4, p) && p[0] == initialVector ==> Last(p) != finalVector
      ensures initialVector == finalVector ==> path == [initialVector] && expanded == []
      ensures nodesCount == old(nodesCount) + |expanded|
      ensures heuristicSum == old(heuristicSum) + HeuristicTotal(4, expanded, finalVector)
      ensures forall p, q :: 0 <= p < q < |expanded| ==> expanded[p] != expanded[q]
      ensures finalVector !in expanded && (|expanded| > 0 ==> expanded[0] == initialVector)
      ensures insertionCounter == 1 + 4 * |expanded|
    {
      ComparatorIsStrictOrder();
      ComparatorRanksByF();
      var count, sum, h;
      path, count, sum, h, expanded, insertionCounter := Search(4, initialVector, finalVector, Comparator, 0, false);
      nodesCount := nodesCount + count;
      heuristicSum := heuristicSum + sum;
      startHeuristic := h;
    }
  }
}
