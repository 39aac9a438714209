/**
 * Greedy best-first search (gbfs.cpp, class GBFS) over the 8-puzzle. It runs
 * the best-first loop of module BestFirst with start order 1 and one extra
 * bump of the insertion counter before the four moves of each expansion. The
 * GBFSComparator is declared in a header that is not part of this model, so
 * the solver takes the comparator as a parameter.
 */
module Gbfs {
  import opened Puzzle
  import opened PriorityQueue
  import opened BestFirst

  class GBFS {
    const finalVector: seq<int>
    var nodesCount: int
    var heuristicSum: int
    var startHeuristic: int

    constructor(finalVector: seq<int>)
      ensures this.finalVector == finalVector
      ensures nodesCount == 0 && heuristicSum == 0 && startHeuristic == 0
    {
      this.finalVector := finalVector;
      nodesCount, heuristicSum, startHeuristic := 0, 0, 0;
    }

    /**
     * solve: the greedy loop. Whatever the comparator, a returned path leads
     * from the start to the goal by slides, an empty one means the goal is
     * unreachable, each board is expanded at most once, and the insertion
     * counter moves by five per expansion.
     */
    method Solve(initialVector: seq<int>, comparator: (Entry, Entry) -> bool)
      returns (path: seq<seq<int>>, ghost expanded: seq<seq<int>>, ghost insertionCounter: int)
      requires IsBoard(3, initialVector) && IsBoard(3, finalVector) && StrictOrder(comparator)
      modifies this
      ensures startHeuristic == Manhattan(3, initialVector, finalVector)
      ensures path != [] ==> path[0] == initialVector && Last(path) == finalVector && IsMovePath(3, path)
      ensures path == [] ==> forall p :: IsMovePath(3, p) && p[0] == initialVector ==> Last(p) != finalVector
      ensures initialVector == finalVector ==> path == [initialVector] && expanded == []
      ensures nodesCount == old(nodesCount) + |expanded|
      ensures heuristicSum == old(heuristicSum) + HeuristicTotal(3, expanded, finalVector)
      ensures forall p, q :: 0 <= p < q < |expanded| ==> expanded[p] != expanded[q]
      ensures finalVector !in expanded && (|expanded| > 0 ==> expanded[0] == initialVector)
      ensures insertionCounter == 1 + 5 * |expanded|
    {
      var count, sum, h;
      path, count, sum, h, expanded, insertionCounter := Search(3, initialVector, finalVector, comparator, 1, true);
      nodesCount := nodesCount + count;
      heuristicSum := heuristicSum + sum;
      startHeuristic := h;
    }
  }
}
