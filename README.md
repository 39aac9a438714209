# Sliding-tile puzzle search engine

A Dafny model of the search engine of an 8-puzzle / 15-puzzle solver.

## What is modelled

Boards are flat, row-major `seq<int>` of width `w`:
- the 8-puzzle is `w = 3`, the 15-puzzle is `w = 4`;
- a board holds each of `0 .. w*w-1` exactly once, and 0 is the blank;
- the goal is `0, 1, ..., w*w-1`.

The model covers:

- **Puzzle** (`puzzle.dfy`): the shared parts.
  - `findZero` and the four blank slides with their edge tests.
  - The children of a board in the fixed order up, left, right, down.
  - The Manhattan heuristic, as a specification function plus the loop that computes it.
- **SearchTree** (`tree.dfy`): the explored-node tree of BFS, GBFS and A*.
  - It is an arena: a sequence of nodes that refer to their parent by index, with -1 for the root.
  - It covers the move methods that append children, and `tracePath` / `traceSolution`.
- **PriorityQueue** (`queue.dfy`): `std::priority_queue` `top`/`pop` under a strict-order comparator.
- **BestFirst** (`bestfirst.dfy`): the loop A* and GBFS share.
  - A popped node whose board is already closed is discarded.
  - Otherwise the board is closed, goal-tested, counted and expanded.
  - Children that are not closed are pushed with `g + 1` and their Manhattan `h`.
- **AStar** (`astar.dfy`):
  - `AstarComparator15`;
  - `Astar::findSolution` (w = 3);
  - `A15Puzzle::Astar15` (w = 4).
- **Gbfs** (`gbfs.dfy`): `GBFS::solve`, whose comparator is a parameter.
- **Bfs** (`bfs.dfy`): `BFS::solve`, with a FIFO queue and a visited set.
- **Ida** (`idastar.dfy`): `depthLimitedSearch` and `idaStar`.
- **Idfs** (`idfs.dfy`):
  - `recursive_idfs` with its parent and sibling checks;
  - `IDFS`;
  - `traceSolution`;
  - `manhattan_distance_matrix`.
- **Input** (`input.dfy`): from `main.cpp`:
  - `isValidPuzzleState`;
  - the filter-and-append behaviour of `parseInputStates`;
  - the choice of puzzle size and goal from the algorithm flag.

### How the model is built

- **Recursive searches.** The recursive searches (`depthLimitedSearch`, `recursive_idfs`) update counters and, for IDA*, a shared visited set. Each is a class method proved equal to a pure function (`Ida.Dls`, `Idfs.Idfs`). The search properties are proved about those functions.
- **Looping searches.** The looping searches (BFS, GBFS, A*) are methods with loop invariants. The invariant says:
  - every slide out of a closed board leads to a board that is closed or waiting;
  - the goal is never closed.
  
  So an exhausted frontier proves the goal unreachable. The loops terminate because the set of closed boards grows inside the finite set of all boards.
- **Shortest paths.**
  - BFS: the queue holds the tree level by level. Every board within the front node's depth is visited, and no queued board is reachable in fewer slides than its depth. So the first goal child met is a shortest solution.
  - A\*: the invariant adds that the start is closed or waiting with g = 0, and that every slide out of a closed board reached by a path p is closed or waiting with g at most |p|. With the Manhattan distance consistent, the entry of least f then carries the least g of its board. So the goal's first pop traces a shortest path.

### Behaviour that is easy to misread

The model follows the code in each of these cases.

- **A\* tie-break.** When f and h tie, `AstarComparator15` (astar15.cpp:80) ranks the smaller insertion order lower. So `std::priority_queue` pops the **larger** one first: the most recently generated node, not the earliest. `AStar.TopHasLeastKey` states this order.
- **GBFS tie-break.** The GBFS comparator is in a header that is not part of this model. It is a parameter that must be a strict order.
- **BFS solution depth.** BFS stores `solutionPath.size()` (bfs.cpp:53), the number of boards, not the number of moves. `Bfs.BFS.Solve` states this value.
- **BFS goal test.** BFS compares only generated children with the goal and never the start node; see Findings.

## Model

| member | source | states |
|---|---|---|
| Puzzle.GoalIsBoard | main.cpp:120 | The goal 0..w*w-1 that main builds is a legal board of width w |
| Puzzle.PermutationFacts | main.cpp:19-33 | A permutation of 0..n-1 has every value in range, no repeated value, and contains the blank when n > 0 |
| Puzzle.Slide | idfs.cpp:19-57 | A move on board b: with the blank at findZero's index z, the edge test of the move decides whether it applies; if so the blank swaps with the tile one row up or down or one column left or right, otherwise no board results. Its properties are in SlideFacts, TargetGeometry and SlideInverse. |
| Puzzle.Successors | idastar.cpp:120-130 | The children of a board: the results of the moves up, left, right and down, in that order, with the illegal ones left out. SlideIffSuccessor and SuccessorCount state what they are. |
| Puzzle.Manhattan | astar.cpp:25-40 | The heuristic: over every non-blank cell, the row and column distance to the cell holding the same tile in the goal. ManhattanDistance computes it; the lemmas below give its bounds. |
| Puzzle.IndexOf | astar15.cpp:17-20 | The std::find position of v: the first index holding v, or the length when v is absent |
| Puzzle.TargetGeometry | astar15.cpp:34-72 | When a move's edge test passes, the swapped index is on the board, differs from the blank's, and lies one row (up/down) or one column (left/right) away in the same column or row |
| Puzzle.SlideFacts | astar15.cpp:34-72 | A move adds a child exactly when its edge test passes on findZero's index. The child is again a permutation, and the blank has moved to the swapped index. Only the blank's cell and the swapped cell change. |
| Puzzle.SlideInverse | idfs.cpp:19-57 | Every slide can be undone by the opposite slide, which returns the original board |
| Puzzle.SlideIffSuccessor | idastar.cpp:120-130 | A board is among the children (up, left, right, down, null ones removed) exactly when some move produces it |
| Puzzle.SuccessorCount | idastar.cpp:120-130 | On a board of width at least 2, between two and four children are generated |
| Puzzle.SuccessorsAreBoards | idastar.cpp:120-130 | Every child is a legal board one slide from its parent |
| Puzzle.SlideStep | idfs.cpp:19-57 | A child differs from its parent, is a legal board, and its parent is one of its own children (the slide back) |
| Puzzle.MovePathBoards | astar15.cpp:34-72 | Every board on a path of slides from a legal board is legal |
| Puzzle.ManhattanNonNegative | astar.cpp:25-40 | The heuristic is never negative |
| Puzzle.ManhattanOfGoal | astar.cpp:25-40 | The heuristic of the goal against itself is 0 |
| Puzzle.ManhattanZeroIffGoal | astar15.cpp:98-109 | For legal boards the heuristic is 0 exactly when the board is the goal |
| Puzzle.ManhattanSwap | astar.cpp:25-40 | Moving one tile into the blank cell changes the heuristic by the change in that tile's own distance to its goal cell |
| Puzzle.ManhattanSlide | astar15.cpp:98-109 | One slide changes the heuristic by exactly +1 or -1 |
| Puzzle.ManhattanStep | idastar.cpp:66-77 | Between a board and any child the heuristic differs by at most 1 |
| Puzzle.ManhattanAdmissible | idastar.cpp:66-77 | The heuristic never exceeds the number of slides of any path to the goal (admissibility) |
| Puzzle.ManhattanAlongPath | astar.cpp:25-40 | Consistency: along any path of slides the heuristic at the first board exceeds the one at the last by at most the number of slides |
| Puzzle.ManhattanDistance | astar.cpp:25-40 | The loop over the cells returns the Manhattan heuristic of the state against the goal |
| Puzzle.FindZero | idastar.cpp:15-22 | Returns the first index holding 0, or -1 exactly when there is no 0 |
| PriorityQueue.Top | astar.cpp:76-77 | The popped element is one that no element of the queue ranks above under the comparator |
| PriorityQueue.RemoveAt | astar.cpp:76-77 | Popping removes exactly one copy of the top element and keeps every other element |
| AStar.ComparatorIsKeyOrder | astar15.cpp:77-86 | The comparator ranks a below b exactly when b's (f, h, -insertionOrder) triple is lexicographically smaller |
| AStar.ComparatorIsStrictOrder | astar15.cpp:77-86 | The comparator is irreflexive and transitive, as std::priority_queue requires |
| AStar.TopHasLeastKey | astar15.cpp:77-86 | The top entry has the least f; among equal f the least h; among equal f and h the LARGEST insertion order |
| AStar.Astar.constructor | astar.cpp:5-7 | Stores the goal and starts nodesCount, heuristicSum and startHeuristic at 0 |
| AStar.ComparatorRanksByF | astar15.cpp:77-86 | An entry of larger f always ranks below one of smaller f, so the top of the open list has the least f |
| AStar.Astar.FindSolution | astar.cpp:56-132 | Sets startHeuristic and returns [] only when the goal is unreachable. A returned path is a path of slides from the start to the goal and is no longer than any other such path. It keeps the counters and moves insertionCounter by 4 per expansion. |
| AStar.A15Puzzle.constructor | astar15.cpp:111 | Stores the goal; the counters start at 0 |
| AStar.A15Puzzle.Astar15 | astar15.cpp:113-174 | The same guarantees as FindSolution on width-4 boards, a shortest solution included |
| Gbfs.GBFS.constructor | gbfs.cpp:5-7 | Stores the goal and starts the counters at 0 |
| Gbfs.GBFS.Solve | gbfs.cpp:54-132 | The guarantees of A* other than the shortest path, under any strict-order comparator, with the insertion counter moved by 5 per expansion |
| BestFirst.Pushed | astar.cpp:110-128 | The entries the child loop pushes, in child order: one per child whose board is not closed, carrying the child's node, its insertion order, the given g and the child's Manhattan distance |
| BestFirst.PushChildren | astar.cpp:110-128 | The child loop appends exactly the entries Pushed lists to the open list |
| BestFirst.PushedFacts | astar.cpp:117-127 | A pushed entry is a child whose board is not closed, with g = parent g + 1, h = its Manhattan distance and its own insertion order. Every child that is not closed is pushed. |
| BestFirst.ClosedSetHoldsPath | astar.cpp:74-131 | A set closed under slides that holds the start of a path holds its end |
| BestFirst.ExhaustedMeansUnreachable | astar.cpp:74-131 | When the open list is empty under the loop invariant, no path leads from the start to the goal |
| BestFirst.DiscardKeepsFrontier | astar.cpp:87-89 | Discarding a popped node whose board is closed keeps the loop invariant |
| BestFirst.ExpandGrown | astar.cpp:104-107 | The four moves keep the tree well formed, change no existing board or parent link, and give the expanded node every slide of its board as a child |
| BestFirst.ExpandCoversSlides | astar.cpp:104-107 | For any list of moves tried in turn, every board a legal move among them produces is held by a child of the expanded node |
| BestFirst.ExpandChild | astar.cpp:104-107 | For any list of moves tried in turn, the board of the m-th legal one is held by the m-th new child, appended at the end of the arena |
| BestFirst.ExpandKeepsClosure | astar.cpp:92-128 | After closing a board and pushing its unclosed children, every slide out of a closed board is closed or waiting |
| BestFirst.ExpandKeepsFrontier | astar.cpp:92-128 | Closing a non-goal board and pushing its unclosed children keeps the loop invariant |
| BestFirst.ExpandPreserves | astar.cpp:92-128 | The same, with the expansion done by the four move calls, which give the node a child for every slide of its board |
| BestFirst.ExpandNode | astar.cpp:100-128 | Expanding a popped non-goal node by the four moves and pushing its children keeps the loop invariant. It keeps the A* invariant too when the popped cost is least over all paths to that board. |
| BestFirst.StartFrontier | astar.cpp:63-70 | The tree holding only the start node, with the start entry on the open list and nothing closed, satisfies the loop invariant |
| BestFirst.TopLeastF | astar.cpp:76-77 | Under a comparator that ranks by f, the popped entry has the least f on the open list |
| BestFirst.OnPath | astar.cpp:74-128 | Under the A* invariant, every path of slides from the start to a board not yet closed passes a board waiting on the open list with g at most its position on the path |
| BestFirst.PopIsShortest | astar.cpp:76-92 | The first pop of a board carries its least g. If the popped entry has the least f and its board is not closed, every path of slides from the start to that board has at least g slides. The proof uses the consistency of the Manhattan distance. |
| BestFirst.WaitingSurvives | astar.cpp:76-77 | Popping an entry for another board, and growing the tree, leaves a waiting board waiting with the same cost bound |
| BestFirst.DiscardKeepsOptimal | astar.cpp:87-89 | Discarding a popped node whose board is closed keeps the A* invariant |
| BestFirst.ExpandPushesSlides | astar.cpp:117-127 | Every slide of the expanded board that is not closed is pushed with the parent's g + 1 |
| BestFirst.ExpandKeepsOptimal | astar.cpp:92-128 | Closing a popped board whose g is least over all paths to it, and pushing its unclosed children, keeps the A* invariant |
| BestFirst.StartOptimal | astar.cpp:63-70 | Before the loop the start waits with g = 0 and nothing is closed, so the A* invariant holds |
| BestFirst.FoundShortest | astar.cpp:92-97 | The path traced from a popped goal entry of least f is no longer than any path of slides from the start to the goal |
| BestFirst.HeuristicTotalAppend | astar.cpp:100-101 | Expanding one more board adds its h to the heuristic sum |
| BestFirst.BooksExpand | astar.cpp:100-107 | An expansion keeps the closed set equal to the expanded boards, each expanded once. nodesCount grows by 1, heuristicSum by the board's h, and the insertion counter by 4 (5 with the GBFS bump). |
| BestFirst.Round | astar.cpp:76-128 | One pass of the while loop keeps the invariant and the counters. A closed board is discarded with nothing else changed. Otherwise the board is closed and counted once. Each pass shrinks the open list or the set of unclosed boards. When the popped entry has the least f, the A* invariant is kept too. |
| BestFirst.FoundPath | astar.cpp:43-53 | The traced path of a node holding the goal is a path of slides from the start to the goal; with only the start node in the tree it is just the start |
| BestFirst.Explore | astar.cpp:74-131 | The while loop returns a solution path, or [] only when the goal is unreachable. Under a comparator that ranks by f the path is a shortest one. nodesCount and heuristicSum count and sum the expanded boards. Each board is expanded at most once and the goal never. The insertion counter moves by 4 (or 5) per expansion. |
| BestFirst.Search | astar.cpp:56-132 | The whole search: startHeuristic is the start's Manhattan distance, a start equal to the goal returns [start] with no expansion, plus everything Explore states, the shortest path under an f-ranking comparator included |
| SearchTree.Attempt | astar15.cpp:34-42 | A move on a node appends a child holding the slid board, with this node as parent, exactly when the edge test passes, and leaves the tree unchanged otherwise |
| SearchTree.SlidesOfMoveOrder | astar.cpp:104-107 | Calling the moves in the order up, left, right, down produces exactly the board's children in that order |
| SearchTree.OrdersOf | astar.cpp:104-107 | The orders handed to the legal moves, in move order: one per board the moves produce, each one of the given orders |
| SearchTree.Expand | astar.cpp:104-107 | The four move calls append one new child per legal move, in move order, and change nothing else. Each new child carries the order given to its own move (counter + m for move m), so the orders increase. |
| SearchTree.ExpandStep | astar.cpp:104-107 | One move call followed by the remaining ones has the effect Expand states |
| SearchTree.ExpandStepNodes | astar.cpp:104-107 | The new nodes of a move sequence hold its slides in order and carry their own moves' orders. They are children of the expanded node and have no children yet. |
| SearchTree.ExpandStepOrders | astar.cpp:104-107 | The new nodes' insertion orders increase with the move order |
| SearchTree.ExpandStepChildren | astar.cpp:104-107 | The expanded node's children gain exactly the new node indices |
| SearchTree.ExpandNewNodes | astar.cpp:104-107 | In a well-formed tree every new node is a legal board one slide from the expanded node's board |
| SearchTree.AppendParentSlides | astar.cpp:104-107 | Appending nodes that are legal slides of their parents keeps parent links backward, boards legal and parent-to-child steps single slides |
| SearchTree.ExpandParentSlides | astar.cpp:104-107 | After an expansion every parent-to-child step is still a single slide |
| SearchTree.ExpandChildLinks | astar.cpp:104-107 | After an expansion every child index names a later node whose parent is that node |
| SearchTree.ExpandWellFormed | astar.cpp:104-107 | An expansion keeps the tree well formed |
| SearchTree.Chain | astar.cpp:43-53 | The parent chain ends at the node, starts at a node without parent, and each entry is the parent of the next |
| SearchTree.TracePath | astar.cpp:43-53 | The push-parents-then-reverse loop returns exactly that chain |
| SearchTree.ReverseAppend | astar.cpp:51 | Reversing after one more push puts the pushed node first: the step that makes the collected ancestors come out root first |
| SearchTree.ReverseIndex | astar.cpp:51 | The reversal keeps the length and puts the element k places from the end at position k |
| SearchTree.ChainIsMovePath | astar.cpp:43-53 | In a well-formed tree the chain starts at the start node and its boards form a path of slides from the start to the node's board |
| SearchTree.ChainFrame | astar.cpp:43-53 | Adding nodes without changing parent links leaves existing chains unchanged |
| SearchTree.ChainLength | astar.cpp:43-53 | The traced chain of a node has one entry more than the node's depth, so a path traced from a node of cost g has g + 1 boards |
| SearchTree.DepthFrame | astar.cpp:122 | Adding nodes without changing parent links keeps every node's depth, the g it was pushed with |
| Bfs.Admit | bfs.cpp:58-63 | The child loop without the goal test: each child whose board is not visited is queued and marked visited, in child order, and every other child is dropped |
| Bfs.AdmitVisits | bfs.cpp:58-63 | After the child loop the visited set is the old one plus every child board |
| Bfs.AdmitQueues | bfs.cpp:58-63 | The loop queues only children whose boards were not visited before, one per board |
| Bfs.AdmitAccounts | bfs.cpp:58-63 | The boards queued are exactly the boards newly marked visited |
| Bfs.AdmitFacts | bfs.cpp:58-63 | The three facts above together |
| Bfs.AdmitStep | bfs.cpp:58-63 | One child at a time: an unvisited child is queued and marked visited, and a visited one is dropped |
| Bfs.ScanChildren | bfs.cpp:48-64 | The for loop stops at the first child holding the goal, before any visited test. With no goal child, the queue and the visited set grow as Admit says. |
| Bfs.ScanKeepsQueue | bfs.cpp:39-64 | After a dequeue and a child loop the queued boards are distinct and undequeued, and the visited set is the dequeued plus the queued boards |
| Bfs.ScanKeepsReach | bfs.cpp:39-64 | After a pass every slide out of a dequeued board is visited and is not the goal |
| Bfs.ScanKeepsSweep | bfs.cpp:39-64 | A pass that meets no goal child keeps the loop invariant |
| Bfs.StartState | bfs.cpp:30-33 | Before the loop the start node alone is queued, at depth 0, with only its board visited: the loop invariant and the layers hold |
| Bfs.LayerDepths | bfs.cpp:39-64 | After a pass the rest of the queue keeps its depths and the queued children sit one level below the dequeued node, so depths along the queue never fall and span one level |
| Bfs.LayerTight | bfs.cpp:58-63 | A queued child was not visited before, so no path of slides reaches its board in fewer slides than its depth |
| Bfs.ScanKeepsLayers | bfs.cpp:39-64 | A pass that meets no goal child keeps the layers: every board within the front node's depth is visited |
| Bfs.NextLayerVisited | bfs.cpp:39-64 | When the queue has moved past depth d, every board reachable in d + 1 slides is visited |
| Bfs.GoalChildShortest | bfs.cpp:48-56 | The goal child is one level below the dequeued node, and when the start is not the goal no path of slides to the goal is shorter |
| Bfs.FirstRound | bfs.cpp:39-64 | After the first pass the front of the queue is the start's first child, one level down, holding its first successor in move order |
| Bfs.ExpandFront | bfs.cpp:40-43 | The four move calls, each child with order 1: the tree stays well formed, old nodes keep board and parent, and every slide of the dequeued board is a child |
| Bfs.FirstKids | bfs.cpp:40-43 | Expanding the childless start node makes all later nodes its children, the first holding its first successor |
| Bfs.FirstAdmitted | bfs.cpp:58-63 | The first child of the start is queued first when its board is new, at depth 1 |
| Bfs.Step | bfs.cpp:39-64 | One pass dequeues a node, expands and counts it. It either reports the goal child it found, one level below the dequeued node and shortest when the start is not the goal, or keeps the invariant and the layers with one more board dequeued. |
| Bfs.LastStepFrom | bfs.cpp:39-67 | A path out of a set closed under slides reaches its last board from a board in the set |
| Bfs.DrainedStart | bfs.cpp:39-67 | An emptied queue means the start is not the goal: the start's neighbour leads back to it |
| Bfs.DrainedMeansUnreachable | bfs.cpp:39-67 | An emptied queue means no path leads from the start to the goal |
| Bfs.GoalChildPath | bfs.cpp:50-55 | The traced path of the goal child is a path of slides from the start to the goal whose second-to-last board is the dequeued node, with one board more than the goal child's depth |
| Bfs.GoalPath | bfs.cpp:50-55 | The path traced from a goal child is a solution through the board dequeued last, no longer than any other when the start is not the goal, and the detour [start, first successor, start] when it is |
| Bfs.NeighbourLeadsBack | bfs.cpp:39-64 | A dequeued neighbour of the start slides back to it, so the start is not the goal |
| Bfs.Pass | bfs.cpp:39-64 | One turn of the while loop, tracing the path when it meets the goal child: a shortest solution when the start is not the goal, the detour when it is; otherwise the loop state carries over with one more board dequeued |
| Bfs.Search | bfs.cpp:29-68 | solve as written: a path of at least two boards from the start to the goal, no longer than any other when the start is not the goal, or [] only when the goal is unreachable. Each board is dequeued and counted once. A start equal to the goal yields exactly [start, first successor, start]. |
| Bfs.SearchFromStart | bfs.cpp:29-68 | solve with the start goal-tested first: [start] exactly when the start is the goal, otherwise as Search; a returned path is always a shortest one |
| Bfs.BFS.constructor | bfs.cpp:4-5 | Stores the goal; nodesCount and solutionDepth start at 0 |
| Bfs.BFS.Solve | bfs.cpp:29-68 | nodesCount grows by one per dequeued node. solutionDepth becomes the number of boards of a found path, 3 when the start is the goal. The path guarantees of Search hold, the shortest path included. |
| Ida.Dls | idastar.cpp:96-152 | One call of depthLimitedSearch: counts itself as expanded and generated and adds its stored h. Over the limit it returns g + h; at the goal it returns INT_MAX and the ancestors plus the node; otherwise it searches the children in move order at g + 1. DlsBound, DlsPath, DlsLowerBound and DlsCounts state its properties. |
| Ida.DlsKids | idastar.cpp:132-151 | The loop over the children: a child already visited takes one back from nodes_expanded. The child is marked visited and searched with stored h 0. A found path returns at once; otherwise next_limit is the minimum of the bounds returned. |
| Ida.Min | idastar.cpp:146 | std::min of two bounds: one of them, and no more than either |
| Ida.DlsBound | idastar.cpp:111-151 | A failed call returns a finite bound above the limit; a successful one returns INT_MAX |
| Ida.DlsKidsBound | idastar.cpp:132-151 | The minimum over failed children stays above the limit and is finite once a child was searched |
| Ida.DlsCounts | idastar.cpp:101-103 | A call adds its stored h to heuristic_sum, only grows visited, and adds at least one to nodes_expanded and no more to nodes_expanded than to nodes_generated |
| Ida.DlsKidsCounts | idastar.cpp:134-139 | The child loop adds no h of its own, only grows visited, and never adds more to nodes_expanded than to nodes_generated |
| Ida.DlsPath | idastar.cpp:115-116 | A found path extends the chain of the call, leads to the goal by slides and has at most limit + 1 boards |
| Ida.DlsKidsPath | idastar.cpp:141-145 | A path returned by the child loop extends the ancestors through one of the children |
| Ida.DlsLowerBound | idastar.cpp:111-151 | A failed call's bound is no more than g plus the slides of any path from the node to the goal |
| Ida.DlsKidsLowerBound | idastar.cpp:132-151 | The child loop's bound is no more than the bound so far, nor than g plus the slides of any path through a child |
| Ida.DlsKidsStep | idastar.cpp:134-149 | One child of the loop: the visited-check decrement, the recursive call, the early return and the running minimum |
| Ida.DlsCases | idastar.cpp:101-151 | A call ends in one of three ways. Over the limit, it returns f with no path. At the goal, it returns INT_MAX and the path. Otherwise it returns the child loop's result, counting itself once. |
| Ida.Round | idastar.cpp:165-174 | One round from the root under a limit no greater than any solution's slides. A failure returns a bound above the limit that is still no more than any solution's slides. A success returns a shortest solution. |
| Ida.IDAStar.constructor | idastar.cpp:80-81 | Stores the goal and starts all counters at 0 |
| Ida.IDAStar.DepthLimitedSearch | idastar.cpp:96-152 | The recursive method returns what Dls returns and adds its counts to the fields |
| Ida.IDAStar.SearchChildren | idastar.cpp:132-151 | The loop over the children returns what DlsKids returns and adds its counts to the fields |
| Ida.IDAStar.IdaStar | idastar.cpp:155-178 | The limit starts at the start heuristic and strictly increases every round. A returned path is a shortest solution. An empty path means all `fuel` rounds ran and every solution has more slides than the last limit tried, and so more than startHeuristic + fuel. heuristic_sum grows by the start heuristic per round, and nodes_expanded by no more than nodes_generated. |
| Idfs.Idfs | idfs.cpp:121-183 | One call of recursive_idfs: the goal test comes first and returns the chain's node count and path. A budget of zero or less fails. Otherwise the four moves join the children vector, the node counts itself, and the children are tried with one less budget. IdfsPath, IdfsCount and IdfsComplete state its properties. |
| Idfs.TryKids | idfs.cpp:143-180 | The loop over the children vector: a child holding the parent's board, or equal to a child tried before in this call, is skipped; any other is searched as a fresh node; a found path returns at once and a failed child joins the tried list |
| Idfs.IdfsPath | idfs.cpp:127-130 | A result other than -1 is the node count of a path of slides. The path extends the parent chain to the goal, never steps straight back, and adds at most maxDepth boards. |
| Idfs.KidsFromBoard | idfs.cpp:135-138 | Appending the four moves to a children vector of slides of the node keeps it such a vector |
| Idfs.TryKidsPath | idfs.cpp:143-180 | A path returned by the child loop goes through a child of the node and satisfies the same guarantees |
| Idfs.ChildPath | idfs.cpp:165-172 | Searching a copy of a child other than the parent's board finds only paths through that child |
| Idfs.IdfsCount | idfs.cpp:127-140 | A call at the goal or without budget counts nothing; any other call counts at least itself |
| Idfs.IdfsComplete | idfs.cpp:121-183 | If some path from the node to the goal fits in the budget, never steps straight back and does not start by returning to the parent's board, the call finds a path |
| Idfs.ExpandFinds | idfs.cpp:143-173 | An expanded node finds a path when a child other than the parent's board finds one |
| Idfs.TryKidsComplete | idfs.cpp:143-180 | The loop finds a path when a child that is not the parent's board finds one. Children skipped as repeats of tried siblings had already failed. |
| Idfs.DropBackSteps | idfs.cpp:145-147 | Any path of slides shortens to one with the same ends that never steps straight back, so the parent check loses no shortest solution |
| Idfs.FailedRound | idfs.cpp:105-112 | A round that returns -1 under cap c proves no solution has c + 1 boards or fewer |
| Idfs.RoundFacts | idfs.cpp:105-112 | One round from the root. A start equal to the goal returns 1 with no count. A found path has at most cap + 1 boards. -1 rules out every shorter solution. |
| Idfs.RootRound | idfs.cpp:103-112 | The same for the reused root, whose children vector holds the moves of every earlier round |
| Idfs.RepeatFacts | idfs.cpp:103-106 | Repeated copies of the moves contain only those moves |
| Idfs.TryKidsFail | idfs.cpp:143-180 | A failed loop tried every child except those holding the parent's board, and returns no path |
| Idfs.TryKidsAllSkipped | idfs.cpp:145-162 | Children that were all tried already, or hold the parent's board, are skipped without any count |
| Idfs.TryKidsConcat | idfs.cpp:143-180 | The loop over two lists of children is the loop over the first and, if that fails, over the second with the tried children carried along |
| Idfs.TryKidsReuse | idfs.cpp:150-162 | Children repeated after the ones already looped over change nothing: the sibling check skips each of them |
| Idfs.RootReuse | idfs.cpp:135-162 | The root's growing children vector changes neither the result nor the count: it searches as a fresh node would |
| Idfs.ManhattanDistanceMatrix | idfs.cpp:240-261 | The nested loop returns the sum over the grid of every tile's distance to row num / 3, column num % 3 |
| Idfs.MatrixIsManhattan | idfs.cpp:223-261 | On a grid of tiles 0..8, manhattan_distance_matrix equals manhattanDistanceIDFS of the grid read row by row against the goal 0..8 |
| Idfs.TraceSolution | idfs.cpp:71-88 | The solution is the parent chain from the root to the goal, and the depth returned is its number of nodes |
| Idfs.IDFSPuzzle.constructor | idfs.cpp:91-96 | Stores the goal; nodesCount and depth start at 0 |
| Idfs.IDFSPuzzle.RecursiveIdfs | idfs.cpp:121-183 | The recursive method returns what Idfs returns and adds its count to nodesCount. It writes depth only on success, and appends the four moves to the children only when it expands. |
| Idfs.IDFSPuzzle.TryChildren | idfs.cpp:143-180 | The loop over the children returns what TryKids returns and updates nodesCount and depth accordingly |
| Idfs.IDFSPuzzle.IDFS | idfs.cpp:99-118 | A result other than -1 is the node count of a shortest solution, stored in depth. -1 means no solution has fuel + 1 boards or fewer. nodesCount grows by exactly RoundsCount of the rounds run: caps 0 to fuel on -1, or caps 0 to the result minus 1 on success. A start equal to the goal returns 1 and counts nothing. |
| Idfs.RoundsCount | idfs.cpp:103-112 | The nodes counted by the first n rounds of the deepening loop: nothing when the start is the goal, otherwise at least one per round after the first |
| Idfs.RootCount | idfs.cpp:105-107 | The nodes counted by one root round: nothing when the start is the goal or the cap is 0, otherwise at least the root |
| Input.ValidStateIffPermutation | main.cpp:14-34 | The validator's three checks hold exactly for the permutations of 0..n-1 |
| Input.ValidStateIffBoard | main.cpp:14-34 | A state is accepted for size w*w exactly when it is a legal board of width w |
| Input.IsValidPuzzleState | main.cpp:14-34 | Returns true exactly when the size is right, every value is in range and every value occurs once; a wrong size gives false |
| Input.Accepted | main.cpp:49-53 | The states kept from the tokens, in token order: the parsed state of each token the validator accepts, and no more states than tokens |
| Input.AcceptedAreValid | main.cpp:49-53 | Every state kept passes the validator |
| Input.AcceptedOne | main.cpp:49-53 | A token the validator refuses adds nothing; one it accepts adds exactly its state |
| Input.AcceptedAppend | main.cpp:40-54 | The states kept from two token lists are those of the first followed by those of the second: input order is kept |
| Input.CommaAt | main.cpp:40 | The end of the first token: a comma position or the end of the text |
| Input.CommaAtIsFirst | main.cpp:40 | No comma comes before that position |
| Input.Split | main.cpp:40 | The tokens `std::getline` with delimiter ',' yields: the text up to each comma, and the text after the last comma unless it is empty |
| Input.SplitHasNoComma | main.cpp:40 | No token holds a comma |
| Input.SplitJoin | main.cpp:40 | Joining the tokens with commas gives back the input, except that a trailing comma yields no empty last token |
| Input.SplitStep | main.cpp:40-54 | The states kept from the text are those of its first token followed by those of the rest |
| Input.ParseInputStates | main.cpp:36-55 | The loop only appends: `states` followed by the parsed state of every comma-separated token the validator accepts, in input order |
| Input.ParsedAreBoards | main.cpp:36-55 | Every state appended is a legal board of the chosen width |
| Input.SelectedGoal | main.cpp:65-69 | The puzzle size is 16 exactly for "-astar15" and 9 otherwise, it is the square of the width, and the goal built for it passes the validator |

### The five searches

For a start and goal that are legal boards, every search returns either a path of slides from the start to the goal or no path. No path means different things:
- **BFS, GBFS and A\***: no path is returned only when no path from the start to the goal exists.
- **IDFS**: -1 means that no solution has fuel + 1 boards or fewer.
- **IDA\***: an empty path means that every solution has more than startHeuristic + fuel slides, and more than the last limit tried.

The searches differ as follows.

- **BFS, GBFS and A\***:
  - never expand a board twice;
  - never expand the goal (BFS does when the start is the goal; see Findings);
  - terminate.
- **GBFS and A\***: nodesCount and heuristicSum count and sum the heuristic over exactly the expanded boards.
- **BFS and A\***: return a shortest solution (BFS: when the start is not the goal).
- **IDA\* and IDFS**:
  - return a shortest solution;
  - run a number of rounds bounded by a fuel parameter.

## Left out

- Command-line handling, file reading, timing and printing are I/O and are not modelled. This covers `main.cpp:57-237`, `printPuzzle` and the check that rejects an unknown algorithm flag (main.cpp:71-74).
- The whitespace integer extraction `istringstream >> value` (main.cpp:42-47) is the parameter `parse` of `Input.ParseInputStates`.
- The floating-point averages (`getHeuristicAverage`) and the float `heuristicSum` of astar15.h are not modelled. Sums are integers and the division is dropped.
- Getters (`getNodesCount`, `getStartHeuristic`, ...) return a field and are not modelled.
- The hash function and the string keys of the closed sets are replaced by `set<seq<int>>`. Collisions and the string encoding do not affect the result.
- `new`/`delete` and leaked nodes are not modelled. Nodes are arena indices, so aliasing and ownership are not captured.
- `std::reverse` in place is the value-level `SearchTree.Reverse`.
- The commented-out block at idfs.cpp:186-219 is dead and not modelled.
- The `queue` and `visited` members that the `IDFSPuzzle` constructor sets up are never used and are not modelled.
- The header that declares `Node`, `AstarComparator`, `GBFSComparator` and `BFSNode` for the 8-puzzle is not part of this model. Each of those pieces is modelled as follows:
  - the 8-puzzle moves are those of idfs.cpp:19-57 with width 3;
  - A* uses the comparator of astar15.cpp:77-86;
  - GBFS takes its comparator as a parameter that must be a strict order;
  - `BFSNode` is a FIFO queue and a visited set, seeded with the start node and its board.
- The five copies of the Manhattan heuristic (astar.cpp:25, gbfs.cpp:24, idastar.cpp:66, idfs.cpp:223, astar15.cpp:98) are one function, `Puzzle.ManhattanDistance`, with the width as a parameter. The `size_t` arithmetic in the gbfs/idfs copies gives the same values on boards.
- `findZero` has two forms, both modelled in `Puzzle`:
  - the `std::find` form returns the length when there is no 0 (`Puzzle.IndexOf`);
  - the loop form of idastar.cpp returns -1 (`Puzzle.FindZero`).
- The `g_cost` and `f_cost` fields of `IdaStarNode` are written and never read, so they are not modelled. `h_cost` is the stored h passed into `Ida.Dls`.
- `INT_MAX` is the constructor `Ida.Bound.Infinite`; integer overflow of costs and bounds is not modelled.
- Ida.IDAStar.IdaStar: the source loops until a path is found, possibly forever. The model runs at most `fuel` rounds and reports an empty path when they run out.
- Idfs.IDFSPuzzle.IDFS: the source raises the cap without bound. The model tries caps 0..fuel and returns -1 when they run out.
- Ida.IDAStar.IdaStar: nodes_expanded and nodes_generated are stated as bounds (no decrease, expanded growth at most generated growth), not as exact totals.
- Gbfs.GBFS.Solve: no shortest-path property is stated, because greedy best-first search ranks by h alone and does not promise one.
- The A* shortest-path property rests on the comparator of astar15.cpp:77-86 popping the least f; the 8-puzzle `AstarComparator` is in the header that is not part of this model.
- The 32-bit `int` counters (`nodesCount`, `insertionCounter`, `heuristicSum`) are unbounded integers here; overflow is not modelled.

## Findings

| source | as written | input that shows it | evidently intended | confidence | as-written member | corrected member |
|---|---|---|---|---|---|---|
| bfs.cpp:39-56 | The dequeued node is never compared with the goal, only its children are. When the start already is the goal, the search leaves it through a neighbour and comes back. The path returned is [start, first successor in move order, start], and solutionDepth is 3 instead of 1. | initialVector == finalVector == [0,1,2,3,4,5,6,7,8] | Return the one-board path [initialVector] without expanding anything, as the other four searches do | not executed | Bfs.Search | Bfs.SearchFromStart |
