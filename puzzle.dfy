/**
 * Boards of the sliding-tile puzzle, the four blank slides and the Manhattan
 * heuristic, shared by every search strategy.
 *
 * A board of width w is a flat, row-major sequence of w*w tiles holding each of
 * 0 .. w*w-1 once; 0 is the blank. The source fixes w = 3 for the 8-puzzle and
 * w = 4 for the 15-puzzle.
 */
module Puzzle {

  datatype Option<T> = None | Some(value: T)

  function Last<T>(s: seq<T>): T
    requires |s| > 0
  {
    s[|s| - 1]
  }

  // ---------------------------------------------------------------------------
  // Boards
  // ---------------------------------------------------------------------------

  /** The canonical goal 0, 1, ..., n-1 (main.cpp builds it for n = 9 and n = 16). */
  function Goal(n: nat): (g: seq<int>)
    ensures |g| == n
    ensures forall i :: 0 <= i < n ==> g[i] == i
  {
    seq(n, i => i)
  }

  /** s holds each of 0 .. n-1 exactly once. */
  predicate IsPermutationOf(s: seq<int>, n: nat) {
    |s| == n && multiset(s) == multiset(Goal(n))
  }

  /**
   * A legal board of width w. The blank is implied by the permutation
   * (PermutationFacts); it is kept explicit because every move needs it.
   */
  predicate IsBoard(w: nat, b: seq<int>) {
    w > 0 && IsPermutationOf(b, w * w) && 0 in b
  }

  lemma {:induction false} GoalCount(n: nat, v: int)
    ensures multiset(Goal(n))[v] == if 0 <= v < n then 1 else 0
  {
    if n > 0 {
      assert Goal(n) == Goal(n - 1) + [n - 1];
      GoalCount(n - 1, v);
    } else {
      assert Goal(n) == [];
    }
  }

  lemma CountTwo(s: seq<int>, i: int, j: int)
    requires 0 <= i < j < |s| && s[i] == s[j]
    ensures multiset(s)[s[i]] >= 2
  {
    assert s == s[..i] + s[i..j] + s[j..];
    assert s[i..j][0] == s[i] && s[j..][0] == s[j];
    assert s[i] in multiset(s[i..j]) && s[j] in multiset(s[j..]);
  }

  /** What a permutation of 0 .. n-1 gives: every value in range, no repeats, and a blank. */
  lemma PermutationFacts(s: seq<int>, n: nat)
    requires IsPermutationOf(s, n)
    ensures forall i :: 0 <= i < |s| ==> 0 <= s[i] < n
    ensures forall i, j :: 0 <= i < j < |s| ==> s[i] != s[j]
    ensures n > 0 ==> 0 in s
  {
    forall i | 0 <= i < |s|
      ensures 0 <= s[i] < n
    {
      assert s[i] in multiset(s);
      GoalCount(n, s[i]);
    }
    forall i, j | 0 <= i < j < |s|
      ensures s[i] != s[j]
    {
      if s[i] == s[j] {
        CountTwo(s, i, j);
        GoalCount(n, s[i]);
      }
    }
    if n > 0 {
      GoalCount(n, 0);
      assert 0 in multiset(s);
    }
  }

  /**
   * The permutation test as main.cpp performs it (lengths match, every value in
   * range, every value counted once) is the same predicate as IsPermutationOf.
   */
  lemma PermutationByCounts(s: seq<int>, n: nat)
    ensures IsPermutationOf(s, n) <==>
      |s| == n
      && (forall i :: 0 <= i < |s| ==> 0 <= s[i] < n)
      && (forall v :: 0 <= v < n ==> multiset(s)[v] == 1)
  {
    if IsPermutationOf(s, n) {
      PermutationFacts(s, n);
      forall v | 0 <= v < n ensures multiset(s)[v] == 1 {
        GoalCount(n, v);
      }
    }
    if |s| == n && (forall i :: 0 <= i < |s| ==> 0 <= s[i] < n)
       && (forall v :: 0 <= v < n ==> multiset(s)[v] == 1)
    {
      forall v ensures multiset(s)[v] == multiset(Goal(n))[v] {
        GoalCount(n, v);
        if v in multiset(s) {
          var k :| 0 <= k < |s| && s[k] == v;
          assert 0 <= v < n;
        }
      }
      assert multiset(s) == multiset(Goal(n));
    }
  }

  lemma GoalIsBoard(w: nat)
    requires w > 0
    ensures IsBoard(w, Goal(w * w))
  {
    assert Goal(w * w)[0] == 0;
  }

  /**
   * std::find: the first index holding v, or |s| (the end iterator) when v
   * does not occur. This is findZero in astar15.cpp and idfs.cpp, and the goal
   * lookup inside every copy of manhattanDistance.
   */
  function IndexOf(s: seq<int>, v: int): (k: nat)
    ensures k <= |s|
    ensures k < |s| ==> s[k] == v
    ensures forall j :: 0 <= j < k ==> s[j] != v
  {
    if s == [] then 0
    else if s[0] == v then 0
    else 1 + IndexOf(s[1..], v)
  }

  lemma IndexOfDistinct(s: seq<int>, i: int)
    requires 0 <= i < |s|
    requires forall a, b :: 0 <= a < b < |s| ==> s[a] != s[b]
    ensures IndexOf(s, s[i]) == i
  {
    var k := IndexOf(s, s[i]);
    assert k <= i;
    assert s[k] == s[i];
  }

  function Swap(b: seq<int>, i: int, j: int): (r: seq<int>)
    requires 0 <= i < |b| && 0 <= j < |b|
    ensures |r| == |b| && r[i] == b[j] && r[j] == b[i]
    ensures forall k :: 0 <= k < |b| && k != i && k != j ==> r[k] == b[k]
  {
    b[i := b[j]][j := b[i]]
  }

  // ---------------------------------------------------------------------------
  // Moves of the blank
  // ---------------------------------------------------------------------------

  /** The four slides, in the order every strategy tries them. */
  datatype Move = Up | Left | Right | Down

  const MoveOrder: seq<Move> := [Up, Left, Right, Down]

  /**
   * The edge test of each move for a blank at index z: up needs z >= w, down
   * needs z < w*w - w (6 for the 8-puzzle, 12 for the 15-puzzle), left needs a
   * column > 0 and right a column < w - 1.
   */
  predicate CanMove(w: nat, z: int, m: Move)
    requires w > 0
  {
    match m
    case Up => z >= w
    case Left => z % w > 0
    case Right => z % w < w - 1
    case Down => z < w * w - w
  }

  /** The index the blank swaps with. */
  function Target(w: nat, z: int, m: Move): int {
    match m
    case Up => z - w
    case Left => z - 1
    case Right => z + 1
    case Down => z + w
  }

  lemma MulAtLeast(d: int, w: int)
    requires d >= 1 && w > 0
    ensures d * w >= w
  {
    if d > 1 {
      MulAtLeast(d - 1, w);
      assert d * w == (d - 1) * w + w;
    }
  }

  /** Euclidean division is unique: the row and column of an index are determined. */
  lemma DivModUnique(x: int, w: int, q: int, r: int)
    requires w > 0 && x == q * w + r && 0 <= r < w
    ensures x / w == q && x % w == r
  {
    var q0, r0 := x / w, x % w;
    assert x == q0 * w + r0;
    assert (q - q0) * w == r0 - r;
    assert (q0 - q) * w == r - r0;
    if q > q0 {
      MulAtLeast(q - q0, w);
      assert false;
    }
    if q < q0 {
      MulAtLeast(q0 - q, w);
      assert false;
    }
  }

  lemma RowBound(w: int, z: int)
    requires w > 0 && 0 <= z < w * w
    ensures 0 <= z / w < w
  {
    var q := z / w;
    assert z == q * w + z % w;
    assert q * w == (q - w + 1) * w + (w - 1) * w;
    if q >= w {
      MulAtLeast(q - w + 1, w);
      assert false;
    }
  }

  /** A legal move keeps the blank on the board and shifts it by one row or one column. */
  lemma TargetGeometry(w: nat, z: int, m: Move)
    requires w > 0 && 0 <= z < w * w && CanMove(w, z, m)
    ensures 0 <= Target(w, z, m) < w * w
    ensures var t := Target(w, z, m);
      match m
      case Up => t / w == z / w - 1 && t % w == z % w
      case Down => t / w == z / w + 1 && t % w == z % w
      case Left => t / w == z / w && t % w == z % w - 1
      case Right => t / w == z / w && t % w == z % w + 1
  {
    var q, r := z / w, z % w;
    assert z == q * w + r;
    RowBound(w, z);
    match m {
      case Up =>
        assert z - w == (q - 1) * w + r;
        DivModUnique(z - w, w, q - 1, r);
      case Down =>
        assert z + w == (q + 1) * w + r;
        DivModUnique(z + w, w, q + 1, r);
      case Left =>
        DivModUnique(z - 1, w, q, r - 1);
      case Right =>
        DivModUnique(z + 1, w, q, r + 1);
        assert q * w <= (w - 1) * w by {
          if q < w - 1 { MulAtLeast(w - 1 - q, w); assert (w - 1) * w == q * w + (w - 1 - q) * w; }
        }
        assert (w - 1) * w == w * w - w;
    }
  }

  /**
   * One slide: find the blank (std::find) and, if the edge test passes, swap it
   * with the neighbouring tile; None where the source adds no child.
   */
  function Slide(w: nat, b: seq<int>, m: Move): (r: Option<seq<int>>)
    requires w > 0 && |b| == w * w && 0 in b
  {
    var z := IndexOf(b, 0);
    if CanMove(w, z, m) then
      TargetGeometry(w, z, m);
      Some(Swap(b, z, Target(w, z, m)))
    else None
  }

  function OptionToSeq(o: Option<seq<int>>): seq<seq<int>> {
    match o
    case None => []
    case Some(c) => [c]
  }

  /** The children of a board, generated in the fixed order up, left, right, down. */
  function Successors(w: nat, b: seq<int>): seq<seq<int>>
    requires w > 0 && |b| == w * w && 0 in b
  {
    OptionToSeq(Slide(w, b, Up)) + OptionToSeq(Slide(w, b, Left))
    + OptionToSeq(Slide(w, b, Right)) + OptionToSeq(Slide(w, b, Down))
  }

  /** c is one slide away from b. */
  predicate IsSlide(w: nat, b: seq<int>, c: seq<int>) {
    w > 0 && |b| == w * w && 0 in b && c in Successors(w, b)
  }

  /** A sequence of boards in which each is one slide away from the previous one. */
  predicate IsMovePath(w: nat, p: seq<seq<int>>) {
    |p| >= 1 && forall k :: 0 <= k < |p| - 1 ==> IsSlide(w, p[k], p[k + 1])
  }

  /** p leads from start to goal by slides. */
  predicate Solves(w: nat, p: seq<seq<int>>, start: seq<int>, goal: seq<int>) {
    IsMovePath(w, p) && p[0] == start && Last(p) == goal
  }

  /**
   * A slide of a legal board: the result is again a legal board (the
   * permutation is preserved), it differs from the original exactly at the old
   * blank index z and at its neighbour t, the blank now sits at t, and sliding
   * back returns the original board.
   */
  lemma SlideFacts(w: nat, b: seq<int>, m: Move)
    requires IsBoard(w, b)
    ensures 0 in b
    ensures Slide(w, b, m).Some? <==> CanMove(w, IndexOf(b, 0), m)
    ensures Slide(w, b, m).Some? ==>
      var z := IndexOf(b, 0);
      var t := Target(w, z, m);
      var c := Slide(w, b, m).value;
      && 0 <= t < w * w && t != z
      && IsBoard(w, c) && c != b
      && c[t] == 0 && c[z] == b[t] && b[t] != 0
      && (forall k :: 0 <= k < |b| && k != z && k != t ==> c[k] == b[k])
      && IndexOf(c, 0) == t
  {
    PermutationFacts(b, w * w);
    var z := IndexOf(b, 0);
    if CanMove(w, z, m) {
      TargetGeometry(w, z, m);
      var t := Target(w, z, m);
      var c := Swap(b, z, t);
      assert t != z;
      assert b[t] != b[z] by { if t < z { } else { } }
      assert c[t] == 0;
      PermutationFacts(c, w * w);
      IndexOfDistinct(c, t);
      assert c[z] != b[z];
    }
  }

  function Opposite(m: Move): Move {
    match m
    case Up => Down
    case Down => Up
    case Left => Right
    case Right => Left
  }

  /** The opposite move is legal from the target index and brings the blank back. */
  lemma OppositeGeometry(w: nat, z: int, m: Move)
    requires w > 0 && 0 <= z < w * w && CanMove(w, z, m)
    ensures CanMove(w, Target(w, z, m), Opposite(m))
    ensures Target(w, Target(w, z, m), Opposite(m)) == z
  {
    TargetGeometry(w, z, m);
  }

  /** Every slide has an inverse: the opposite slide undoes it. */
  lemma SlideInverse(w: nat, b: seq<int>, m: Move)
    requires IsBoard(w, b) && Slide(w, b, m).Some?
    ensures var c := Slide(w, b, m).value;
      IsBoard(w, c) && Slide(w, c, Opposite(m)) == Some(b)
  {
    SlideFacts(w, b, m);
    var z := IndexOf(b, 0);
    var t := Target(w, z, m);
    var c := Slide(w, b, m).value;
    OppositeGeometry(w, z, m);
    assert Swap(c, t, z) == b;
  }

  lemma InOptionToSeq(o: Option<seq<int>>, c: seq<int>)
    ensures c in OptionToSeq(o) <==> o == Some(c)
  {
  }

  /** The slides out of b are exactly the elements of Successors(w, b), one per legal move. */
  lemma SlideIffSuccessor(w: nat, b: seq<int>, c: seq<int>)
    requires IsBoard(w, b)
    ensures IsSlide(w, b, c) <==> exists m: Move :: Slide(w, b, m) == Some(c)
  {
    var u, l, r, d := Slide(w, b, Up), Slide(w, b, Left), Slide(w, b, Right), Slide(w, b, Down);
    var su, sl, sr, sd := OptionToSeq(u), OptionToSeq(l), OptionToSeq(r), OptionToSeq(d);
    assert Successors(w, b) == su + sl + sr + sd;
    assert c in Successors(w, b) <==> c in su || c in sl || c in sr || c in sd;
    InOptionToSeq(u, c);
    InOptionToSeq(l, c);
    InOptionToSeq(r, c);
    InOptionToSeq(d, c);
    if c in Successors(w, b) {
      if u == Some(c) {
        assert Slide(w, b, Up) == Some(c);
      } else if l == Some(c) {
        assert Slide(w, b, Left) == Some(c);
      } else if r == Some(c) {
        assert Slide(w, b, Right) == Some(c);
      } else {
        assert Slide(w, b, Down) == Some(c);
      }
    }
    if exists m: Move :: Slide(w, b, m) == Some(c) {
      var m: Move :| Slide(w, b, m) == Some(c);
      assert u == Some(c) || l == Some(c) || r == Some(c) || d == Some(c) by {
        match m {
          case Up =>
          case Left =>
          case Right =>
          case Down =>
        }
      }
    }
  }

  /** A board of width at least 2 has between two and four children. */
  lemma SuccessorCount(w: nat, b: seq<int>)
    requires w >= 2 && IsBoard(w, b)
    ensures 0 in b && 2 <= |Successors(w, b)| <= 4
  {
    PermutationFacts(b, w * w);
    var z := IndexOf(b, 0);
    assert w * w - w >= w by { MulAtLeast(w - 1, w); assert w * w - w == (w - 1) * w; }
    assert CanMove(w, z, Up) || CanMove(w, z, Down);
    assert CanMove(w, z, Left) || CanMove(w, z, Right);
  }

  /** Every board of a move path that starts on a legal board is legal. */
  lemma {:induction false} MovePathBoards(w: nat, p: seq<seq<int>>)
    requires IsMovePath(w, p) && IsBoard(w, p[0])
    ensures forall k :: 0 <= k < |p| ==> IsBoard(w, p[k])
  {
    if |p| > 1 {
      SlideStep(w, p[0], p[1]);
      assert IsMovePath(w, p[1..]) by {
        forall k | 0 <= k < |p[1..]| - 1 ensures IsSlide(w, p[1..][k], p[1..][k + 1]) {
          assert IsSlide(w, p[k + 1], p[k + 2]);
        }
      }
      MovePathBoards(w, p[1..]);
      forall k | 0 <= k < |p| ensures IsBoard(w, p[k]) {
        if k > 0 { assert p[k] == p[1..][k - 1]; }
      }
    }
  }

  /** One slide keeps a board legal, changes it, and can be undone by another slide. */
  lemma SlideStep(w: nat, b: seq<int>, c: seq<int>)
    requires IsBoard(w, b) && IsSlide(w, b, c)
    ensures IsBoard(w, c) && c != b && IsSlide(w, c, b)
  {
    SlideIffSuccessor(w, b, c);
    var m: Move :| Slide(w, b, m) == Some(c);
    SlideFacts(w, b, m);
    SlideInverse(w, b, m);
    SlideIffSuccessor(w, c, b);
  }

  /** Every successor of a legal board is a legal board one slide away. */
  lemma SuccessorsAreBoards(w: nat, b: seq<int>)
    requires IsBoard(w, b)
    ensures forall c :: c in Successors(w, b) ==> IsBoard(w, c) && IsSlide(w, b, c)
  {
    forall c | c in Successors(w, b) ensures IsBoard(w, c) && IsSlide(w, b, c) {
      SlideStep(w, b, c);
    }
  }

  // ---------------------------------------------------------------------------
  // Manhattan distance
  // ---------------------------------------------------------------------------

  function Abs(x: int): nat {
    if x < 0 then -x else x
  }

  /** Rows plus columns between board indices i and j. */
  function Dist(w: nat, i: int, j: int): nat
    requires w > 0
  {
    Abs(i / w - j / w) + Abs(i % w - j % w)
  }

  /** The contribution of index i: 0 for the blank, otherwise its distance to the tile's goal index. */
  function Term(w: nat, s: seq<int>, g: seq<int>, i: int): nat
    requires w > 0 && 0 <= i < |s|
  {
    if s[i] == 0 then 0 else Dist(w, i, IndexOf(g, s[i]))
  }

  function Terms(w: nat, s: seq<int>, g: seq<int>): (t: seq<int>)
    requires w > 0
    ensures |t| == |s| && forall i :: 0 <= i < |s| ==> t[i] == Term(w, s, g, i)
  {
    seq(|s|, i requires 0 <= i < |s| => Term(w, s, g, i))
  }

  function Sum(xs: seq<int>): int {
    if xs == [] then 0 else Sum(xs[..|xs| - 1]) + xs[|xs| - 1]
  }

  /** The Manhattan heuristic of state s against goal g for width w. */
  function Manhattan(w: nat, s: seq<int>, g: seq<int>): int
    requires w > 0
  {
    Sum(Terms(w, s, g))
  }

  lemma {:induction false} SumNonNegative(xs: seq<int>)
    requires forall i :: 0 <= i < |xs| ==> xs[i] >= 0
    ensures Sum(xs) >= 0
  {
    if xs != [] {
      SumNonNegative(xs[..|xs| - 1]);
    }
  }

  lemma {:induction false} SumZero(xs: seq<int>)
    requires forall i :: 0 <= i < |xs| ==> xs[i] == 0
    ensures Sum(xs) == 0
  {
    if xs != [] {
      SumZero(xs[..|xs| - 1]);
    }
  }

  lemma {:induction false} SumUpdate(xs: seq<int>, i: int, v: int)
    requires 0 <= i < |xs|
    ensures Sum(xs[i := v]) == Sum(xs) - xs[i] + v
  {
    var n := |xs| - 1;
    var ys := xs[i := v];
    if i < n {
      assert ys[..n] == xs[..n][i := v];
      SumUpdate(xs[..n], i, v);
    } else {
      assert ys[..n] == xs[..n];
    }
  }

  lemma ManhattanNonNegative(w: nat, s: seq<int>, g: seq<int>)
    requires w > 0
    ensures Manhattan(w, s, g) >= 0
  {
    SumNonNegative(Terms(w, s, g));
  }

  /** The goal board has heuristic 0 (astar.cpp:25-40 and every other copy). */
  lemma ManhattanOfGoal(w: nat, g: seq<int>)
    requires IsBoard(w, g)
    ensures Manhattan(w, g, g) == 0
  {
    PermutationFacts(g, w * w);
    forall i | 0 <= i < |g| ensures Terms(w, g, g)[i] == 0 {
      IndexOfDistinct(g, i);
    }
    SumZero(Terms(w, g, g));
  }

  lemma DistZero(w: nat, i: int, j: int)
    requires w > 0 && Dist(w, i, j) == 0
    ensures i == j
  {
    assert i == (i / w) * w + i % w;
    assert j == (j / w) * w + j % w;
  }

  /** A sum of non-negative terms is zero exactly when every term is zero. */
  lemma {:induction false} SumZeroIffZeros(xs: seq<int>)
    requires forall i :: 0 <= i < |xs| ==> xs[i] >= 0
    ensures Sum(xs) == 0 <==> forall i :: 0 <= i < |xs| ==> xs[i] == 0
  {
    if xs != [] {
      var n := |xs| - 1;
      SumNonNegative(xs[..n]);
      SumZeroIffZeros(xs[..n]);
      assert forall i :: 0 <= i < n ==> xs[..n][i] == xs[i];
    }
  }

  /** The heuristic vanishes exactly on the goal: h(s, g) == 0 iff s == g. */
  lemma ManhattanZeroIffGoal(w: nat, s: seq<int>, g: seq<int>)
    requires IsBoard(w, s) && IsBoard(w, g)
    ensures Manhattan(w, s, g) == 0 <==> s == g
  {
    if s == g {
      ManhattanOfGoal(w, g);
    }
    var ts := Terms(w, s, g);
    SumZeroIffZeros(ts);
    if Manhattan(w, s, g) == 0 {
      PermutationFacts(s, w * w);
      PermutationFacts(g, w * w);
      // every tile sits at its goal index, so the blanks coincide too
      forall i | 0 <= i < |s| && s[i] != 0 ensures g[i] == s[i] {
        assert ts[i] == 0;
        assert s[i] in multiset(s);
        assert s[i] in g;
        var k := IndexOf(g, s[i]);
        assert k < |g|;
        DistZero(w, i, k);
      }
      forall i | 0 <= i < |s| ensures g[i] == s[i] {
        var v := g[i];
        assert v in multiset(g);
        assert v in multiset(s);
        var j :| 0 <= j < |s| && s[j] == v;
        assert v != 0 ==> g[j] == s[j];
        assert v != 0 ==> j == i by { if j < i { } else { } }
      }
      assert s == g;
    }
  }

  lemma AbsStep(a: int, c: int)
    ensures Abs(a - c) - Abs(a - 1 - c) == 1 || Abs(a - c) - Abs(a - 1 - c) == -1
  {
  }

  /**
   * Consistency: one slide changes the heuristic by exactly one, because only
   * the tile that moves into the old blank cell changes index, by one row or
   * one column, and the blank itself is not counted.
   */
  lemma ManhattanSlide(w: nat, b: seq<int>, g: seq<int>, m: Move)
    requires IsBoard(w, b) && Slide(w, b, m).Some?
    ensures var d := Manhattan(w, Slide(w, b, m).value, g) - Manhattan(w, b, g);
      d == 1 || d == -1
  {
    SlideFacts(w, b, m);
    var z := IndexOf(b, 0);
    var t := Target(w, z, m);
    TargetGeometry(w, z, m);
    var p := IndexOf(g, b[t]);
    ManhattanSwap(w, b, Slide(w, b, m).value, g, z, t);
    match m {
      case Up => AbsStep(z / w, p / w);
      case Down => AbsStep(t / w, p / w);
      case Left => AbsStep(z % w, p % w);
      case Right => AbsStep(t % w, p % w);
    }
  }

  /**
   * Moving the tile at t into the blank cell z changes the heuristic by the
   * difference of that tile's two distances to its goal cell.
   */
  lemma ManhattanSwap(w: nat, b: seq<int>, c: seq<int>, g: seq<int>, z: int, t: int)
    requires w > 0 && |c| == |b| && 0 <= z < |b| && 0 <= t < |b| && z != t
    requires b[z] == 0 && c[t] == 0 && c[z] == b[t] && b[t] != 0
    requires forall k :: 0 <= k < |b| && k != z && k != t ==> c[k] == b[k]
    ensures Manhattan(w, c, g) == Manhattan(w, b, g) + Dist(w, z, IndexOf(g, b[t])) - Dist(w, t, IndexOf(g, b[t]))
  {
    var tb := Terms(w, b, g);
    var d1 := Dist(w, z, IndexOf(g, b[t]));
    assert Terms(w, c, g) == tb[z := d1][t := 0];
    SumUpdate(tb, z, d1);
    SumUpdate(tb[z := d1], t, 0);
  }

  /** The same bound for any pair of boards one slide apart. */
  lemma ManhattanStep(w: nat, b: seq<int>, c: seq<int>, g: seq<int>)
    requires IsBoard(w, b) && IsSlide(w, b, c)
    ensures Manhattan(w, c, g) - Manhattan(w, b, g) <= 1
    ensures Manhattan(w, b, g) - Manhattan(w, c, g) <= 1
  {
    SlideIffSuccessor(w, b, c);
    var m: Move :| Slide(w, b, m) == Some(c);
    ManhattanSlide(w, b, g, m);
  }

  /**
   * Admissibility: the heuristic never overestimates. Any move path from s to
   * the goal takes at least Manhattan(w, s, goal) slides.
   */
  lemma {:induction false} ManhattanAdmissible(w: nat, p: seq<seq<int>>, g: seq<int>)
    requires IsMovePath(w, p) && IsBoard(w, p[0]) && IsBoard(w, g) && Last(p) == g
    ensures Manhattan(w, p[0], g) <= |p| - 1
  {
    if |p| == 1 {
      ManhattanOfGoal(w, g);
    } else {
      SlideStep(w, p[0], p[1]);
      assert IsMovePath(w, p[1..]) by {
        forall k | 0 <= k < |p[1..]| - 1 ensures IsSlide(w, p[1..][k], p[1..][k + 1]) {
          assert IsSlide(w, p[k + 1], p[k + 2]);
        }
      }
      ManhattanAdmissible(w, p[1..], g);
      ManhattanStep(w, p[0], p[1], g);
    }
  }

  /** Dropping the last board of a move path leaves a move path that ends one slide before the last board. */
  lemma MovePathInit(w: nat, p: seq<seq<int>>)
    requires IsMovePath(w, p) && |p| >= 2
    ensures var q := p[..|p| - 1];
      IsMovePath(w, q) && q[0] == p[0] && Last(q) == p[|p| - 2] && IsSlide(w, p[|p| - 2], Last(p))
  {
    var q := p[..|p| - 1];
    forall k | 0 <= k < |q| - 1 ensures IsSlide(w, q[k], q[k + 1]) {
      assert IsSlide(w, p[k], p[k + 1]);
    }
  }

  /** The first i boards of a move path form a move path that ends at position i - 1. */
  lemma MovePathPrefix(w: nat, p: seq<seq<int>>, i: nat)
    requires IsMovePath(w, p) && 1 <= i <= |p|
    ensures IsMovePath(w, p[..i]) && p[..i][0] == p[0] && Last(p[..i]) == p[i - 1]
  {
    forall k | 0 <= k < i - 1 ensures IsSlide(w, p[..i][k], p[..i][k + 1]) {
      assert IsSlide(w, p[k], p[k + 1]);
    }
  }

  /** The stretch of a move path from position i on is a move path with the same end. */
  lemma MovePathFrom(w: nat, p: seq<seq<int>>, i: nat)
    requires IsMovePath(w, p) && i < |p|
    ensures IsMovePath(w, p[i..]) && p[i..][0] == p[i] && Last(p[i..]) == Last(p)
  {
    forall k | 0 <= k < |p[i..]| - 1 ensures IsSlide(w, p[i..][k], p[i..][k + 1]) {
      assert IsSlide(w, p[i + k], p[i + k + 1]);
    }
  }

  /**
   * Consistency along a path: the Manhattan distance at the first board of a
   * move path exceeds the one at its last board by at most the number of
   * slides.
   */
  lemma {:induction false} ManhattanAlongPath(w: nat, p: seq<seq<int>>, g: seq<int>)
    requires IsMovePath(w, p) && IsBoard(w, p[0])
    ensures Manhattan(w, p[0], g) <= |p| - 1 + Manhattan(w, Last(p), g)
    decreases |p|
  {
    if |p| > 1 {
      SlideStep(w, p[0], p[1]);
      MovePathFrom(w, p, 1);
      ManhattanAlongPath(w, p[1..], g);
      ManhattanStep(w, p[0], p[1], g);
    }
  }

  /**
   * The accumulator loop of manhattanDistance (width 3 in astar.cpp, gbfs.cpp,
   * idastar.cpp and idfs.cpp; width 4 in astar15.cpp): visit every index, skip
   * the blank, look the tile up in the goal with std::find and add its row and
   * column differences.
   */
  method ManhattanDistance(w: nat, state: seq<int>, goal: seq<int>) returns (distance: int)
    requires w > 0
    ensures distance == Manhattan(w, state, goal)
  {
    distance := 0;
    ghost var ts := Terms(w, state, goal);
    for i := 0 to |state|
      invariant distance == Sum(ts[..i])
    {
      if state[i] != 0 {
        var goalPos := IndexOf(goal, state[i]);
        var rowDistance := Abs(i / w - goalPos / w);
        var colDistance := Abs(i % w - goalPos % w);
        distance := distance + rowDistance + colDistance;
      }
      assert ts[..i + 1][..i] == ts[..i];
    }
    assert ts[..|state|] == ts;
  }

  /** findZero of idastar.cpp: the first index holding 0, or -1 when there is none. */
  method FindZero(state: seq<int>) returns (z: int)
    ensures z == -1 ==> 0 !in state
    ensures z != -1 ==> 0 <= z < |state| && state[z] == 0 && 0 !in state[..z]
    ensures z == (if IndexOf(state, 0) == |state| then -1 else IndexOf(state, 0))
  {
    for i := 0 to |state|
      invariant 0 !in state[..i]
    {
      if state[i] == 0 {
        return i;
      }
      assert state[..i + 1] == state[..i] + [state[i]];
    }
    assert state[..|state|] == state;
    return -1;
  }
}
