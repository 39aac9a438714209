/**
 * Input handling of main.cpp: the validator that accepts a start state, the
 * comma-separated list of start states, and the choice of puzzle size and
 * goal by the algorithm flag.
 */
module Input {
  import opened Puzzle

  /** Every value of s lies in 0 .. n-1. */
  predicate InRange(s: seq<int>, n: int) {
    forall i :: 0 <= i < |s| ==> 0 <= s[i] < n
  }

  /**
   * The three checks of isValidPuzzleState: the size is n, every value lies
   * in 0 .. n-1, and every value in 0 .. n-1 occurs exactly once.
   */
  predicate ValidState(s: seq<int>, n: int) {
    |s| == n && InRange(s, n) && forall v :: 0 <= v < n ==> multiset(s)[v] == 1
  }

  /** The validator accepts exactly the permutations of 0 .. n-1. */
  lemma ValidStateIffPermutation(s: seq<int>, n: nat)
    ensures ValidState(s, n) <==> IsPermutationOf(s, n)
  {
    if ValidState(s, n) {
      forall v | v in multiset(s) ensures 0 <= v < n {
        var i :| 0 <= i < |s| && s[i] == v;
      }
      forall v ensures multiset(s)[v] == multiset(Goal(n))[v] {
        GoalCount(n, v);
      }
      assert multiset(s) == multiset(Goal(n));
    }
    if IsPermutationOf(s, n) {
      PermutationFacts(s, n);
      forall v | 0 <= v < n ensures multiset(s)[v] == 1 {
        GoalCount(n, v);
      }
    }
  }

  /** A state is accepted for the size w*w exactly when it is a legal board of width w. */
  lemma ValidStateIffBoard(w: nat, s: seq<int>)
    requires w > 0
    ensures ValidState(s, w * w) <==> IsBoard(w, s)
  {
    ValidStateIffPermutation(s, w * w);
    if IsPermutationOf(s, w * w) {
      PermutationFacts(s, w * w);
    }
  }

  /**
   * isValidPuzzleState: a size check, then one pass that counts each value
   * into `counts`, failing on the first value out of range, then a pass that
   * fails on the first count other than one.
   */
  method IsValidPuzzleState(state: seq<int>, puzzleSize: int) returns (ok: bool)
    ensures ok <==> ValidState(state, puzzleSize)
    ensures |state| != puzzleSize ==> !ok
  {
    if |state| != puzzleSize {
      return false;
    }
    var counts := new int[puzzleSize](_ => 0);
    var i := 0;
    while i < |state|
      invariant 0 <= i <= |state|
      invariant InRange(state[..i], puzzleSize)
      invariant forall v :: 0 <= v < puzzleSize ==> counts[v] == multiset(state[..i])[v]
    {
      var val := state[i];
      if val < 0 || val >= puzzleSize {
        assert !InRange(state, puzzleSize) by {
          assert !(0 <= state[i] < puzzleSize);
        }
        return false;
      }
      assert state[..i + 1] == state[..i] + [val];
      counts[val] := counts[val] + 1;
      i := i + 1;
    }
    assert state[..i] == state;
    var j := 0;
    while j < puzzleSize
      invariant 0 <= j <= puzzleSize
      invariant forall v :: 0 <= v < j ==> counts[v] == 1
    {
      if counts[j] != 1 {
        return false;
      }
      j := j + 1;
    }
    return true;
  }

  /** The start states the validator keeps, in token order. */
  function Accepted(tokens: seq<string>, parse: string -> seq<int>, n: int): (r: seq<seq<int>>)
    ensures |r| <= |tokens|
  {
    if tokens == [] then []
    else
      var s := parse(tokens[0]);
      (if ValidState(s, n) then [s] else []) + Accepted(tokens[1..], parse, n)
  }

  /** Every state kept passes the validator. */
  lemma {:induction false} AcceptedAreValid(tokens: seq<string>, parse: string -> seq<int>, n: int)
    ensures forall s :: s in Accepted(tokens, parse, n) ==> ValidState(s, n)
    decreases |tokens|
  {
    if tokens != [] {
      AcceptedAreValid(tokens[1..], parse, n);
    }
  }

  /** The filter works token by token: one list after another keeps the states of each, in order. */
  lemma {:induction false} AcceptedAppend(t1: seq<string>, t2: seq<string>, parse: string -> seq<int>, n: int)
    ensures Accepted(t1 + t2, parse, n) == Accepted(t1, parse, n) + Accepted(t2, parse, n)
    decreases |t1|
  {
    if t1 == [] {
      assert t1 + t2 == t2;
    } else {
      var t := t1 + t2;
      assert t[0] == t1[0] && t[1..] == t1[1..] + t2;
      var head := if ValidState(parse(t1[0]), n) then [parse(t1[0])] else [];
      assert Accepted(t, parse, n) == head + Accepted(t1[1..] + t2, parse, n);
      assert Accepted(t1, parse, n) == head + Accepted(t1[1..], parse, n);
      AcceptedAppend(t1[1..], t2, parse, n);
    }
  }

  /** A token the validator refuses adds nothing; one it accepts adds exactly its state. */
  lemma AcceptedOne(t: string, parse: string -> seq<int>, n: int)
    ensures ValidState(parse(t), n) ==> Accepted([t], parse, n) == [parse(t)]
    ensures !ValidState(parse(t), n) ==> Accepted([t], parse, n) == []
  {
    assert [t][1..] == [];
  }

  /** Position of the first comma in s, or |s| when there is none. */
  function CommaAt(s: string): (k: nat)
    ensures k <= |s|
    ensures k < |s| ==> s[k] == ','
  {
    if s == [] then 0
    else if s[0] == ',' then 0
    else 1 + CommaAt(s[1..])
  }

  /** No comma comes before CommaAt(s). */
  lemma {:induction false} CommaAtIsFirst(s: string)
    ensures forall j :: 0 <= j < CommaAt(s) ==> s[j] != ','
    decreases |s|
  {
    if s != [] && s[0] != ',' {
      CommaAtIsFirst(s[1..]);
      assert forall j :: 1 <= j < CommaAt(s) ==> s[j] == s[1..][j - 1];
    }
  }

  /**
   * The tokens std::getline(ss, token, ',') yields: the text up to each comma,
   * and the text after the last comma unless it is empty.
   */
  function Split(s: string): seq<string>
    decreases |s|
  {
    if s == [] then []
    else
      var k := CommaAt(s);
      if k == |s| then [s] else [s[..k]] + Split(s[k + 1..])
  }

  /** Tokens joined back with commas. */
  function Join(tokens: seq<string>): string {
    if tokens == [] then []
    else if |tokens| == 1 then tokens[0]
    else tokens[0] + [','] + Join(tokens[1..])
  }

  /** No token holds a comma. */
  lemma {:induction false} SplitHasNoComma(s: string)
    ensures forall t, j :: t in Split(s) && 0 <= j < |t| ==> t[j] != ','
    decreases |s|
  {
    if s != [] {
      CommaAtIsFirst(s);
      if CommaAt(s) < |s| {
        SplitHasNoComma(s[CommaAt(s) + 1..]);
      }
    }
  }

  /**
   * Joining the tokens with commas gives back the input, except that a
   * trailing comma, which yields no empty last token, is lost.
   */
  lemma {:induction false} SplitJoin(s: string)
    ensures Join(Split(s)) + (if s != [] && s[|s| - 1] == ',' then [','] else []) == s
    decreases |s|
  {
    if s != [] {
      var k := CommaAt(s);
      CommaAtIsFirst(s);
      if k < |s| {
        var head, rest := s[..k], s[k + 1..];
        assert s == head + [','] + rest;
        SplitJoin(rest);
        if rest != [] {
          var ts := Split(rest);
          assert ts != [];
          assert Split(s) == [head] + ts;
          JoinCons(head, ts);
          assert rest[|rest| - 1] == s[|s| - 1];
        }
      }
    }
  }

  lemma JoinCons(t: string, ts: seq<string>)
    requires ts != []
    ensures Join([t] + ts) == t + [','] + Join(ts)
  {
    assert ([t] + ts)[1..] == ts;
  }

  lemma SplitFirst(s: string)
    requires s != []
    ensures CommaAt(s) == |s| ==> Split(s) == [s]
    ensures CommaAt(s) < |s| ==> Split(s) == [s[..CommaAt(s)]] + Split(s[CommaAt(s) + 1..])
  {
  }

  /** Reading one token: the states kept from `rest` are those of its first token, then those of the text after it. */
  lemma SplitStep(rest: string, parse: string -> seq<int>, n: int)
    requires rest != []
    ensures var k := CommaAt(rest);
      var after := if k < |rest| then rest[k + 1..] else [];
      Accepted(Split(rest), parse, n)
        == (if ValidState(parse(rest[..k]), n) then [parse(rest[..k])] else []) + Accepted(Split(after), parse, n)
  {
    var k := CommaAt(rest);
    var after := if k < |rest| then rest[k + 1..] else [];
    SplitFirst(rest);
    if k == |rest| {
      assert rest[..k] == rest;
      assert Split(rest) == [rest[..k]] + Split(after);
    }
    AcceptedAppend([rest[..k]], Split(after), parse, n);
    AcceptedOne(rest[..k], parse, n);
  }

  /**
   * parseInputStates: reads the comma-separated tokens of `input` in turn
   * (`rest` is the text the stream has still to deliver),
   * turns each into integers with `parse` (the stream extraction), and
   * appends the result to `states` when the validator accepts it.
   */
  method ParseInputStates(input: string, states: seq<seq<int>>, parse: string -> seq<int>, puzzleSize: int)
    returns (out: seq<seq<int>>)
    ensures out == states + Accepted(Split(input), parse, puzzleSize)
  {
    out := states;
    var rest := input;
    while rest != []
      invariant out + Accepted(Split(rest), parse, puzzleSize) == states + Accepted(Split(input), parse, puzzleSize)
      decreases |rest|
    {
      var k := CommaAt(rest);
      var token := rest[..k];
      var state := parse(token);
      var ok := IsValidPuzzleState(state, puzzleSize);
      SplitStep(rest, parse, puzzleSize);
      rest := if k < |rest| then rest[k + 1..] else [];
      ghost var kept := Accepted(Split(rest), parse, puzzleSize);
      var out' := if ok then out + [state] else out;
      assert out + ((if ok then [state] else []) + kept) == out' + kept;
      out := out';
    }
  }

  /** Every state parseInputStates adds is a legal board of the chosen width. */
  lemma ParsedAreBoards(w: nat, input: string, parse: string -> seq<int>)
    requires w > 0
    ensures forall s :: s in Accepted(Split(input), parse, w * w) ==> IsBoard(w, s)
  {
    AcceptedAreValid(Split(input), parse, w * w);
    forall s | s in Accepted(Split(input), parse, w * w) ensures IsBoard(w, s) {
      ValidStateIffBoard(w, s);
    }
  }

  /** The flag "-astar15" selects the 15-puzzle; every other flag the 8-puzzle. */
  function PuzzleSize(algorithm: string): int {
    if algorithm == "-astar15" then 16 else 9
  }

  /** The board width that goes with a flag. */
  function Width(algorithm: string): nat {
    if algorithm == "-astar15" then 4 else 3
  }

  /**
   * The puzzle size is the square of the width, 16 for "-astar15" only, and
   * the goal [0, 1, ..., size-1] chosen for it passes the validator and is a
   * legal board.
   */
  lemma SelectedGoal(algorithm: string)
    ensures PuzzleSize(algorithm) == Width(algorithm) * Width(algorithm)
    ensures PuzzleSize(algorithm) == 16 <==> algorithm == "-astar15"
    ensures PuzzleSize(algorithm) == 9 <==> algorithm != "-astar15"
    ensures ValidState(Goal(PuzzleSize(algorithm)), PuzzleSize(algorithm))
    ensures IsBoard(Width(algorithm), Goal(PuzzleSize(algorithm)))
  {
    var w := Width(algorithm);
    GoalIsBoard(w);
    ValidStateIffBoard(w, Goal(w * w));
  }
}
