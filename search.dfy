/** `search` and `solve`: depth-first search over copies of the board,
    propagating with `reduce_puzzle` at every node. */
module Search {
  import opened Topology
  import opened Board
  import opened Grid
  import opened Reduction

  /** What `search` returns: False (the propagation met an empty cell), a
      solved board, or None (every branch failed: the loop falls off the end). */
  datatype Outcome = Contradiction | Found(board: seq<Cands>) | Exhausted

  /** The best unsolved cell among 0 .. n-1: fewest candidates, and the
      earliest one on a tie. */
  function MinCell(s: seq<Cands>, n: int): (r: Option<int>)
    requires |s| == 81 && 0 <= n <= 81
    ensures r.Some? ==> 0 <= r.value < n && |s[r.value]| > 1
  {
    if n == 0 then None
    else
      var b := MinCell(s, n - 1);
      if |s[n - 1]| > 1 && (b.None? || |s[n - 1]| < |s[b.value]|) then Some(n - 1) else b
  }

  lemma {:induction false} MinCellIsMin(s: seq<Cands>, n: int)
    requires |s| == 81 && 0 <= n <= 81
    ensures MinCell(s, n).None? <==> forall j :: 0 <= j < n ==> |s[j]| <= 1
    ensures MinCell(s, n).Some? ==> forall j :: 0 <= j < n && |s[j]| > 1 ==>
              |s[MinCell(s, n).value]| < |s[j]| || (|s[MinCell(s, n).value]| == |s[j]| && MinCell(s, n).value <= j)
    decreases n
  {
    if n > 0 {
      MinCellIsMin(s, n - 1);
    }
  }

  /** The unsolved cell with the fewest candidates, the smallest name on a
      tie (solution.py:199). */
  function Fewest(s: seq<Cands>): (c: int)
    requires |s| == 81 && exists j :: 0 <= j < 81 && |s[j]| > 1
    ensures 0 <= c < 81 && |s[c]| > 1
  {
    MinCellIsMin(s, 81);
    MinCell(s, 81).value
  }

  /** The chosen cell is the least pair (number of candidates, cell name)
      over the unsolved cells, in Python's tuple and string order. */
  lemma FewestIsLeast(s: seq<Cands>)
    requires |s| == 81 && exists j :: 0 <= j < 81 && |s[j]| > 1
    ensures forall j :: 0 <= j < 81 && j != Fewest(s) && |s[j]| > 1 ==>
              |s[Fewest(s)]| < |s[j]| || (|s[Fewest(s)]| == |s[j]| && LexLess(Name(Fewest(s)), Name(j)))
  {
    MinCellIsMin(s, 81);
    var c := Fewest(s);
    forall j | 0 <= j < 81 && j != c && |s[j]| > 1
      ensures |s[c]| < |s[j]| || (|s[c]| == |s[j]| && LexLess(Name(c), Name(j)))
    {
      NameOrder(c, j);
    }
  }

  /** Fixing an unsolved cell to one of its digits lowers the total
      number of candidates: the measure the recursion descends on. */
  lemma BranchSmaller(b: seq<Cands>, c: int, d: Digit)
    requires |b| == 81 && 0 <= c < 81 && |b[c]| > 1 && d in b[c]
    ensures Total(b[c := {d}]) < Total(b)
  {
    var x := b[c];
    assert |{d}| == 1 < |x|;
    assert {d} != x;
    assert {d} < x;
    assert b[c := {d}][c] < b[c];
    TotalMonotone(b[c := {d}], b);
  }

  /** A board with no empty cell that is not solved has an unsolved cell. */
  lemma UnsolvedCell(t: seq<Cands>)
    requires |t| == 81 && !HasEmpty(t) && !AllSolved(t)
    ensures exists j :: 0 <= j < 81 && |t[j]| > 1
  {
    var j :| 0 <= j < 81 && !Solved(t[j]);
    assert t[j] != {};
  }

  /** The result of `search` on a board. */
  function SearchResult(s: seq<Cands>): Outcome
    requires |s| == 81
    decreases Total(s), 1, 0
  {
    var red := Reduce(s);
    if !red.ok then Contradiction
    else if AllSolved(red.board) then Found(red.board)
    else
      ReduceShrinks(s);
      TotalMonotone(red.board, s);
      ReduceFails(s);
      UnsolvedCell(red.board);
      TryDigits(red.board, Fewest(red.board), 1)
  }

  /** `for value in values[s]`, from digit d on: the first branch that finds
      a board wins. */
  function TryDigits(b: seq<Cands>, c: int, d: int): Outcome
    requires |b| == 81 && 0 <= c < 81 && |b[c]| > 1 && 1 <= d <= 10
    decreases Total(b), 0, 10 - d
  {
    if d == 10 then Exhausted
    else if d in b[c] then
      BranchSmaller(b, c, d);
      var attempt := SearchResult(b[c := {d}]);
      if attempt.Found? then attempt else TryDigits(b, c, d + 1)
    else TryDigits(b, c, d + 1)
  }

  method Search(values: array<Cands>) returns (r: Outcome)
    requires values.Length == 81
    modifies values
    ensures r == SearchResult(old(values[..]))
    ensures values[..] == Reduce(old(values[..])).board
    decreases Total(values[..])
  {
    ghost var s0 := values[..];
    var ok := ReducePuzzle(values);
    if !ok {
      return Contradiction;
    }
    if AllSolved(values[..]) {
      return Found(values[..]);
    }
    ghost var b := values[..];
    ReduceShrinks(s0);
    TotalMonotone(b, s0);
    ReduceFails(s0);
    UnsolvedCell(b);
    var c := Fewest(values[..]);
    var value := values[c];
    for d := 1 to 10
      invariant values[..] == b
      invariant TryDigits(b, c, 1) == TryDigits(b, c, d)
    {
      if d in value {
        var copy := Branch(values, c, d);
        BranchSmaller(b, c, d);
        var attempt := Search(copy);
        if attempt.Found? {
          return attempt;
        }
      }
    }
    return Exhausted;
  }

  /** A new board equal to the given one except that cell c holds only d
      (solution.py:202-203). */
  method Branch(values: array<Cands>, c: int, d: Digit) returns (copy: array<Cands>)
    requires values.Length == 81 && 0 <= c < 81
    ensures fresh(copy) && copy[..] == values[..][c := {d}]
  {
    copy := new Cands[81](i requires 0 <= i < 81 reads values => values[i]);
    copy[c] := {d};
  }

  /** A board `search` returns is solved, repeats no digit among peers, and
      keeps only candidates the input had (so the givens are kept). */
  lemma {:induction false} SearchFound(s: seq<Cands>)
    requires |s| == 81 && SearchResult(s).Found?
    ensures var x := SearchResult(s).board;
            AllSolved(x) && PeersConsistent(x) && Shrinks(x, s)
    decreases Total(s), 1, 0
  {
    var red := Reduce(s);
    ReduceShrinks(s);
    if AllSolved(red.board) {
      ReduceConsistent(s);
    } else {
      TotalMonotone(red.board, s);
      ReduceFails(s);
      UnsolvedCell(red.board);
      TryFound(red.board, Fewest(red.board), 1);
      ShrinksTrans(SearchResult(s).board, red.board, s);
    }
  }

  lemma {:induction false} TryFound(b: seq<Cands>, c: int, d: int)
    requires |b| == 81 && 0 <= c < 81 && |b[c]| > 1 && 1 <= d <= 10 && TryDigits(b, c, d).Found?
    ensures var x := TryDigits(b, c, d).board;
            AllSolved(x) && PeersConsistent(x) && Shrinks(x, b)
    decreases Total(b), 0, 10 - d
  {
    if d in b[c] {
      BranchSmaller(b, c, d);
      var branch := b[c := {d}];
      if SearchResult(branch).Found? {
        SearchFound(branch);
        ShrinksTrans(SearchResult(branch).board, branch, b);
      } else {
        TryFound(b, c, d + 1);
      }
    } else {
      TryFound(b, c, d + 1);
    }
  }

  /** A returned board spells a solution of the puzzle that agrees with
      every cell's input candidates. */
  lemma SearchSolves(s: seq<Cands>)
    requires |s| == 81 && SearchResult(s).Found?
    ensures AllSolved(SearchResult(s).board)
    ensures IsSolution(DigitsOf(SearchResult(s).board))
    ensures Within(DigitsOf(SearchResult(s).board), s)
    ensures forall c :: 0 <= c < 81 && Solved(s[c]) ==> SearchResult(s).board[c] == s[c]
  {
    var x := SearchResult(s).board;
    SearchFound(s);
    SolvedBoardIsSolution(x);
    forall c | 0 <= c < 81 && Solved(s[c])
      ensures x[c] == s[c]
    {
      SingletonSubset(x[c], s[c]);
    }
  }

  /** If the board admits a solution at all, `search` returns a board. */
  lemma {:induction false} SearchComplete(sol: seq<Digit>, s: seq<Cands>)
    requires |s| == 81 && IsSolution(sol) && Within(sol, s)
    ensures SearchResult(s).Found?
    decreases Total(s), 1, 0
  {
    var red := Reduce(s);
    ReduceSound(sol, s);
    if !AllSolved(red.board) {
      ReduceShrinks(s);
      TotalMonotone(red.board, s);
      ReduceFails(s);
      UnsolvedCell(red.board);
      TryComplete(sol, red.board, Fewest(red.board), 1);
    }
  }

  /** Digits are tried in ascending order, so the branch of the solution's
      own digit is reached unless an earlier branch already found a board. */
  lemma {:induction false} TryComplete(sol: seq<Digit>, b: seq<Cands>, c: int, d: int)
    requires IsSolution(sol) && Within(sol, b)
    requires 0 <= c < 81 && |b[c]| > 1 && 1 <= d <= sol[c]
    ensures TryDigits(b, c, d).Found?
    decreases Total(b), 0, 10 - d
  {
    BranchSmaller(b, c, sol[c]);
    if d == sol[c] {
      SearchComplete(sol, b[c := {d}]);
    } else if !(d in b[c] && (BranchSmaller(b, c, d); SearchResult(b[c := {d}]).Found?)) {
      TryComplete(sol, b, c, d + 1);
    }
  }

  lemma {:induction false} TryNotContradiction(b: seq<Cands>, c: int, d: int)
    requires |b| == 81 && 0 <= c < 81 && |b[c]| > 1 && 1 <= d <= 10
    ensures !TryDigits(b, c, d).Contradiction?
    decreases 10 - d
  {
    if d < 10 {
      TryNotContradiction(b, c, d + 1);
    }
  }

  /** False is returned exactly when the propagation at the root met an
      empty cell; None (Exhausted) only when no branch found a board. Either
      way the board admits no solution. */
  lemma SearchFails(s: seq<Cands>)
    requires |s| == 81
    ensures SearchResult(s).Contradiction? <==> !Reduce(s).ok
    ensures !SearchResult(s).Found? ==> forall sol :: IsSolution(sol) ==> !Within(sol, s)
  {
    var red := Reduce(s);
    if red.ok && !AllSolved(red.board) {
      ReduceFails(s);
      UnsolvedCell(red.board);
      TryNotContradiction(red.board, Fewest(red.board), 1);
    }
    forall sol | IsSolution(sol) && Within(sol, s)
      ensures SearchResult(s).Found?
    {
      SearchComplete(sol, s);
    }
  }

  /** What `solve` gives: the assertion in `grid_values` failing, or what
      `search` returns. */
  datatype SolveOutcome = Malformed | Searched(outcome: Outcome)

  function SolveResult(grid: string): SolveOutcome
  {
    if |Recognized(grid)| == 81 then Searched(SearchResult(Recognized(grid))) else Malformed
  }

  method Solve(grid: string) returns (r: SolveOutcome)
    ensures r == SolveResult(grid)
  {
    var parsed := GridValues(grid);
    if parsed.None? {
      return Malformed;
    }
    var values := new Cands[81](i requires 0 <= i < 81 => parsed.value[i]);
    assert values[..] == parsed.value;
    var outcome := Search(values);
    return Searched(outcome);
  }

  /** A board `solve` returns spells a solution that agrees with the
      grid: every given digit is kept and every blank gets some digit. */
  lemma SolveFound(grid: string)
    requires SolveResult(grid).Searched? && SolveResult(grid).outcome.Found?
    ensures AllSolved(SolveResult(grid).outcome.board)
    ensures IsSolution(DigitsOf(SolveResult(grid).outcome.board))
    ensures Within(DigitsOf(SolveResult(grid).outcome.board), Recognized(grid))
    ensures forall c :: 0 <= c < 81 && Solved(Recognized(grid)[c]) ==> SolveResult(grid).outcome.board[c] == Recognized(grid)[c]
  {
    SearchSolves(Recognized(grid));
  }

  /** A well-formed grid admitting a solution is always solved. */
  lemma SolveComplete(grid: string, sol: seq<Digit>)
    requires |Recognized(grid)| == 81 && IsSolution(sol) && Within(sol, Recognized(grid))
    ensures SolveResult(grid).Searched? && SolveResult(grid).outcome.Found?
  {
    SearchComplete(sol, Recognized(grid));
  }

  /** A puzzle written as a string is read back and searched as its givens. */
  lemma SolvePuzzle(p: Puzzle)
    requires |p| == 81
    ensures SolveResult(Encode(p)) == Searched(SearchResult(Givens(p)))
  {
    ReadWritten(p);
  }
}
