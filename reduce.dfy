/** `reduce_puzzle`: repeat eliminate, only_choice and naked_twins until a
    pass solves no new cell, giving up as soon as a cell has no candidate. */
module Reduction {
  import opened Topology
  import opened Board
  import opened Elimination
  import opened OnlyChoice
  import opened NakedTwins

  /** One pass of the three rules. */
  function Pass(s: seq<Cands>): (r: seq<Cands>)
    requires |s| == 81
    ensures |r| == 81
  {
    TwinsRemoved(Chosen(Eliminated(s)))
  }

  /** The outcome of the loop: the board it leaves, whether it returned the
      board (true) or False (false), and how many passes it ran. */
  datatype Reduced = Reduced(board: seq<Cands>, ok: bool, passes: nat)

  function Reduce(s: seq<Cands>): (r: Reduced)
    requires |s| == 81
    ensures |r.board| == 81
    decreases 81 - SolvedCount(s)
  {
    var t := Pass(s);
    if HasEmpty(t) then Reduced(t, false, 1)
    else if SolvedCount(s) == SolvedCount(t) then Reduced(t, true, 1)
    else
      PassShrinks(s);
      SolvedCountMonotone(t, s);
      var r := Reduce(t);
      Reduced(r.board, r.ok, r.passes + 1)
  }

  method ReducePuzzle(values: array<Cands>) returns (ok: bool)
    requires values.Length == 81
    modifies values
    ensures values[..] == Reduce(old(values[..])).board
    ensures ok == Reduce(old(values[..])).ok
  {
    ghost var s0 := values[..];
    var stalled := false;
    while !stalled
      invariant !stalled ==> Reduce(values[..]).board == Reduce(s0).board && Reduce(values[..]).ok == Reduce(s0).ok
      invariant stalled ==> values[..] == Reduce(s0).board && Reduce(s0).ok
      decreases if stalled then 0 else 82 - SolvedCount(values[..])
    {
      ghost var s := values[..];
      var before := SolvedCount(values[..]);
      Eliminate(values);
      OnlyChoice.OnlyChoice(values);
      NakedTwins.NakedTwins(values);
      assert values[..] == Pass(s);
      var after := SolvedCount(values[..]);
      stalled := before == after;
      if HasEmpty(values[..]) {
        return false;
      }
      PassShrinks(s);
      SolvedCountMonotone(values[..], s);
    }
    return true;
  }

  lemma PassShrinks(s: seq<Cands>)
    requires |s| == 81
    ensures Shrinks(Pass(s), s)
  {
    EliminatedShrinks(s);
    ChosenShrinks(Eliminated(s));
    TwinsRemovedShrinks(Chosen(Eliminated(s)));
  }

  lemma PassSound(sol: seq<Digit>, s: seq<Cands>)
    requires |s| == 81 && IsSolution(sol) && Within(sol, s)
    ensures Within(sol, Pass(s))
  {
    EliminatedSound(sol, s);
    ChosenSound(sol, Eliminated(s));
    TwinsSound(sol, Chosen(Eliminated(s)));
  }

  /** The solved count never decreases across a pass that leaves no cell empty. */
  lemma PassSolvedCount(s: seq<Cands>)
    requires |s| == 81 && !HasEmpty(Pass(s))
    ensures SolvedCount(Pass(s)) >= SolvedCount(s)
  {
    PassShrinks(s);
    SolvedCountMonotone(Pass(s), s);
  }

  /** False is returned exactly when the last pass left a cell with no
      candidate; otherwise no cell is empty. */
  lemma {:induction false} ReduceFails(s: seq<Cands>)
    requires |s| == 81
    ensures !Reduce(s).ok <==> HasEmpty(Reduce(s).board)
    decreases 81 - SolvedCount(s)
  {
    var t := Pass(s);
    if !HasEmpty(t) && SolvedCount(s) != SolvedCount(t) {
      PassShrinks(s);
      SolvedCountMonotone(t, s);
      ReduceFails(t);
    }
  }

  /** Every returned cell is a subset of its input cell. */
  lemma {:induction false} ReduceShrinks(s: seq<Cands>)
    requires |s| == 81
    ensures Shrinks(Reduce(s).board, s)
    decreases 81 - SolvedCount(s)
  {
    var t := Pass(s);
    PassShrinks(s);
    if !HasEmpty(t) && SolvedCount(s) != SolvedCount(t) {
      SolvedCountMonotone(t, s);
      ReduceShrinks(t);
    }
  }

  /** Each pass but the last solves a new cell, so there are at most
      82 - (cells solved in the input) passes, 82 at most. */
  lemma {:induction false} ReducePasses(s: seq<Cands>)
    requires |s| == 81
    ensures 1 <= Reduce(s).passes <= 82 - SolvedCount(s)
    ensures Reduce(s).ok ==> SolvedCount(Reduce(s).board) >= SolvedCount(s)
    decreases 81 - SolvedCount(s)
  {
    var t := Pass(s);
    if !HasEmpty(t) {
      PassSolvedCount(s);
      if SolvedCount(s) != SolvedCount(t) {
        ReducePasses(t);
      }
    }
  }

  /** The propagation is sound: a solution that fits the input fits the
      output, so the loop does not return False. */
  lemma {:induction false} ReduceSound(sol: seq<Digit>, s: seq<Cands>)
    requires |s| == 81 && IsSolution(sol) && Within(sol, s)
    ensures Within(sol, Reduce(s).board) && Reduce(s).ok
    decreases 81 - SolvedCount(s)
  {
    var t := Pass(s);
    PassSound(sol, s);
    WithinNoEmpty(sol, t);
    if SolvedCount(s) != SolvedCount(t) {
      PassShrinks(s);
      SolvedCountMonotone(t, s);
      ReduceSound(sol, t);
    }
  }

  lemma PassBelowEliminated(s: seq<Cands>)
    requires |s| == 81
    ensures Shrinks(Pass(s), Eliminated(s))
  {
    var t1 := Eliminated(s);
    ChosenShrinks(t1);
    TwinsRemovedShrinks(Chosen(t1));
  }

  /** A stalled pass that empties no cell leaves every solved cell's digit
      out of its peers: the cells solved after it (t3) were solved before it
      (s), so `eliminate` (s to t1) struck their digits at the start of the
      pass, and they stay struck. */
  lemma StalledConsistent(s: seq<Cands>, t1: seq<Cands>, t3: seq<Cands>)
    requires |s| == 81 && t1 == Eliminated(s) && Shrinks(t1, s) && Shrinks(t3, t1)
    requires !HasEmpty(t3) && SolvedCount(t3) == SolvedCount(s)
    ensures PeersConsistent(t3)
  {
    ShrinksTrans(t3, t1, s);
    SolvedCountMonotone(t3, s);
    forall a, b | 0 <= a < 81 && 0 <= b < 81 && b in Peers(a) && Solved(t3[a])
      ensures t3[a] !! t3[b]
    {
      assert t3[a] != {};
      SingletonSubset(t3[a], s[a]);
      EliminatedClears(s, a);
    }
  }

  /** A returned board has no solved cell whose digit is still a candidate
      of one of its peers. */
  lemma {:induction false} ReduceConsistent(s: seq<Cands>)
    requires |s| == 81 && Reduce(s).ok
    ensures PeersConsistent(Reduce(s).board)
    decreases 81 - SolvedCount(s)
  {
    var t := Pass(s);
    if SolvedCount(s) == SolvedCount(t) {
      PassBelowEliminated(s);
      EliminatedShrinks(s);
      StalledConsistent(s, Eliminated(s), t);
    } else {
      PassShrinks(s);
      SolvedCountMonotone(t, s);
      ReduceConsistent(t);
    }
  }
}
