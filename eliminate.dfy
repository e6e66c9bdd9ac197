/** `eliminate`: every solved cell, visited row-major on the live board,
    strikes its digit from the candidates of all its peers. */
module Elimination {
  import opened Topology
  import opened Board

  /** Every cell in `cells` loses the digits of `value`; the rest stay. */
  function Strike(s: seq<Cands>, cells: set<int>, value: Cands): (r: seq<Cands>)
    requires |s| == 81
    ensures |r| == 81
  {
    seq(81, j requires 0 <= j < 81 => if j in cells then s[j] - value else s[j])
  }

  /** The visit of cell k: if it holds one digit, its peers lose it. */
  function EliminateStep(s: seq<Cands>, k: int): (r: seq<Cands>)
    requires |s| == 81 && 0 <= k < 81
    ensures |r| == 81
  {
    if Solved(s[k]) then Strike(s, Peers(k), s[k]) else s
  }

  /** The board after visiting cells 0 .. n-1. */
  function EliminatePrefix(s: seq<Cands>, n: int): (r: seq<Cands>)
    requires |s| == 81 && 0 <= n <= 81
    ensures |r| == 81
  {
    if n == 0 then s else EliminateStep(EliminatePrefix(s, n - 1), n - 1)
  }

  /** The board `eliminate` leaves. */
  function Eliminated(s: seq<Cands>): (r: seq<Cands>)
    requires |s| == 81
    ensures |r| == 81
  {
    EliminatePrefix(s, 81)
  }

  method Eliminate(values: array<Cands>)
    requires values.Length == 81
    modifies values
    ensures values[..] == Eliminated(old(values[..]))
  {
    ghost var s0 := values[..];
    for k := 0 to 81
      invariant values[..] == EliminatePrefix(s0, k)
    {
      var value := values[k];
      if |value| == 1 {
        PeersCells(k);
        StrikeFromPeers(values, Peers(k), value);
      }
    }
  }

  /** Removes the solved digit from each cell of the peer set, one cell at a
      time (solution.py:117-118); the set is walked in an arbitrary order,
      which the result does not depend on. */
  method StrikeFromPeers(values: array<Cands>, peers: set<int>, value: Cands)
    requires values.Length == 81 && forall p :: p in peers ==> 0 <= p < 81
    modifies values
    ensures values[..] == Strike(old(values[..]), peers, value)
  {
    var rest := peers;
    while rest != {}
      invariant rest <= peers
      invariant forall j :: 0 <= j < 81 ==>
        values[j] == if j in peers - rest then old(values[j]) - value else old(values[j])
      decreases |rest|
    {
      NonEmpty(rest);
      var p :| p in rest;
      values[p] := values[p] - value;
      rest := rest - {p};
    }
  }

  lemma StepShrinks(s: seq<Cands>, k: int)
    requires |s| == 81 && 0 <= k < 81
    ensures Shrinks(EliminateStep(s, k), s)
    ensures EliminateStep(s, k)[k] == s[k]
  {
    PeersCells(k);
  }

  lemma {:induction false} PrefixShrinks(s: seq<Cands>, m: int, n: int)
    requires |s| == 81 && 0 <= m <= n <= 81
    ensures Shrinks(EliminatePrefix(s, n), EliminatePrefix(s, m))
    decreases n
  {
    if n > m {
      PrefixShrinks(s, m, n - 1);
      StepShrinks(EliminatePrefix(s, n - 1), n - 1);
    }
  }

  /** No cell gains a candidate. */
  lemma EliminatedShrinks(s: seq<Cands>)
    requires |s| == 81
    ensures Shrinks(Eliminated(s), s)
  {
    PrefixShrinks(s, 0, 81);
  }

  /** A cell solved in the input and still non-empty at the end had its digit
      struck from all of its peers, and it stays struck. */
  lemma EliminatedClears(s: seq<Cands>, c: int)
    requires |s| == 81 && 0 <= c < 81 && Solved(s[c]) && Eliminated(s)[c] != {}
    ensures Eliminated(s)[c] == s[c]
    ensures forall b :: b in Peers(c) ==> 0 <= b < 81 && s[c] !! Eliminated(s)[b]
  {
    var t := Eliminated(s);
    var before := EliminatePrefix(s, c);
    var after := EliminatePrefix(s, c + 1);
    PrefixShrinks(s, 0, c);
    PrefixShrinks(s, c + 1, 81);
    StepShrinks(before, c);
    SingletonSubset(t[c], s[c]);
    SingletonSubset(before[c], s[c]);
    PeersCells(c);
    forall b | b in Peers(c)
      ensures 0 <= b < 81 && s[c] !! t[b]
    {
      assert after[b] == before[b] - s[c];
    }
  }

  /** Striking is sound: a solution that fits the input fits the output. */
  lemma {:induction false} PrefixSound(sol: seq<Digit>, s: seq<Cands>, n: int)
    requires |s| == 81 && 0 <= n <= 81 && IsSolution(sol) && Within(sol, s)
    ensures Within(sol, EliminatePrefix(s, n))
    decreases n
  {
    if n > 0 {
      PrefixSound(sol, s, n - 1);
      var before := EliminatePrefix(s, n - 1);
      var k := n - 1;
      if Solved(before[k]) {
        var d := SolvedIsSingleton(before[k]);
        forall j | 0 <= j < 81 && j in Peers(k)
          ensures sol[j] !in before[k]
        {
        }
      }
    }
  }

  lemma EliminatedSound(sol: seq<Digit>, s: seq<Cands>)
    requires |s| == 81 && IsSolution(sol) && Within(sol, s)
    ensures Within(sol, Eliminated(s))
  {
    PrefixSound(sol, s, 81);
  }
}
