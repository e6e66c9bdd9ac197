/** `only_choice`: a multi-candidate cell, visited row-major, is set to a
    digit that no other cell of one of its units can still take. */
module OnlyChoice {
  import opened Topology
  import opened Board

  /** No cell of unit u other than k still admits d. */
  predicate NoOtherHolder(s: seq<Cands>, k: int, d: Digit, u: seq<int>)
    requires |s| == 81 && ValidUnit(u)
  {
    forall p :: 0 <= p < 9 && u[p] != k ==> d !in s[u[p]]
  }

  /** d has no other holder in at least one unit of k. */
  predicate Lone(s: seq<Cands>, k: int, d: Digit)
    requires |s| == 81 && 0 <= k < 81
  {
    exists t :: 0 <= t < |Units(k)| && (UnitsValid(k, t); NoOtherHolder(s, k, d, Units(k)[t]))
  }

  /** The value of cell k once digits 1 .. d of s[k] have been tried: the
      `break` leaves only the unit loop, so the last lone digit wins. */
  function ChoicePrefix(s: seq<Cands>, k: int, d: int): Cands
    requires |s| == 81 && 0 <= k < 81 && 0 <= d <= 9
  {
    if d == 0 then s[k]
    else if d in s[k] && Lone(s, k, d) then {d}
    else ChoicePrefix(s, k, d - 1)
  }

  /** The visit of cell k. */
  function ChoiceStep(s: seq<Cands>, k: int): (r: seq<Cands>)
    requires |s| == 81 && 0 <= k < 81
    ensures |r| == 81
  {
    if |s[k]| > 1 then s[k := ChoicePrefix(s, k, 9)] else s
  }

  /** The board after visiting cells 0 .. n-1. */
  function ChosenPrefix(s: seq<Cands>, n: int): (r: seq<Cands>)
    requires |s| == 81 && 0 <= n <= 81
    ensures |r| == 81
  {
    if n == 0 then s else ChoiceStep(ChosenPrefix(s, n - 1), n - 1)
  }

  /** The board `only_choice` leaves. */
  function Chosen(s: seq<Cands>): (r: seq<Cands>)
    requires |s| == 81
    ensures |r| == 81
  {
    ChosenPrefix(s, 81)
  }

  /** The scan of one unit for another cell holding d. */
  method HasOtherHolder(values: array<Cands>, k: int, d: Digit, u: seq<int>) returns (found: bool)
    requires values.Length == 81 && ValidUnit(u)
    ensures found <==> !NoOtherHolder(values[..], k, d, u)
  {
    found := false;
    for p := 0 to 9
      invariant !found
      invariant forall q :: 0 <= q < p && u[q] != k ==> d !in values[u[q]]
    {
      if u[p] != k && d in values[u[p]] {
        found := true;
        break;
      }
    }
  }

  /** Changing cell k does not change who else holds a digit. */
  lemma NoOtherHolderFrame(s: seq<Cands>, k: int, x: Cands, d: Digit, u: seq<int>)
    requires |s| == 81 && 0 <= k < 81 && ValidUnit(u)
    ensures NoOtherHolder(s[k := x], k, d, u) <==> NoOtherHolder(s, k, d, u)
  {
  }

  lemma LoneFrame(s: seq<Cands>, k: int, x: Cands, d: Digit)
    requires |s| == 81 && 0 <= k < 81
    ensures Lone(s[k := x], k, d) <==> Lone(s, k, d)
  {
    forall t | 0 <= t < |Units(k)|
      ensures (UnitsValid(k, t); NoOtherHolder(s[k := x], k, d, Units(k)[t]) <==> NoOtherHolder(s, k, d, Units(k)[t]))
    {
      UnitsValid(k, t);
      NoOtherHolderFrame(s, k, x, d, Units(k)[t]);
    }
  }

  method OnlyChoice(values: array<Cands>)
    requires values.Length == 81
    modifies values
    ensures values[..] == Chosen(old(values[..]))
  {
    ghost var s0 := values[..];
    for k := 0 to 81
      invariant values[..] == ChosenPrefix(s0, k)
    {
      var value := values[k];
      if |value| > 1 {
        ghost var before := values[..];
        for d := 1 to 10
          invariant values[..] == before[k := ChoicePrefix(before, k, d - 1)]
        {
          if d in value {
            TryDigit(values, k, d);
            LoneFrame(before, k, ChoicePrefix(before, k, d - 1), d);
          }
          assert values[..] == before[k := ChoicePrefix(before, k, d)];
        }
      }
    }
  }

  /** `for units in UNITS[key]`: look for a unit where d has no other
      holder; on the first one, set the cell to d. */
  method TryDigit(values: array<Cands>, k: int, d: Digit)
    requires values.Length == 81 && 0 <= k < 81
    modifies values
    ensures Lone(old(values[..]), k, d) ==> values[..] == old(values[..])[k := {d}]
    ensures !Lone(old(values[..]), k, d) ==> values[..] == old(values[..])
  {
    var units := Units(k);
    for t := 0 to |units|
      invariant values[..] == old(values[..])
      invariant forall t' :: 0 <= t' < t ==> (UnitsValid(k, t'); !NoOtherHolder(values[..], k, d, units[t']))
    {
      UnitsValid(k, t);
      var found := HasOtherHolder(values, k, d, units[t]);
      if !found {
        values[k] := {d};
        return;
      }
    }
  }

  /** Trying digits 1 .. d leaves the cell as it was or sets it to one of
      its own digits that is lone. */
  lemma {:induction false} ChoiceCases(s: seq<Cands>, k: int, d: int)
    requires |s| == 81 && 0 <= k < 81 && 0 <= d <= 9
    ensures ChoicePrefix(s, k, d) == s[k]
            || exists e: Digit :: e <= d && e in s[k] && Lone(s, k, e) && ChoicePrefix(s, k, d) == {e}
    decreases d
  {
    if d > 0 && !(d in s[k] && Lone(s, k, d)) {
      ChoiceCases(s, k, d - 1);
    }
  }

  /** The largest lone digit of the cell among 1 .. d is the one kept. */
  lemma {:induction false} ChoiceLast(s: seq<Cands>, k: int, d: int, e: Digit)
    requires |s| == 81 && 0 <= k < 81 && 0 <= d <= 9 && e <= d
    requires e in s[k] && Lone(s, k, e)
    requires forall f: Digit :: e < f <= d ==> !(f in s[k] && Lone(s, k, f))
    ensures ChoicePrefix(s, k, d) == {e}
    decreases d
  {
    if d > e {
      ChoiceLast(s, k, d - 1, e);
    }
  }

  /** Removing candidates elsewhere keeps a lone digit lone. */
  lemma LoneShrinks(t: seq<Cands>, s: seq<Cands>, k: int, d: Digit)
    requires |s| == 81 && 0 <= k < 81 && Shrinks(t, s) && Lone(s, k, d)
    ensures Lone(t, k, d)
  {
    var w :| 0 <= w < |Units(k)| && (UnitsValid(k, w); NoOtherHolder(s, k, d, Units(k)[w]));
    UnitsValid(k, w);
    assert NoOtherHolder(t, k, d, Units(k)[w]);
  }

  lemma StepShrinks(s: seq<Cands>, k: int)
    requires |s| == 81 && 0 <= k < 81
    ensures Shrinks(ChoiceStep(s, k), s)
    ensures forall j :: 0 <= j < 81 && j != k ==> ChoiceStep(s, k)[j] == s[j]
  {
    ChoiceCases(s, k, 9);
  }

  /** Visiting cells 0 .. n-1 only removes candidates and leaves the cells
      from n on alone. */
  lemma {:induction false} PrefixShrinks(s: seq<Cands>, n: int)
    requires |s| == 81 && 0 <= n <= 81
    ensures Shrinks(ChosenPrefix(s, n), s)
    ensures forall j :: n <= j < 81 ==> ChosenPrefix(s, n)[j] == s[j]
    decreases n
  {
    if n > 0 {
      PrefixShrinks(s, n - 1);
      StepShrinks(ChosenPrefix(s, n - 1), n - 1);
    }
  }

  /** Cells from n on are left alone by visits n .. 80. */
  lemma {:induction false} SuffixFrame(s: seq<Cands>, n: int, c: int)
    requires |s| == 81 && 0 <= c < n <= 81
    ensures ChosenPrefix(s, n)[c] == ChosenPrefix(s, c + 1)[c]
    decreases n
  {
    if n > c + 1 {
      SuffixFrame(s, n - 1, c);
      StepShrinks(ChosenPrefix(s, n - 1), n - 1);
    }
  }

  /** What the visit of cell c made of it is what the whole pass leaves there. */
  lemma ChosenCell(s: seq<Cands>, c: int)
    requires |s| == 81 && 0 <= c < 81
    ensures Chosen(s)[c] == ChoiceStep(ChosenPrefix(s, c), c)[c]
    ensures ChosenPrefix(s, c)[c] == s[c] && Shrinks(ChosenPrefix(s, c), s)
  {
    SuffixFrame(s, 81, c);
    PrefixShrinks(s, c);
  }

  /** No cell gains a candidate. */
  lemma ChosenShrinks(s: seq<Cands>)
    requires |s| == 81
    ensures Shrinks(Chosen(s), s)
  {
    PrefixShrinks(s, 81);
  }

  /** Cells with at most one candidate are unchanged. */
  lemma ChosenKeepsSmall(s: seq<Cands>, c: int)
    requires |s| == 81 && 0 <= c < 81 && |s[c]| <= 1
    ensures Chosen(s)[c] == s[c]
  {
    ChosenCell(s, c);
  }

  /** Any other cell is unchanged or becomes one of its own digits, so it is
      never emptied. */
  lemma ChosenMulti(s: seq<Cands>, c: int)
    requires |s| == 81 && 0 <= c < 81 && |s[c]| > 1
    ensures Chosen(s)[c] == s[c] || exists e :: e in s[c] && Chosen(s)[c] == {e}
    ensures Chosen(s)[c] != {}
  {
    ChosenCell(s, c);
    ChoiceCases(ChosenPrefix(s, c), c, 9);
  }

  /** Some digit of a lone kind, tried in 1 .. d, leaves the cell solved. */
  lemma {:induction false} ChoiceSolved(s: seq<Cands>, k: int, d: int, e: Digit)
    requires |s| == 81 && 0 <= k < 81 && 0 <= d <= 9 && e <= d && e in s[k] && Lone(s, k, e)
    ensures Solved(ChoicePrefix(s, k, d))
    decreases d
  {
    if !(d in s[k] && Lone(s, k, d)) {
      ChoiceSolved(s, k, d - 1, e);
    }
  }

  /** A multi-candidate cell with a digit that has no other holder in one of
      the cell's units ends up solved. */
  lemma ChosenForced(s: seq<Cands>, c: int, d: Digit)
    requires |s| == 81 && 0 <= c < 81 && |s[c]| > 1 && d in s[c] && Lone(s, c, d)
    ensures Solved(Chosen(s)[c])
  {
    ChosenCell(s, c);
    var b := ChosenPrefix(s, c);
    LoneShrinks(b, s, c, d);
    ChoiceSolved(b, c, 9, d);
  }

  /** In a solution, a digit that is lone for k in s (and fits s) is k's digit. */
  lemma LoneIsForced(sol: seq<Digit>, s: seq<Cands>, k: int, d: Digit)
    requires |s| == 81 && 0 <= k < 81 && IsSolution(sol) && Within(sol, s) && Lone(s, k, d)
    ensures sol[k] == d
  {
    var w :| 0 <= w < |Units(k)| && (UnitsValid(k, w); NoOtherHolder(s, k, d, Units(k)[w]));
    UnitsValid(k, w);
    var u := Units(k)[w];
    SolutionCoversUnit(sol, u, d);
    var p :| 0 <= p < 9 && sol[u[p]] == d;
    assert u[p] == k;
  }

  lemma {:induction false} PrefixSound(sol: seq<Digit>, s: seq<Cands>, n: int)
    requires |s| == 81 && 0 <= n <= 81 && IsSolution(sol) && Within(sol, s)
    ensures Within(sol, ChosenPrefix(s, n))
    decreases n
  {
    if n > 0 {
      PrefixSound(sol, s, n - 1);
      var b := ChosenPrefix(s, n - 1);
      var k := n - 1;
      ChoiceCases(b, k, 9);
      if ChoicePrefix(b, k, 9) != b[k] {
        var e: Digit :| e <= 9 && e in b[k] && Lone(b, k, e) && ChoicePrefix(b, k, 9) == {e};
        LoneIsForced(sol, b, k, e);
      }
    }
  }

  /** Setting lone digits is sound: a solution that fits the input fits the output. */
  lemma ChosenSound(sol: seq<Digit>, s: seq<Cands>)
    requires |s| == 81 && IsSolution(sol) && Within(sol, s)
    ensures Within(sol, Chosen(s))
  {
    PrefixSound(sol, s, 81);
  }
}
