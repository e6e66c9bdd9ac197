/** `naked_twins`: in each unit, once a second cell is found holding the
    same two candidates as an earlier one, the other cells of the unit
    lose both digits. */
module NakedTwins {
  import opened Topology
  import opened Board

  /** The state of the scan of one unit: the board, and the `candidates`
      map from a two-digit value to the first cell of the unit seen with it. */
  datatype Scan = Scan(board: seq<Cands>, seen: map<Cands, int>)

  /** Strip the digits v from every cell of u except a and b. */
  function Strip(s: seq<Cands>, u: seq<int>, a: int, b: int, v: Cands): (r: seq<Cands>)
    requires |s| == 81
    ensures |r| == 81
  {
    seq(81, j requires 0 <= j < 81 => if j in u && j != a && j != b then s[j] - v else s[j])
  }

  /** The visit of the p-th cell of unit u. */
  function ScanStep(st: Scan, u: seq<int>, p: int): (r: Scan)
    requires |st.board| == 81 && ValidUnit(u) && 0 <= p < 9
    ensures |r.board| == 81
  {
    var c := u[p];
    var v := st.board[c];
    if |v| == 2 then
      if v in st.seen then Scan(Strip(st.board, u, c, st.seen[v], v), st.seen)
      else Scan(st.board, st.seen[v := c])
    else st
  }

  /** The scan after the first n cells of u. */
  function ScanPrefix(s: seq<Cands>, u: seq<int>, n: int): (r: Scan)
    requires |s| == 81 && ValidUnit(u) && 0 <= n <= 9
    ensures |r.board| == 81
  {
    if n == 0 then Scan(s, map[]) else ScanStep(ScanPrefix(s, u, n - 1), u, n - 1)
  }

  /** The board after the scan of unit u. */
  function UnitPass(s: seq<Cands>, u: seq<int>): (r: seq<Cands>)
    requires |s| == 81 && ValidUnit(u)
    ensures |r| == 81
  {
    ScanPrefix(s, u, 9).board
  }

  /** The board after the first n units of UNITLIST. */
  function TwinsPrefix(s: seq<Cands>, n: int): (r: seq<Cands>)
    requires |s| == 81 && 0 <= n <= 29
    ensures |r| == 81
  {
    if n == 0 then s
    else (UnitListValid(); UnitPass(TwinsPrefix(s, n - 1), UnitList()[n - 1]))
  }

  /** The board `naked_twins` leaves. */
  function TwinsRemoved(s: seq<Cands>): (r: seq<Cands>)
    requires |s| == 81
    ensures |r| == 81
  {
    TwinsPrefix(s, 29)
  }

  method NakedTwins(values: array<Cands>)
    requires values.Length == 81
    modifies values
    ensures values[..] == TwinsRemoved(old(values[..]))
  {
    ghost var s0 := values[..];
    UnitListValid();
    for n := 0 to 29
      invariant values[..] == TwinsPrefix(s0, n)
    {
      ScanUnit(values, UnitList()[n]);
    }
  }

  method ScanUnit(values: array<Cands>, unit: seq<int>)
    requires values.Length == 81 && ValidUnit(unit)
    modifies values
    ensures values[..] == UnitPass(old(values[..]), unit)
  {
    var candidates: map<Cands, int> := map[];
    for p := 0 to 9
      invariant Scan(values[..], candidates) == ScanPrefix(old(values[..]), unit, p)
    {
      var cell := unit[p];
      var v := values[cell];
      if |v| == 2 {
        if v in candidates {
          StripUnit(values, unit, cell, candidates[v], v);
        } else {
          candidates := candidates[v := cell];
        }
      }
    }
  }

  /** Every cell of the unit other than the two twins loses the twin digits
      (solution.py:37-40). */
  method StripUnit(values: array<Cands>, unit: seq<int>, a: int, b: int, v: Cands)
    requires values.Length == 81 && ValidUnit(unit)
    modifies values
    ensures values[..] == Strip(old(values[..]), unit, a, b, v)
  {
    for q := 0 to 9
      invariant forall j :: 0 <= j < 81 ==>
        values[j] == if j in unit[..q] && j != a && j != b then old(values[j]) - v else old(values[j])
    {
      var peer := unit[q];
      if peer != a && peer != b {
        values[peer] := values[peer] - v;
      }
      assert unit[..q + 1] == unit[..q] + [peer];
    }
    assert unit[..9] == unit;
  }

  /** What the scan remembers: each recorded value has two digits, and its
      cell is one of the cells already visited, holding no other digit. */
  predicate SeenOk(st: Scan, u: seq<int>, n: int)
    requires |st.board| == 81 && ValidUnit(u) && 0 <= n <= 9
  {
    forall v :: v in st.seen ==>
      |v| == 2 && (exists q :: 0 <= q < n && st.seen[v] == u[q]) && st.board[st.seen[v]] <= v
  }

  lemma StripShrinks(s: seq<Cands>, u: seq<int>, a: int, b: int, v: Cands)
    requires |s| == 81
    ensures Shrinks(Strip(s, u, a, b, v), s)
  {
  }

  /** The scan only removes candidates and keeps its map truthful. */
  lemma {:induction false} ScanInvariant(s: seq<Cands>, u: seq<int>, n: int)
    requires |s| == 81 && ValidUnit(u) && 0 <= n <= 9
    ensures Shrinks(ScanPrefix(s, u, n).board, s)
    ensures SeenOk(ScanPrefix(s, u, n), u, n)
    decreases n
  {
    if n > 0 {
      ScanInvariant(s, u, n - 1);
      var st := ScanPrefix(s, u, n - 1);
      var c := u[n - 1];
      var v := st.board[c];
      if |v| == 2 && v in st.seen {
        StripShrinks(st.board, u, c, st.seen[v], v);
      }
      var r := ScanPrefix(s, u, n);
      forall w | w in r.seen
        ensures |w| == 2 && (exists q :: 0 <= q < n && r.seen[w] == u[q]) && r.board[r.seen[w]] <= w
      {
        if w in st.seen {
          var q :| 0 <= q < n - 1 && st.seen[w] == u[q];
        }
      }
    }
  }

  /** Once a second cell of the unit shows the same two digits as a recorded
      one, every other cell of the unit is left without either digit, the
      twins keep theirs, and no cell outside the unit changes. */
  lemma TwinFound(s: seq<Cands>, u: seq<int>, n: int)
    requires |s| == 81 && ValidUnit(u) && 0 <= n < 9
    requires var st := ScanPrefix(s, u, n); |st.board[u[n]]| == 2 && st.board[u[n]] in st.seen
    ensures var st := ScanPrefix(s, u, n);
            var v, twin, r := st.board[u[n]], st.seen[st.board[u[n]]], ScanPrefix(s, u, n + 1).board;
            twin in u && twin != u[n]
            && r[u[n]] == v && r[twin] == st.board[twin]
            && (forall j :: 0 <= j < 81 && j in u && j != u[n] && j != twin ==> r[j] !! v && r[j] == st.board[j] - v)
            && (forall j :: 0 <= j < 81 && j !in u ==> r[j] == st.board[j])
  {
    ScanInvariant(s, u, n);
    var st := ScanPrefix(s, u, n);
    var v := st.board[u[n]];
    var q :| 0 <= q < n && st.seen[v] == u[q];
  }

  /** A unit in which no two cells hold the same two-digit value. */
  predicate NoPairIn(s: seq<Cands>, u: seq<int>)
    requires |s| == 81 && ValidUnit(u)
  {
    forall p, q :: 0 <= p < q < 9 && |s[u[p]]| == 2 ==> s[u[p]] != s[u[q]]
  }

  /** A board with no twin pair in any unit. */
  predicate NoPairs(s: seq<Cands>)
    requires |s| == 81
  {
    forall k :: 0 <= k < 29 ==> (UnitListValid(); NoPairIn(s, UnitList()[k]))
  }

  lemma {:induction false} ScanNoPair(s: seq<Cands>, u: seq<int>, n: int)
    requires |s| == 81 && ValidUnit(u) && 0 <= n <= 9 && NoPairIn(s, u)
    ensures ScanPrefix(s, u, n).board == s
    ensures forall v :: v in ScanPrefix(s, u, n).seen ==> exists q :: 0 <= q < n && s[u[q]] == v && |v| == 2
    decreases n
  {
    if n > 0 {
      ScanNoPair(s, u, n - 1);
      var st := ScanPrefix(s, u, n - 1);
      var v := s[u[n - 1]];
      if |v| == 2 && v in st.seen {
        assert false;
      }
    }
  }

  /** A board with no such pair in any unit is returned unchanged. */
  lemma {:induction false} NoPairsUnchanged(s: seq<Cands>, n: int)
    requires |s| == 81 && 0 <= n <= 29 && NoPairs(s)
    ensures TwinsPrefix(s, n) == s
    decreases n
  {
    if n > 0 {
      NoPairsUnchanged(s, n - 1);
      UnitListValid();
      ScanNoPair(s, UnitList()[n - 1], 9);
    }
  }

  /** No cell gains a candidate. */
  lemma {:induction false} TwinsShrinks(s: seq<Cands>, n: int)
    requires |s| == 81 && 0 <= n <= 29
    ensures Shrinks(TwinsPrefix(s, n), s)
    decreases n
  {
    if n > 0 {
      TwinsShrinks(s, n - 1);
      UnitListValid();
      ScanInvariant(TwinsPrefix(s, n - 1), UnitList()[n - 1], 9);
    }
  }

  lemma TwinsRemovedShrinks(s: seq<Cands>)
    requires |s| == 81
    ensures Shrinks(TwinsRemoved(s), s)
  {
    TwinsShrinks(s, 29);
  }

  /** The twins' two digits go to the twins in any solution, so stripping
      them from the rest of the unit is sound. */
  lemma {:induction false} ScanSound(sol: seq<Digit>, s: seq<Cands>, u: seq<int>, n: int)
    requires |s| == 81 && u in UnitList() && ValidUnit(u) && 0 <= n <= 9
    requires IsSolution(sol) && Within(sol, s)
    ensures Within(sol, ScanPrefix(s, u, n).board)
    decreases n
  {
    if n > 0 {
      ScanSound(sol, s, u, n - 1);
      ScanInvariant(s, u, n - 1);
      var st := ScanPrefix(s, u, n - 1);
      var c := u[n - 1];
      var v := st.board[c];
      if |v| == 2 && v in st.seen {
        var a := st.seen[v];
        var q :| 0 <= q < n - 1 && a == u[q];
        StripSound(sol, st.board, u, c, a, v);
      }
    }
  }

  /** Two distinct cells of a unit that between them hold only the two
      digits v take both digits; the rest of the unit can lose them. */
  lemma StripSound(sol: seq<Digit>, b: seq<Cands>, u: seq<int>, c: int, a: int, v: Cands)
    requires |b| == 81 && u in UnitList() && IsSolution(sol) && Within(sol, b)
    requires c in u && a in u && c != a && |v| == 2 && b[c] == v && b[a] <= v
    ensures Within(sol, Strip(b, u, c, a, v))
  {
    SameUnitPeers(u, c, a);
    PairCovered(v, sol[c], sol[a]);
    forall j | 0 <= j < 81 && j in u && j != c && j != a
      ensures sol[j] !in v
    {
      SameUnitPeers(u, j, c);
      SameUnitPeers(u, j, a);
    }
  }

  lemma {:induction false} TwinsSoundPrefix(sol: seq<Digit>, s: seq<Cands>, n: int)
    requires |s| == 81 && 0 <= n <= 29 && IsSolution(sol) && Within(sol, s)
    ensures Within(sol, TwinsPrefix(s, n))
    decreases n
  {
    if n > 0 {
      TwinsSoundPrefix(sol, s, n - 1);
      UnitListValid();
      ScanSound(sol, TwinsPrefix(s, n - 1), UnitList()[n - 1], 9);
    }
  }

  /** Removing naked twins is sound: a solution that fits the input fits the output. */
  lemma TwinsSound(sol: seq<Digit>, s: seq<Cands>)
    requires |s| == 81 && IsSolution(sol) && Within(sol, s)
    ensures Within(sol, TwinsRemoved(s))
  {
    TwinsSoundPrefix(sol, s, 29);
  }
}
