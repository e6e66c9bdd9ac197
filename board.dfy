/** The candidate board: for each of the 81 cells (indexed as in Topology)
    the set of digits still possible there. A candidate string of the
    solver is ascending and free of repeats, so it is modelled by the set of
    its digits, and comparing two strings is comparing two sets. */
module Board {
  import opened Topology

  type Digit = d: int | 1 <= d <= 9 witness 1
  type Cands = set<Digit>

  /** '123456789' */
  function AllDigits(): (r: Cands)
    ensures forall d: Digit :: d in r
    ensures |r| == 9
  {
    {1, 2, 3, 4, 5, 6, 7, 8, 9}
  }

  /** A cell is solved when exactly one candidate is left. */
  predicate Solved(x: Cands) { |x| == 1 }

  /** The number of solved cells: `len([c for c in values if len(values[c]) == 1])`. */
  function SolvedCount(s: seq<Cands>): (n: nat)
    ensures n <= |s|
  {
    if s == [] then 0
    else SolvedCount(s[..|s| - 1]) + (if Solved(s[|s| - 1]) then 1 else 0)
  }

  /** The total number of candidates left on the board. */
  function Total(s: seq<Cands>): nat
  {
    if s == [] then 0 else Total(s[..|s| - 1]) + |s[|s| - 1]|
  }

  predicate HasEmpty(s: seq<Cands>)
  {
    exists c :: 0 <= c < |s| && s[c] == {}
  }

  predicate AllSolved(s: seq<Cands>)
  {
    forall c :: 0 <= c < |s| ==> Solved(s[c])
  }

  /** t keeps no candidate that s did not have. */
  predicate Shrinks(t: seq<Cands>, s: seq<Cands>)
  {
    |t| == |s| && forall c :: 0 <= c < |s| ==> t[c] <= s[c]
  }

  /** A filled grid agrees with every cell's candidates. */
  predicate Within(sol: seq<Digit>, s: seq<Cands>)
  {
    |sol| == |s| && forall c :: 0 <= c < |s| ==> sol[c] in s[c]
  }

  /** A filled grid obeying the rules: no two peers hold the same digit.
      Peers are the cells sharing a row, column, box or diagonal. */
  predicate IsSolution(sol: seq<Digit>)
  {
    |sol| == 81 && forall a, b :: 0 <= a < 81 && 0 <= b < 81 && b in Peers(a) ==> sol[a] != sol[b]
  }

  /** No solved cell's digit is left among the candidates of its peers. */
  predicate PeersConsistent(s: seq<Cands>)
  {
    |s| == 81
    && forall a, b :: 0 <= a < 81 && 0 <= b < 81 && b in Peers(a) && Solved(s[a]) ==> s[a] !! s[b]
  }

  lemma ShrinksTrans(u: seq<Cands>, t: seq<Cands>, s: seq<Cands>)
    requires Shrinks(u, t) && Shrinks(t, s)
    ensures Shrinks(u, s)
  {
  }

  lemma WithinShrinks(sol: seq<Digit>, t: seq<Cands>, s: seq<Cands>)
    requires Within(sol, t) && Shrinks(t, s)
    ensures Within(sol, s)
  {
  }

  /** A board with a grid within it has no empty cell. */
  lemma WithinNoEmpty(sol: seq<Digit>, s: seq<Cands>)
    requires Within(sol, s)
    ensures !HasEmpty(s)
  {
  }

  /** The only non-empty subset of a singleton is the singleton itself. */
  lemma SingletonSubset(x: Cands, y: Cands)
    requires Solved(y) && x <= y && x != {}
    ensures x == y
  {
    var d :| d in x;
    var e :| e in y;
    assert y == {e} by {
      forall f | f in y ensures f == e {
        if f != e {
          assert |{e, f}| == 2;
          SubsetCard({e, f}, y);
        }
      }
    }
  }

  lemma SolvedIsSingleton(x: Cands) returns (d: Digit)
    requires Solved(x)
    ensures x == {d}
  {
    d :| d in x;
    SingletonSubset({d}, x);
  }

  /** On a board without empty cells that only lost candidates, every solved
      cell stays solved, so the solved count cannot drop; if it did not grow
      either, the solved cells are the same ones. */
  lemma {:induction false} SolvedCountMonotone(t: seq<Cands>, s: seq<Cands>)
    requires Shrinks(t, s) && !HasEmpty(t)
    ensures SolvedCount(t) >= SolvedCount(s)
    ensures SolvedCount(t) == SolvedCount(s) ==> forall c :: 0 <= c < |s| ==> (Solved(t[c]) <==> Solved(s[c]))
    decreases |s|
  {
    if s != [] {
      var n := |s| - 1;
      assert Shrinks(t[..n], s[..n]);
      assert !HasEmpty(t[..n]) by {
        forall c | 0 <= c < n ensures t[..n][c] != {} {
          assert t[c] != {};
        }
      }
      SolvedCountMonotone(t[..n], s[..n]);
      if Solved(s[n]) {
        SingletonSubset(t[n], s[n]);
      }
      if SolvedCount(t) == SolvedCount(s) {
        forall c | 0 <= c < |s|
          ensures Solved(t[c]) <==> Solved(s[c])
        {
          if c < n {
            assert t[..n][c] == t[c] && s[..n][c] == s[c];
          }
        }
      }
    }
  }

  /** Every cell solved means the solved count is 81, and the other way round. */
  lemma {:induction false} SolvedCountFull(s: seq<Cands>)
    ensures SolvedCount(s) == |s| <==> AllSolved(s)
    decreases |s|
  {
    if s != [] {
      var n := |s| - 1;
      SolvedCountFull(s[..n]);
      assert forall c :: 0 <= c < n ==> s[..n][c] == s[c];
    }
  }

  /** Losing candidates never raises the total; losing one somewhere lowers it. */
  lemma {:induction false} TotalMonotone(t: seq<Cands>, s: seq<Cands>)
    requires Shrinks(t, s)
    ensures Total(t) <= Total(s)
    ensures (exists c :: 0 <= c < |s| && t[c] < s[c]) ==> Total(t) < Total(s)
    decreases |s|
  {
    if s != [] {
      var n := |s| - 1;
      assert Shrinks(t[..n], s[..n]);
      TotalMonotone(t[..n], s[..n]);
      assert |t[n]| <= |s[n]| by { SubsetCard(t[n], s[n]); }
      if exists c :: 0 <= c < |s| && t[c] < s[c] {
        var c :| 0 <= c < |s| && t[c] < s[c];
        if c == n {
          SubsetCard(t[n], s[n]);
        } else {
          assert t[..n][c] == t[c] && s[..n][c] == s[c];
        }
      }
    }
  }

  lemma SubsetCard(x: Cands, y: Cands)
    requires x <= y
    ensures |x| <= |y|
    ensures x < y ==> |x| < |y|
  {
    assert y == x + (y - x);
    assert |y| == |x| + |y - x|;
  }

  /** Two distinct members of a two-element set make up the whole set. */
  lemma PairCovered(v: Cands, x: Digit, y: Digit)
    requires |v| == 2 && x in v && y in v && x != y
    ensures v == {x, y}
  {
    assert {x, y} <= v;
    assert |{x, y}| == 2;
    if v != {x, y} {
      SubsetCard({x, y}, v);
    }
  }

  /** A non-empty set has a member to pick. */
  lemma NonEmpty(r: set<int>)
    requires r != {}
    ensures exists x :: x in r
  {
    if forall x :: x !in r {
      assert false;
    }
  }

  /** The digits of a board whose cells are all solved. */
  ghost function DigitsOf(s: seq<Cands>): (sol: seq<Digit>)
    requires AllSolved(s)
    ensures Within(sol, s)
  {
    seq(|s|, c requires 0 <= c < |s| => PickOne(s[c]))
  }

  ghost function PickOne(x: Cands): (d: Digit)
    requires x != {}
    ensures d in x
  {
    var d :| d in x; d
  }

  /** A solved board with no digit repeated among peers spells a solution,
      and that solution is the only grid within it. */
  lemma SolvedBoardIsSolution(s: seq<Cands>)
    requires AllSolved(s) && PeersConsistent(s)
    ensures IsSolution(DigitsOf(s))
    ensures forall sol :: Within(sol, s) ==> sol == DigitsOf(s)
  {
    var sol := DigitsOf(s);
    forall a, b | 0 <= a < 81 && 0 <= b < 81 && b in Peers(a)
      ensures sol[a] != sol[b]
    {
      assert s[a] !! s[b];
    }
    forall other | Within(other, s)
      ensures other == sol
    {
      forall c | 0 <= c < 81
        ensures other[c] == sol[c]
      {
        var d := SolvedIsSingleton(s[c]);
      }
    }
  }

  /** The digits a grid puts in the first n cells of a unit. */
  ghost function UnitDigits(sol: seq<Digit>, u: seq<int>, n: int): set<Digit>
    requires |sol| == 81 && ValidUnit(u) && 0 <= n <= 9
  {
    set p | 0 <= p < n :: sol[u[p]]
  }

  /** No digit repeats among the cells of u. */
  predicate DistinctIn(sol: seq<Digit>, u: seq<int>)
    requires |sol| == 81 && ValidUnit(u)
  {
    forall p, q :: 0 <= p < q < 9 ==> sol[u[p]] != sol[u[q]]
  }

  /** A solution repeats no digit inside a unit of UNITLIST. */
  lemma UnitDistinct(sol: seq<Digit>, u: seq<int>)
    requires IsSolution(sol) && u in UnitList()
    ensures ValidUnit(u) && DistinctIn(sol, u)
  {
    UnitListValid();
    var k :| 0 <= k < 29 && UnitList()[k] == u;
    forall p, q | 0 <= p < q < 9
      ensures sol[u[p]] != sol[u[q]]
    {
      SameUnitPeers(u, u[p], u[q]);
    }
  }

  lemma {:induction false} UnitDigitsCount(sol: seq<Digit>, u: seq<int>, n: int)
    requires |sol| == 81 && ValidUnit(u) && DistinctIn(sol, u) && 0 <= n <= 9
    ensures |UnitDigits(sol, u, n)| == n
    decreases n
  {
    if n > 0 {
      UnitDigitsCount(sol, u, n - 1);
      assert UnitDigits(sol, u, n) == UnitDigits(sol, u, n - 1) + {sol[u[n - 1]]};
      assert forall p :: 0 <= p < n - 1 ==> sol[u[p]] != sol[u[n - 1]];
    }
  }

  /** Pigeonhole: a solution puts every digit somewhere in every unit. */
  lemma SolutionCoversUnit(sol: seq<Digit>, u: seq<int>, d: Digit)
    requires IsSolution(sol) && u in UnitList()
    ensures exists p :: 0 <= p < 9 && sol[u[p]] == d
  {
    UnitDistinct(sol, u);
    UnitDigitsCount(sol, u, 9);
    var all := UnitDigits(sol, u, 9);
    if all != AllDigits() {
      SubsetCard(all, AllDigits());
    }
    assert d in all;
  }
}
