/** The fixed geometry of the diagonal 9x9 Sudoku: cell names, the 29 units
    (9 rows, 9 columns, 9 boxes, 2 diagonals) and the UNITS / PEERS tables.
    A cell is an index 0..80 in row-major order; index i is the cell named
    CELLS[i] (row letter i / 9, column digit i % 9). */
module Topology {

  const ROWS: string := "ABCDEFGHI"
  const COLUMNS: string := "123456789"

  /** `cross`: every item of xs joined with every item of ys, xs-major. */
  function Cross<A, B, C>(xs: seq<A>, ys: seq<B>, join: (A, B) -> C): (r: seq<C>)
    ensures |r| == |xs| * |ys|
    decreases |xs|
  {
    if xs == [] then []
    else seq(|ys|, j requires 0 <= j < |ys| => join(xs[0], ys[j])) + Cross(xs[1..], ys, join)
  }

  lemma {:induction false} CrossAt<A, B, C>(xs: seq<A>, ys: seq<B>, join: (A, B) -> C, i: int, j: int)
    requires 0 <= i < |xs| && 0 <= j < |ys|
    ensures 0 <= i * |ys| + j < |Cross(xs, ys, join)|
    ensures Cross(xs, ys, join)[i * |ys| + j] == join(xs[i], ys[j])
    decreases i
  {
    if i > 0 {
      CrossAt(xs[1..], ys, join, i - 1, j);
      assert (i - 1) * |ys| + j + |ys| == i * |ys| + j;
    }
  }

  /** The name of a cell: a row letter followed by a column digit. */
  function Join2(r: char, c: char): string { [r, c] }

  function Name(i: int): string
    requires 0 <= i < 81
  {
    [ROWS[i / 9], COLUMNS[i % 9]]
  }

  /** CELLS: the 81 names, row-major. */
  function Cells(): (r: seq<string>)
    ensures |r| == 81
    ensures forall i :: 0 <= i < 81 ==> r[i] == Name(i)
  {
    CellsAreNames();
    Cross(ROWS, COLUMNS, Join2)
  }

  lemma CellsAreNames()
    ensures |Cross(ROWS, COLUMNS, Join2)| == 81
    ensures forall i :: 0 <= i < 81 ==> Cross(ROWS, COLUMNS, Join2)[i] == Name(i)
  {
    forall i | 0 <= i < 81
      ensures Cross(ROWS, COLUMNS, Join2)[i] == Name(i)
    {
      CellIsName(i);
    }
  }

  lemma CellIsName(i: int)
    requires 0 <= i < 81
    ensures |Cross(ROWS, COLUMNS, Join2)| == 81
    ensures Cross(ROWS, COLUMNS, Join2)[i] == Name(i)
  {
    CrossNineAt(ROWS, COLUMNS, i);
  }

  /** Entry i of a 9 x 9 cross of names joins letter i / 9 with digit i % 9. */
  lemma CrossNineAt(xs: string, ys: string, i: int)
    requires |xs| == 9 && |ys| == 9 && 0 <= i < 81
    ensures |Cross(xs, ys, Join2)| == 81
    ensures Cross(xs, ys, Join2)[i] == [xs[i / 9], ys[i % 9]]
  {
    var r, c := i / 9, i % 9;
    assert r * |ys| + c == i;
    CrossAt(xs, ys, Join2, r, c);
  }

  /** Python's ordering of strings: lexicographic by code point. */
  predicate LexLess(s: string, t: string)
  {
    if s == [] then t != []
    else t != [] && (s[0] < t[0] || (s[0] == t[0] && LexLess(s[1..], t[1..])))
  }

  lemma LettersAscend(a: int, b: int)
    requires 0 <= a < 9 && 0 <= b < 9
    ensures ROWS[a] < ROWS[b] <==> a < b
    ensures COLUMNS[a] < COLUMNS[b] <==> a < b
    ensures ROWS[a] == ROWS[b] <==> a == b
  {
    assert forall k :: 0 <= k < 9 ==> ROWS[k] as int == 65 + k && COLUMNS[k] as int == 49 + k;
  }

  /** Ordering cells by name is ordering them by index, so "the smallest
      cell name" is "the smallest index". */
  lemma NameOrder(i: int, j: int)
    requires 0 <= i < 81 && 0 <= j < 81
    ensures LexLess(Name(i), Name(j)) <==> i < j
  {
    LettersAscend(i / 9, j / 9);
    LettersAscend(i % 9, j % 9);
    PairOrder(ROWS[i / 9], COLUMNS[i % 9], ROWS[j / 9], COLUMNS[j % 9]);
    IndexOrder(i, j);
  }

  /** Two-character strings compare by their first, then their second character. */
  lemma PairOrder(a: char, b: char, c: char, d: char)
    ensures LexLess([a, b], [c, d]) <==> a < c || (a == c && b < d)
  {
    assert [a, b][1..] == [b] && [c, d][1..] == [d];
    assert [b][1..] == [] && [d][1..] == [];
    assert !LexLess([], []);
    assert LexLess([b], [d]) <==> b < d;
  }

  /** Row-major order on indices is row first, then column. */
  lemma IndexOrder(i: int, j: int)
    requires 0 <= i < 81 && 0 <= j < 81
    ensures i < j <==> i / 9 < j / 9 || (i / 9 == j / 9 && i % 9 < j % 9)
  {
  }


  // Geometry in index form.

  function At(r: int, c: int): int { 9 * r + c }

  function Row(c: int): int { c / 9 }
  function Col(c: int): int { c % 9 }
  function Box(c: int): int { 3 * (Row(c) / 3) + Col(c) / 3 }

  /** Row and column positions 0..8, and the three bands 'ABC'/'DEF'/'GHI'
      (or '123'/'456'/'789') as positions. */
  function Nine(): seq<int> { seq(9, i => i) }
  function Bands(): seq<seq<int>> { seq(3, b => seq(3, k => 3 * b + k)) }

  function BoxCells(rs: seq<int>, cs: seq<int>): seq<int> { Cross(rs, cs, At) }

  function RowUnits(): seq<seq<int>> { seq(9, r => Cross([r], Nine(), At)) }
  function ColumnUnits(): seq<seq<int>> { seq(9, c => Cross(Nine(), [c], At)) }
  function SquareUnits(): seq<seq<int>> { Cross(Bands(), Bands(), BoxCells) }
  /** Main diagonal A1, B2, .., I9 and anti-diagonal A9, B8, .., I1, each in
      the order the comprehension over (column, row) pairs produces. */
  function DiagonalUnits(): seq<seq<int>> { [seq(9, k => At(k, k)), seq(9, k => At(k, 8 - k))] }

  /** The p-th cell of the u-th unit of UNITLIST, in closed form. */
  function UnitCell(u: int, p: int): (c: int)
    requires 0 <= u < 29 && 0 <= p < 9
    ensures 0 <= c < 81
  {
    if u < 9 then At(u, p)
    else if u < 18 then At(p, u - 9)
    else if u < 27 then At(3 * ((u - 18) / 3) + p / 3, 3 * ((u - 18) % 3) + p % 3)
    else if u == 27 then At(p, p)
    else At(p, 8 - p)
  }

  /** Which unit of UNITLIST a cell belongs to, by its coordinates. */
  predicate InUnit(c: int, u: int)
  {
    if u < 9 then Row(c) == u
    else if u < 18 then Col(c) == u - 9
    else if u < 27 then Box(c) == u - 18
    else if u == 27 then Row(c) == Col(c)
    else Row(c) + Col(c) == 8
  }

  lemma RowUnitsShape()
    ensures |RowUnits()| == 9
    ensures forall u :: 0 <= u < 9 ==> |RowUnits()[u]| == 9
    ensures forall u, p :: 0 <= u < 9 && 0 <= p < 9 ==> RowUnits()[u][p] == UnitCell(u, p)
  {
    forall u, p | 0 <= u < 9 && 0 <= p < 9
      ensures RowUnits()[u][p] == UnitCell(u, p)
    {
      CrossAt([u], Nine(), At, 0, p);
    }
  }

  lemma ColumnUnitsShape()
    ensures |ColumnUnits()| == 9
    ensures forall u :: 0 <= u < 9 ==> |ColumnUnits()[u]| == 9
    ensures forall u, p :: 0 <= u < 9 && 0 <= p < 9 ==> ColumnUnits()[u][p] == UnitCell(9 + u, p)
  {
    forall u, p | 0 <= u < 9 && 0 <= p < 9
      ensures ColumnUnits()[u][p] == UnitCell(9 + u, p)
    {
      CrossAt(Nine(), [u], At, p, 0);
    }
  }

  lemma SquareUnitAt(b: int)
    requires 0 <= b < 9
    ensures |SquareUnits()| == 9
    ensures SquareUnits()[b] == Cross(Bands()[b / 3], Bands()[b % 3], At)
  {
    CrossAt(Bands(), Bands(), BoxCells, b / 3, b % 3);
  }

  lemma SquareUnitsShape()
    ensures |SquareUnits()| == 9
    ensures forall u :: 0 <= u < 9 ==> |SquareUnits()[u]| == 9
    ensures forall u, p :: 0 <= u < 9 && 0 <= p < 9 ==> SquareUnits()[u][p] == UnitCell(18 + u, p)
  {
    SquareUnitAt(0);
    forall u | 0 <= u < 9
      ensures |SquareUnits()[u]| == 9
    {
      SquareUnitAt(u);
    }
    forall u, p | 0 <= u < 9 && 0 <= p < 9
      ensures SquareUnits()[u][p] == UnitCell(18 + u, p)
    {
      SquareUnitAt(u);
      CrossAt(Bands()[u / 3], Bands()[u % 3], At, p / 3, p % 3);
    }
  }

  /** The unit list (solution.py:65) in closed form, cell by cell;
      UnitListIsConcatenation shows it is the row, column, box and diagonal
      families joined in that order. */
  function UnitList(): seq<seq<int>>
  {
    seq(29, u requires 0 <= u < 29 => seq(9, p requires 0 <= p < 9 => UnitCell(u, p)))
  }

  lemma UnitListIsConcatenation()
    ensures UnitList() == RowUnits() + ColumnUnits() + SquareUnits() + DiagonalUnits()
  {
    RowUnitsShape();
    ColumnUnitsShape();
    SquareUnitsShape();
    var all := RowUnits() + ColumnUnits() + SquareUnits() + DiagonalUnits();
    forall u | 0 <= u < 29
      ensures all[u] == UnitList()[u]
    {
      if u < 9 {
        assert all[u] == RowUnits()[u];
      } else if u < 18 {
        assert all[u] == ColumnUnits()[u - 9];
      } else if u < 27 {
        assert all[u] == SquareUnits()[u - 18];
      } else {
        assert all[u] == DiagonalUnits()[u - 27];
      }
    }
  }

  lemma RowColAt(r: int, k: int)
    requires 0 <= r < 9 && 0 <= k < 9
    ensures Row(At(r, k)) == r && Col(At(r, k)) == k
  {
  }

  lemma ThirdOf(q: int, x: int)
    requires 0 <= q && 0 <= x < 3
    ensures (3 * q + x) / 3 == q
  {
  }

  /** The p-th cell of box b lies in box b. */
  lemma BoxCellInBox(b: int, p: int)
    requires 0 <= b < 9 && 0 <= p < 9
    ensures Box(At(3 * (b / 3) + p / 3, 3 * (b % 3) + p % 3)) == b
  {
    var r, k := 3 * (b / 3) + p / 3, 3 * (b % 3) + p % 3;
    assert 0 <= r < 9 && 0 <= k < 9;
    RowColAt(r, k);
    ThirdOf(b / 3, p / 3);
    ThirdOf(b % 3, p % 3);
  }

  lemma RowCellInUnit(u: int, p: int)
    requires 0 <= u < 9 && 0 <= p < 9
    ensures InUnit(UnitCell(u, p), u)
  {
    RowColAt(u, p);
  }

  lemma ColumnCellInUnit(u: int, p: int)
    requires 9 <= u < 18 && 0 <= p < 9
    ensures InUnit(UnitCell(u, p), u)
  {
    RowColAt(p, u - 9);
  }

  lemma BoxUnitCellInUnit(u: int, p: int)
    requires 18 <= u < 27 && 0 <= p < 9
    ensures InUnit(UnitCell(u, p), u)
  {
    BoxCellInBox(u - 18, p);
  }

  lemma MainDiagonalCellInUnit(p: int)
    requires 0 <= p < 9
    ensures InUnit(UnitCell(27, p), 27)
  {
    RowColAt(p, p);
  }

  lemma AntiDiagonalCellInUnit(p: int)
    requires 0 <= p < 9
    ensures InUnit(UnitCell(28, p), 28)
  {
    RowColAt(p, 8 - p);
  }

  /** The p-th cell of unit u lies in unit u. */
  lemma UnitCellInUnit(u: int, p: int)
    requires 0 <= u < 29 && 0 <= p < 9
    ensures InUnit(UnitCell(u, p), u)
  {
    if u < 9 {
      RowCellInUnit(u, p);
    } else if u < 18 {
      ColumnCellInUnit(u, p);
    } else if u < 27 {
      BoxUnitCellInUnit(u, p);
    } else if u == 27 {
      MainDiagonalCellInUnit(p);
    } else {
      AntiDiagonalCellInUnit(p);
    }
  }

  /** The position of cell c inside unit u, when c belongs to it. */
  function PositionIn(c: int, u: int): int
  {
    if u < 9 then Col(c)
    else if u < 18 then Row(c)
    else if u < 27 then 3 * (Row(c) % 3) + Col(c) % 3
    else Row(c)
  }

  lemma PositionInUnit(c: int, u: int)
    requires 0 <= c < 81 && 0 <= u < 29 && InUnit(c, u)
    ensures 0 <= PositionIn(c, u) < 9 && UnitCell(u, PositionIn(c, u)) == c
  {
    var r, k := Row(c), Col(c);
    assert c == 9 * r + k && 0 <= r < 9 && 0 <= k < 9;
    if 18 <= u < 27 {
      var b, p := u - 18, 3 * (r % 3) + k % 3;
      assert b == 3 * (r / 3) + k / 3;
      assert b / 3 == r / 3 && b % 3 == k / 3;
      assert p / 3 == r % 3 && p % 3 == k % 3;
      assert UnitCell(u, p) == At(3 * (r / 3) + r % 3, 3 * (k / 3) + k % 3);
    }
  }

  /** Cell c is in the u-th unit of UNITLIST exactly when its coordinates say so. */
  lemma UnitMembership(c: int, u: int)
    requires 0 <= c < 81 && 0 <= u < 29
    ensures c in UnitList()[u] <==> InUnit(c, u)
  {
    var unit := UnitList()[u];
    if c in unit {
      var p :| 0 <= p < 9 && unit[p] == c;
      UnitCellInUnit(u, p);
    }
    if InUnit(c, u) {
      PositionInUnit(c, u);
      assert unit[PositionIn(c, u)] == c;
    }
  }

  /** The cells of one unit are pairwise distinct. */
  lemma UnitCellsDistinct(u: int, p: int, q: int)
    requires 0 <= u < 29 && 0 <= p < 9 && 0 <= q < 9
    ensures UnitCell(u, p) == UnitCell(u, q) <==> p == q
  {
  }

  /** A unit as UNITLIST holds it: 9 distinct cells of the board. */
  predicate ValidUnit(u: seq<int>)
  {
    |u| == 9 && (forall p :: 0 <= p < 9 ==> 0 <= u[p] < 81)
    && forall p, q :: 0 <= p < q < 9 ==> u[p] != u[q]
  }

  lemma UnitListValid()
    ensures |UnitList()| == 29
    ensures forall u :: 0 <= u < 29 ==> ValidUnit(UnitList()[u])
  {
    forall u, p, q | 0 <= u < 29 && 0 <= p < q < 9
      ensures UnitList()[u][p] != UnitList()[u][q]
    {
      UnitCellsDistinct(u, p, q);
    }
  }

  /** The units of us that contain c, in their order in us (solution.py:67). */
  function UnitsOf(c: int, us: seq<seq<int>>): seq<seq<int>>
  {
    if us == [] then []
    else (if c in us[0] then [us[0]] else []) + UnitsOf(c, us[1..])
  }

  /** The filter keeps exactly the units that contain c. */
  lemma {:induction false} UnitsOfMembers(c: int, us: seq<seq<int>>)
    ensures forall u :: u in UnitsOf(c, us) <==> u in us && c in u
  {
    if us != [] {
      UnitsOfMembers(c, us[1..]);
      assert forall u :: u in us <==> u == us[0] || u in us[1..];
    }
  }

  /** UNITS[c]: the units of UNITLIST containing c, in UNITLIST order. */
  function Units(c: int): seq<seq<int>>
  {
    UnitsOf(c, UnitList())
  }

  lemma UnitsOfSplit(c: int, a: seq<seq<int>>, b: seq<seq<int>>)
    ensures UnitsOf(c, a + b) == UnitsOf(c, a) + UnitsOf(c, b)
  {
    if a == [] {
      assert a + b == b;
    } else {
      assert (a + b)[0] == a[0];
      assert (a + b)[1..] == a[1..] + b;
      UnitsOfSplit(c, a[1..], b);
    }
  }

  lemma UnitsOfOne(c: int, us: seq<seq<int>>, t: int)
    requires 0 <= t < |us|
    requires forall k :: 0 <= k < |us| ==> (c in us[k] <==> k == t)
    ensures UnitsOf(c, us) == [us[t]]
  {
    if t > 0 {
      UnitsOfOne(c, us[1..], t - 1);
    } else {
      UnitsOfNone(c, us[1..]);
    }
  }

  lemma UnitsOfNone(c: int, us: seq<seq<int>>)
    requires forall k :: 0 <= k < |us| ==> c !in us[k]
    ensures UnitsOf(c, us) == []
  {
    if us != [] {
      UnitsOfNone(c, us[1..]);
    }
  }

  predicate OnMainDiagonal(c: int) { Row(c) == Col(c) }
  predicate OnAntiDiagonal(c: int) { Row(c) + Col(c) == 8 }

  /** UNITS[c] is c's row, column and box, then whichever diagonals c lies
      on; so every cell has 3, 4 or 5 units, and only E5 has 5. */
  lemma UnitsOfCell(c: int)
    requires 0 <= c < 81
    ensures Units(c) == [UnitList()[Row(c)], UnitList()[9 + Col(c)], UnitList()[18 + Box(c)]]
                        + (if OnMainDiagonal(c) then [UnitList()[27]] else [])
                        + (if OnAntiDiagonal(c) then [UnitList()[28]] else [])
  {
    UnitsInFamily(c, 0, Row(c));
    UnitsInFamily(c, 9, Col(c));
    UnitsInFamily(c, 18, Box(c));
    UnitsOnDiagonals(c);
    UnitsOfFamilies(c, UnitList(), Row(c), 9 + Col(c), 18 + Box(c),
                    (if OnMainDiagonal(c) then [UnitList()[27]] else [])
                    + (if OnAntiDiagonal(c) then [UnitList()[28]] else []));
  }

  /** Filtering 29 units family by family. */
  lemma UnitsOfFamilies(c: int, us: seq<seq<int>>, r: int, k: int, b: int, diags: seq<seq<int>>)
    requires |us| == 29 && 0 <= r < 29 && 0 <= k < 29 && 0 <= b < 29
    requires UnitsOf(c, us[..9]) == [us[r]]
    requires UnitsOf(c, us[9..18]) == [us[k]]
    requires UnitsOf(c, us[18..27]) == [us[b]]
    requires UnitsOf(c, us[27..]) == diags
    ensures UnitsOf(c, us) == [us[r], us[k], us[b]] + diags
  {
    var rows, cols, boxes, rest := us[..9], us[9..18], us[18..27], us[27..];
    assert us == rows + cols + boxes + rest;
    UnitsOfSplit(c, rows + cols + boxes, rest);
    UnitsOfSplit(c, rows + cols, boxes);
    UnitsOfSplit(c, rows, cols);
  }

  /** Every cell has 3, 4 or 5 units; only E5 (index 40) has 5. */
  lemma UnitCount(c: int)
    requires 0 <= c < 81
    ensures 3 <= |Units(c)| <= 5
    ensures |Units(c)| == 5 <==> c == 40
  {
    UnitsOfCell(c);
    assert OnMainDiagonal(c) && OnAntiDiagonal(c) <==> c == 40;
  }

  /** Within the rows (lo = 0), the columns (9) or the boxes (18), c is in
      exactly the unit lo + t. */
  lemma UnitsInFamily(c: int, lo: int, t: int)
    requires 0 <= c < 81
    requires lo == 0 || lo == 9 || lo == 18
    requires t == (if lo == 0 then Row(c) else if lo == 9 then Col(c) else Box(c))
    ensures UnitsOf(c, UnitList()[lo..lo + 9]) == [UnitList()[lo + t]]
  {
    var fam := UnitList()[lo..lo + 9];
    forall k | 0 <= k < 9
      ensures c in fam[k] <==> k == t
    {
      UnitMembership(c, lo + k);
    }
    UnitsOfOne(c, fam, t);
  }

  lemma UnitsOnDiagonals(c: int)
    requires 0 <= c < 81
    ensures UnitsOf(c, UnitList()[27..]) == (if OnMainDiagonal(c) then [UnitList()[27]] else [])
                                           + (if OnAntiDiagonal(c) then [UnitList()[28]] else [])
  {
    var ul := UnitList();
    var d := ul[27..];
    UnitMembership(c, 27);
    UnitMembership(c, 28);
    assert d == [ul[27], ul[28]];
    assert d[1..] == [ul[28]];
    assert [ul[28]][1..] == [];
    assert UnitsOf(c, [ul[28]]) == (if OnAntiDiagonal(c) then [ul[28]] else []);
  }

  /** `sum(us, [])`: the lists of us concatenated. */
  function Concat(us: seq<seq<int>>): seq<int>
  {
    if us == [] then [] else us[0] + Concat(us[1..])
  }

  lemma {:induction false} ConcatMembers(us: seq<seq<int>>)
    ensures forall x :: x in Concat(us) <==> exists u :: u in us && x in u
  {
    if us != [] {
      ConcatMembers(us[1..]);
      assert forall u :: u in us <==> u == us[0] || u in us[1..];
    }
  }

  /** PEERS[c]: every cell sharing a unit with c, except c itself. */
  function Peers(c: int): set<int>
  {
    (set x | x in Concat(Units(c))) - {c}
  }

  /** Two distinct cells are peers when they share a row, a column, a box,
      or one of the two diagonals. */
  predicate SharesUnit(a: int, b: int)
  {
    Row(a) == Row(b) || Col(a) == Col(b) || Box(a) == Box(b)
    || (OnMainDiagonal(a) && OnMainDiagonal(b)) || (OnAntiDiagonal(a) && OnAntiDiagonal(b))
  }

  lemma RowColBox(c: int)
    requires 0 <= c < 81
    ensures 0 <= Row(c) < 9 && 0 <= Col(c) < 9 && 0 <= Box(c) < 9
  {
  }

  /** Some unit of UNITLIST that both cells lie in, when they share one. */
  function CommonUnit(a: int, b: int): (u: int)
    requires 0 <= a < 81 && 0 <= b < 81 && SharesUnit(a, b)
    ensures 0 <= u < 29 && InUnit(a, u) && InUnit(b, u)
  {
    RowColBox(a);
    if Row(a) == Row(b) then Row(a)
    else if Col(a) == Col(b) then 9 + Col(a)
    else if Box(a) == Box(b) then 18 + Box(a)
    else if OnMainDiagonal(a) && OnMainDiagonal(b) then 27
    else 28
  }

  lemma UnitShared(a: int, b: int, u: int)
    requires 0 <= u < 29 && InUnit(a, u) && InUnit(b, u)
    ensures SharesUnit(a, b)
  {
  }

  lemma SharesUnitIff(a: int, b: int)
    requires 0 <= a < 81 && 0 <= b < 81
    ensures SharesUnit(a, b) <==> exists u :: 0 <= u < 29 && InUnit(a, u) && InUnit(b, u)
  {
    if SharesUnit(a, b) {
      var u := CommonUnit(a, b);
    }
    forall u | 0 <= u < 29 && InUnit(a, u) && InUnit(b, u)
      ensures SharesUnit(a, b)
    {
      UnitShared(a, b, u);
    }
  }

  /** A cell of a unit of UNITLIST is a cell of the board. */
  lemma UnitListCells(k: int, b: int)
    requires 0 <= k < 29 && b in UnitList()[k]
    ensures 0 <= b < 81
  {
    var p :| 0 <= p < 9 && UnitList()[k][p] == b;
  }

  lemma PeersSound(a: int, b: int)
    requires 0 <= a < 81 && b in Peers(a)
    ensures 0 <= b < 81 && b != a && SharesUnit(a, b)
  {
    var ul := UnitList();
    ConcatMembers(Units(a));
    var u :| u in Units(a) && b in u;
    UnitsOfMembers(a, ul);
    var k :| 0 <= k < 29 && ul[k] == u;
    UnitListCells(k, b);
    UnitMembership(a, k);
    UnitMembership(b, k);
    SharesUnitIff(a, b);
  }

  lemma PeersComplete(a: int, b: int)
    requires 0 <= a < 81 && 0 <= b < 81 && b != a && SharesUnit(a, b)
    ensures b in Peers(a)
  {
    var ul := UnitList();
    SharesUnitIff(a, b);
    var k :| 0 <= k < 29 && InUnit(a, k) && InUnit(b, k);
    UnitMembership(a, k);
    UnitMembership(b, k);
    UnitsOfMembers(a, ul);
    assert ul[k] in Units(a);
    ConcatMembers(Units(a));
    assert b in Concat(Units(a));
  }

  /** The peer table agrees with the geometric definition of peers. */
  lemma PeersIff(a: int, b: int)
    requires 0 <= a < 81
    ensures b in Peers(a) <==> 0 <= b < 81 && b != a && SharesUnit(a, b)
  {
    if b in Peers(a) {
      PeersSound(a, b);
    }
    if 0 <= b < 81 && b != a && SharesUnit(a, b) {
      PeersComplete(a, b);
    }
  }

  /** PEERS[c] never contains c, and the peer relation is symmetric. */
  lemma PeersSymmetric(a: int, b: int)
    requires 0 <= a < 81 && 0 <= b < 81
    ensures a !in Peers(a)
    ensures b in Peers(a) <==> a in Peers(b)
  {
    PeersIff(a, b);
    PeersIff(b, a);
  }

  /** Two different cells of one unit are peers of each other. */
  lemma SameUnitPeers(u: seq<int>, a: int, b: int)
    requires u in UnitList() && a in u && b in u && a != b
    ensures 0 <= a < 81 && b in Peers(a)
  {
    var k :| 0 <= k < 29 && UnitList()[k] == u;
    UnitListCells(k, a);
    UnitsOfMembers(a, UnitList());
    assert u in Units(a);
    ConcatMembers(Units(a));
    assert b in Concat(Units(a));
  }

  /** Every member of UNITS[c] is a valid unit of UNITLIST containing c. */
  lemma UnitsValid(c: int, t: int)
    requires 0 <= t < |Units(c)|
    ensures Units(c)[t] in UnitList() && c in Units(c)[t] && ValidUnit(Units(c)[t])
  {
    assert Units(c)[t] in Units(c);
    UnitsOfMembers(c, UnitList());
    UnitListValid();
  }

  /** Every cell of the board lies in its row, column and box unit. */
  lemma CellInItsUnits(c: int)
    requires 0 <= c < 81
    ensures c in UnitList()[Row(c)] && c in UnitList()[9 + Col(c)] && c in UnitList()[18 + Box(c)]
    ensures c in UnitList()[27] <==> OnMainDiagonal(c)
    ensures c in UnitList()[28] <==> OnAntiDiagonal(c)
  {
    CellInFamily(c, 0, Row(c));
    CellInFamily(c, 9, Col(c));
    CellInFamily(c, 18, Box(c));
    UnitMembership(c, 27);
    UnitMembership(c, 28);
  }

  /** c lies in unit `lo + t` of the family starting at lo, for its own
      row, column or box number t. */
  lemma CellInFamily(c: int, lo: int, t: int)
    requires 0 <= c < 81
    requires lo == 0 || lo == 9 || lo == 18
    requires t == (if lo == 0 then Row(c) else if lo == 9 then Col(c) else Box(c))
    ensures c in UnitList()[lo + t]
  {
    RowColBox(c);
    UnitMembership(c, lo + t);
  }

  /** Every peer is another cell of the board. */
  lemma PeersCells(c: int)
    requires 0 <= c < 81
    ensures forall b :: b in Peers(c) ==> 0 <= b < 81 && b != c
  {
    forall b | b in Peers(c)
      ensures 0 <= b < 81 && b != c
    {
      PeersSound(c, b);
    }
  }
}
