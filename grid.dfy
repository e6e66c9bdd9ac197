/** `grid_values`: reading a puzzle string into a candidate board. */
module Grid {
  import opened Board

  datatype Option<T> = None | Some(value: T)

  /** The candidates one character of the puzzle stands for: '.' is an empty
      cell ('123456789'), '1'..'9' a given digit; anything else is skipped. */
  function CharCands(ch: char): Option<Cands>
  {
    if ch == '.' then Some(AllDigits())
    else if '1' <= ch <= '9' then Some({(ch as int - '0' as int) as Digit})
    else None
  }

  /** The candidate strings appended for the characters of g, in order. */
  function Recognized(g: string): seq<Cands>
  {
    if g == [] then []
    else
      Recognized(g[..|g| - 1])
      + match CharCands(g[|g| - 1]) { case Some(x) => [x] case None => [] }
  }

  /** `grid_values`: the board, or None where the source's assertion that
      exactly 81 characters were recognised fails. The i-th recognised
      character fills cell i, i.e. CELLS[i], row-major. */
  method GridValues(grid: string) returns (r: Option<seq<Cands>>)
    ensures r.Some? <==> |Recognized(grid)| == 81
    ensures r.Some? ==> r.value == Recognized(grid)
  {
    var values: seq<Cands> := [];
    for i := 0 to |grid|
      invariant values == Recognized(grid[..i])
    {
      assert grid[..i + 1][..i] == grid[..i];
      match CharCands(grid[i]) {
        case Some(x) => values := values + [x];
        case None =>
      }
    }
    assert grid[..|grid|] == grid;
    if |values| == 81 {
      r := Some(values);
    } else {
      r := None;
    }
  }

  lemma {:induction false} RecognizedAppend(g: string, h: string)
    ensures Recognized(g + h) == Recognized(g) + Recognized(h)
    decreases |h|
  {
    if h == [] {
      assert g + h == g;
    } else {
      var n := |h| - 1;
      assert (g + h)[..|g + h| - 1] == g + h[..n];
      RecognizedAppend(g, h[..n]);
    }
  }

  lemma RecognizedOne(ch: char)
    ensures Recognized([ch]) == match CharCands(ch) { case Some(x) => [x] case None => [] }
  {
    assert [ch][..0] == [];
  }

  /** A character outside '.', '1'..'9' is dropped wherever it stands. */
  lemma RecognizedSkips(g: string, ch: char, h: string)
    requires CharCands(ch).None?
    ensures Recognized(g + [ch] + h) == Recognized(g + h)
  {
    RecognizedAppend(g + [ch], h);
    RecognizedAppend(g, [ch]);
    RecognizedOne(ch);
    RecognizedAppend(g, h);
  }

  /** Every recognised cell is either empty ('123456789') or one given digit. */
  lemma {:induction false} RecognizedCells(g: string)
    ensures forall c :: 0 <= c < |Recognized(g)| ==> Recognized(g)[c] == AllDigits() || Solved(Recognized(g)[c])
    decreases |g|
  {
    if g != [] {
      RecognizedCells(g[..|g| - 1]);
    }
  }

  /** A puzzle as a row-major list of givens. */
  type Puzzle = seq<Option<Digit>>

  /** The character that writes a given: '.' for a blank, else its digit. */
  function Render(x: Option<Digit>): char
  {
    match x { case None => '.' case Some(d) => ('0' as int + d) as char }
  }

  function Encode(p: Puzzle): (g: string)
    ensures |g| == |p|
  {
    seq(|p|, i requires 0 <= i < |p| => Render(p[i]))
  }

  /** The board a puzzle stands for. */
  function Givens(p: Puzzle): (s: seq<Cands>)
    ensures |s| == |p|
  {
    seq(|p|, i requires 0 <= i < |p| => match p[i] { case None => AllDigits() case Some(d) => {d} })
  }

  /** Reading back a written puzzle gives its board: every character of the
      encoding is recognised, and cell i gets the i-th given. */
  lemma {:induction false} ReadWritten(p: Puzzle)
    ensures Recognized(Encode(p)) == Givens(p)
    decreases |p|
  {
    if p != [] {
      var n := |p| - 1;
      assert Encode(p)[..n] == Encode(p[..n]);
      ReadWritten(p[..n]);
      assert Givens(p) == Givens(p[..n]) + [Givens(p)[n]];
    }
  }
}
