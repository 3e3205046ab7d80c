/** Cells, raw sheets and tables as pandas holds them for the PTR report
    pages: a cell is empty (pandas' NaN), a string or a number; a table is a
    row of column names over equally wide rows. */
module Sheet {
  import opened Wrappers
  import opened Seqs

  datatype Cell = Empty | Str(s: string) | Num(n: int)

  /** A raw, header-less sheet as the spreadsheet reader returns it. */
  type Grid = seq<seq<Cell>>

  /** The reader pads every row to the sheet's width. */
  predicate IsGrid(g: Grid) {
    forall i, j :: 0 <= i < j < |g| ==> |g[i]| == |g[j]|
  }

  /** A data frame: column names (the header cells, which need not be
      strings) over row-major data. */
  datatype Table = Table(columns: seq<Cell>, rows: seq<seq<Cell>>)

  predicate Rectangular(t: Table) {
    forall i :: 0 <= i < |t.rows| ==> |t.rows[i]| == |t.columns|
  }

  predicate HasColumn(t: Table, name: string) {
    Str(name) in t.columns
  }

  /** The cells of column `j`, top to bottom. */
  function Column(t: Table, j: nat): (col: seq<Cell>)
    requires Rectangular(t) && j < |t.columns|
    ensures |col| == |t.rows|
    ensures forall i :: 0 <= i < |col| ==> col[i] == t.rows[i][j]
  {
    seq(|t.rows|, i requires 0 <= i < |t.rows| => t.rows[i][j])
  }

  /** Index of the first column called `name`, as a column lookup finds it. */
  function ColumnIndex(t: Table, name: string): (r: Option<nat>)
    ensures r.None? <==> !HasColumn(t, name)
    ensures r.Some? ==> r.value < |t.columns| && t.columns[r.value] == Str(name)
    ensures r.Some? ==> forall j :: 0 <= j < r.value ==> t.columns[j] != Str(name)
  {
    if HasColumn(t, name) then Some(FirstIndex(t.columns, Str(name))) else None
  }

  /** pandas' `==` on a cell: NaN is equal to nothing, itself included. */
  predicate CellEquals(a: Cell, b: Cell) {
    a != Empty && a == b
  }

  // ---------------------------------------------------------------------
  // Text helpers

  predicate IsDigit(c: char) {
    '0' <= c <= '9'
  }

  function DigitChar(d: nat): (c: char)
    requires d < 10
    ensures IsDigit(c)
  {
    "0123456789"[d]
  }

  /** Decimal text of a natural number, as `str` writes it. */
  function NatText(n: nat): (s: string)
    ensures |s| > 0
    ensures forall i :: 0 <= i < |s| ==> IsDigit(s[i])
  {
    if n < 10 then [DigitChar(n)] else NatText(n / 10) + [DigitChar(n % 10)]
  }

  function IntText(n: int): (s: string)
    ensures |s| > 0
    ensures forall i :: 0 <= i < |s| ==> IsDigit(s[i]) || s[i] == '-'
  {
    if n < 0 then "-" + NatText(-n) else NatText(n)
  }

  /** The text `astype(str)` gives a cell: NaN becomes "nan". */
  function CellText(c: Cell): string {
    match c
    case Empty => "nan"
    case Str(s) => s
    case Num(n) => IntText(n)
  }

  /** Does `t` occur in `s` at position `i`? */
  predicate OccursAt(t: string, s: string, i: nat) {
    i + |t| <= |s| && s[i..i + |t|] == t
  }

  /** Python's `t in s`, the test that `str.contains` makes. */
  function Contains(s: string, t: string): (r: bool)
    ensures r <==> exists i: nat :: OccursAt(t, s, i)
  {
    if |t| > |s| then
      assert forall i: nat :: !OccursAt(t, s, i);
      false
    else if s[..|t|] == t then
      assert OccursAt(t, s, 0);
      true
    else
      var rest := Contains(s[1..], t);
      assert forall i: nat :: OccursAt(t, s, i + 1) <==> OccursAt(t, s[1..], i) by {
        forall i: nat ensures OccursAt(t, s, i + 1) <==> OccursAt(t, s[1..], i) {
          if i + 1 + |t| <= |s| {
            var a, b := s[i + 1..i + 1 + |t|], s[1..][i..i + |t|];
            assert forall k :: 0 <= k < |t| ==> a[k] == b[k];
            assert a == b;
          }
        }
      }
      assert !OccursAt(t, s, 0);
      assert (exists i: nat :: OccursAt(t, s, i)) ==> exists i: nat :: OccursAt(t, s[1..], i) by {
        if exists i: nat :: OccursAt(t, s, i) {
          var i: nat :| OccursAt(t, s, i);
          assert i > 0;
          assert OccursAt(t, s[1..], i - 1);
        }
      }
      rest
  }
}
