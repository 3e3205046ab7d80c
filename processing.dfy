/** The PTR sheet normaliser (`processing_excel`): it finds the header row of
    a raw test-report sheet, drops the index and `No` columns, renames the
    known header variants, forward-fills the grouping columns and collects
    the "PTR Ver" labels. Also the two clean-ups the page applies to its
    result: newline-free version labels and "N/A" for an empty status. */
module PtrProcessing {
  import opened Wrappers
  import opened Seqs
  import opened Sheet

  /** Every way the page's `try` blocks reject a sheet; the page shows one
      message for all of them. */
  datatype Failure =
    | NoVersionColumn          // raw column 1 does not exist (KeyError)
    | VersionColumnNotText     // raw column 1 holds no string, so `.str` raises
    | MissingColumn(name: string)

  const HeaderMarker := "Features"
  const MaxRowsToScan := 20
  const VersionMarker := "PTR Ver"

  // ---------------------------------------------------------------------
  // Forward fill

  /** The nearest non-empty cell of `s` counted from its end, or Empty when
      every cell is empty: the value a forward fill carries into the
      position just after `s`. */
  function LastFilled(s: seq<Cell>): (r: Cell)
    ensures r == Empty <==> forall k :: 0 <= k < |s| ==> s[k] == Empty
  {
    if s == [] then Empty
    else if s[|s| - 1] != Empty then s[|s| - 1]
    else
      var init := s[..|s| - 1];
      var r := LastFilled(init);
      assert forall k :: 0 <= k < |init| ==> init[k] == s[k];
      r
  }

  /** A non-empty `LastFilled` is a cell of `s` with only empty cells
      after it. */
  lemma {:induction false} LastFilledIsNearest(s: seq<Cell>) returns (k: nat)
    requires LastFilled(s) != Empty
    ensures k < |s| && s[k] == LastFilled(s)
    ensures forall m :: k < m < |s| ==> s[m] == Empty
  {
    if s[|s| - 1] != Empty {
      k := |s| - 1;
    } else {
      var init := s[..|s| - 1];
      k := LastFilledIsNearest(init);
      assert s[k] == init[k];
    }
  }

  /** Forward fill of one column, `last` being the value carried in. */
  function FFillFrom(last: Cell, col: seq<Cell>): (r: seq<Cell>)
    ensures |r| == |col|
    decreases |col|
  {
    if col == [] then []
    else
      var v := if col[0] == Empty then last else col[0];
      [v] + FFillFrom(v, col[1..])
  }

  /** pandas' `ffill` of one column. */
  function FFill(col: seq<Cell>): (r: seq<Cell>)
    ensures |r| == |col|
  {
    FFillFrom(Empty, col)
  }

  lemma {:induction false} LastFilledStep(last: Cell, c: Cell, rest: seq<Cell>)
    ensures LastFilled([last, c] + rest) == LastFilled([if c == Empty then last else c] + rest)
    decreases |rest|
  {
    var v := if c == Empty then last else c;
    if rest == [] {
      assert [last, c] + rest == [last, c];
      assert [v] + rest == [v];
      assert [last, c][..1] == [last];
      assert [last][..0] == [];
      assert [v][..0] == [];
    } else {
      var init := rest[..|rest| - 1];
      assert ([last, c] + rest)[..|rest| + 1] == [last, c] + init;
      assert ([v] + rest)[..|rest|] == [v] + init;
      LastFilledStep(last, c, init);
    }
  }

  lemma {:induction false} LastFilledAfterEmpty(s: seq<Cell>)
    ensures LastFilled([Empty] + s) == LastFilled(s)
    decreases |s|
  {
    if s == [] {
      assert [Empty][..0] == [];
    } else {
      var init := s[..|s| - 1];
      assert ([Empty] + s)[..|s|] == [Empty] + init;
      LastFilledAfterEmpty(init);
    }
  }

  /** The cell carried past the head of `col`, in terms of `LastFilled`. */
  lemma LastFilledHead(last: Cell, col: seq<Cell>, i: nat)
    requires i < |col|
    ensures LastFilled([last] + col[..i + 1]) == LastFilled([if col[0] == Empty then last else col[0]] + col[1..][..i])
  {
    var rest := col[1..][..i];
    assert col[..i + 1] == [col[0]] + rest;
    assert [last] + col[..i + 1] == [last, col[0]] + rest;
    LastFilledStep(last, col[0], rest);
  }

  lemma {:induction false} FFillFromAt(last: Cell, col: seq<Cell>, i: nat)
    requires i < |col|
    ensures FFillFrom(last, col)[i] == LastFilled([last] + col[..i + 1])
    decreases |col|
  {
    var v := if col[0] == Empty then last else col[0];
    LastFilledHead(last, col, i);
    if i == 0 {
      assert FFillFrom(last, col)[0] == v;
      assert [v] + col[1..][..0] == [v];
      assert [v][..0] == [];
    } else {
      assert FFillFrom(last, col)[i] == FFillFrom(v, col[1..])[i - 1];
      FFillFromAt(v, col[1..], i - 1);
    }
  }

  /** Position `i` of a forward-filled column holds the nearest non-empty
      cell at or above `i`. */
  lemma FFillAt(col: seq<Cell>, i: nat)
    requires i < |col|
    ensures FFill(col)[i] == LastFilled(col[..i + 1])
  {
    FFillFromAt(Empty, col, i);
    LastFilledAfterEmpty(col[..i + 1]);
  }

  /** The three promises of forward fill: a non-empty cell is kept, an empty
      one takes the nearest non-empty cell above it, and a cell stays empty
      exactly when it and everything above it is empty. */
  lemma FFillSpec(col: seq<Cell>, i: nat)
    requires i < |col|
    ensures col[i] != Empty ==> FFill(col)[i] == col[i]
    ensures col[i] == Empty ==> FFill(col)[i] == LastFilled(col[..i])
    ensures FFill(col)[i] == Empty <==> forall j :: 0 <= j <= i ==> col[j] == Empty
  {
    FFillAt(col, i);
    var s := col[..i + 1];
    assert s[..i] == col[..i];
    assert forall j :: 0 <= j <= i ==> s[j] == col[j];
  }

  lemma {:induction false} FFillFromIdempotent(last: Cell, col: seq<Cell>)
    ensures FFillFrom(last, FFillFrom(last, col)) == FFillFrom(last, col)
    decreases |col|
  {
    if col != [] {
      var v := if col[0] == Empty then last else col[0];
      var once := FFillFrom(last, col);
      assert once[0] == v && once[1..] == FFillFrom(v, col[1..]);
      FFillFromIdempotent(v, col[1..]);
    }
  }

  /** Forward-filling a filled column changes nothing. */
  lemma FFillIdempotent(col: seq<Cell>)
    ensures FFill(FFill(col)) == FFill(col)
  {
    FFillFromIdempotent(Empty, col);
  }

  // ---------------------------------------------------------------------
  // Header row

  /** Does some cell of the row, written as text, contain "Features"? */
  predicate RowHasMarker(row: seq<Cell>) {
    exists k :: 0 <= k < |row| && Contains(CellText(row[k]), HeaderMarker)
  }

  /** The first row at or after `i`, among the first 20, holding "Features". */
  function FirstMarkedFrom(sheet: Grid, i: nat): (h: Option<nat>)
    ensures h.Some? ==> i <= h.value < |sheet| && h.value < MaxRowsToScan && RowHasMarker(sheet[h.value])
    ensures h.Some? ==> forall k :: i <= k < h.value ==> !RowHasMarker(sheet[k])
    ensures h.None? ==> forall k :: i <= k < |sheet| && k < MaxRowsToScan ==> !RowHasMarker(sheet[k])
    decreases MaxRowsToScan - i
  {
    if i >= |sheet| || i >= MaxRowsToScan then None
    else if RowHasMarker(sheet[i]) then Some(i)
    else FirstMarkedFrom(sheet, i + 1)
  }

  /** The header row: the first of the first 20 rows holding "Features";
      when none does, `idxmax` of an all-false column picks row 0. */
  function HeaderIndex(sheet: Grid): (h: nat)
    requires |sheet| > 0
    ensures h < |sheet| && h < MaxRowsToScan
    ensures forall k :: 0 <= k < h ==> !RowHasMarker(sheet[k])
    ensures (exists k :: 0 <= k < |sheet| && k < MaxRowsToScan && RowHasMarker(sheet[k])) ==> RowHasMarker(sheet[h])
    ensures (forall k :: 0 <= k < |sheet| && k < MaxRowsToScan ==> !RowHasMarker(sheet[k])) ==> h == 0
  {
    match FirstMarkedFrom(sheet, 0)
    case Some(h) => h
    case None => 0
  }

  // ---------------------------------------------------------------------
  // Version labels

  function Width(sheet: Grid): nat {
    if sheet == [] then 0 else |sheet[0]|
  }

  /** Raw column `j` of the sheet, top to bottom. */
  function RawColumn(sheet: Grid, j: nat): (col: seq<Cell>)
    requires IsGrid(sheet) && j < Width(sheet)
    ensures |col| == |sheet|
    ensures forall i :: 0 <= i < |sheet| ==> col[i] == sheet[i][j]
  {
    seq(|sheet|, i requires 0 <= i < |sheet| => sheet[i][j])
  }

  /** The strings of `col` that contain "PTR Ver", in column order. */
  function VersionTexts(col: seq<Cell>): (r: seq<string>)
    ensures forall k :: 0 <= k < |r| ==> Contains(r[k], VersionMarker) && Str(r[k]) in col
    ensures forall i :: 0 <= i < |col| && col[i].Str? && Contains(col[i].s, VersionMarker) ==> col[i].s in r
  {
    if col == [] then []
    else
      var rest := VersionTexts(col[1..]);
      assert forall i :: 1 <= i < |col| ==> col[i] == col[1..][i - 1];
      if col[0].Str? && Contains(col[0].s, VersionMarker) then [col[0].s] + rest else rest
  }

  /** `VersionTexts` lists the texts in the order the column first shows
      them. */
  lemma {:induction false} VersionTextsOrder(col: seq<Cell>, x: string, y: string)
    requires x in VersionTexts(col) && y in VersionTexts(col)
    requires FirstIndex(VersionTexts(col), x) < FirstIndex(VersionTexts(col), y)
    ensures Str(x) in col && Str(y) in col
    ensures FirstIndex(col, Str(x)) < FirstIndex(col, Str(y))
  {
    var texts := VersionTexts(col);
    var rest := VersionTexts(col[1..]);
    var i :| 0 <= i < |texts| && texts[i] == x;
    var j :| 0 <= j < |texts| && texts[j] == y;
    assert Contains(x, VersionMarker) && Contains(y, VersionMarker);
    if col[0].Str? && Contains(col[0].s, VersionMarker) {
      assert texts == [col[0].s] + rest;
      if x == col[0].s {
        assert FirstIndex(col, Str(x)) == 0;
      } else {
        assert y != col[0].s;
        assert x in rest && y in rest;
        assert FirstIndex(texts, x) == 1 + FirstIndex(rest, x);
        assert FirstIndex(texts, y) == 1 + FirstIndex(rest, y);
        VersionTextsOrder(col[1..], x, y);
      }
    } else {
      assert texts == rest;
      assert col[0] != Str(x) && col[0] != Str(y);
      VersionTextsOrder(col[1..], x, y);
    }
  }

  /** Forward fill does not move the first occurrence of a non-empty cell:
      every cell it writes above that point copies a cell from above. */
  lemma FFillFirstIndex(col: seq<Cell>, c: Cell)
    requires c != Empty && c in col
    ensures c in FFill(col) && FirstIndex(FFill(col), c) == FirstIndex(col, c)
  {
    var filled := FFill(col);
    var k := FirstIndex(col, c);
    FFillSpec(col, k);
    forall j | 0 <= j < k ensures filled[j] != c {
      FFillSpec(col, j);
      if col[j] == Empty && filled[j] != Empty {
        var m := LastFilledIsNearest(col[..j]);
        assert col[m] == filled[j];
      }
    }
    FirstIndexUnique(filled, c, k);
  }

  /** The de-duplicated labels keep the order in which the raw column first
      shows them. */
  lemma LabelsFirstSeen(raw: seq<Cell>, a: nat, b: nat)
    requires a < b < |Dedup(VersionTexts(FFill(raw)))|
    ensures var labels := Dedup(VersionTexts(FFill(raw)));
      Str(labels[a]) in raw && Str(labels[b]) in raw && FirstIndex(raw, Str(labels[a])) < FirstIndex(raw, Str(labels[b]))
  {
    LabelsInRaw(raw);
    var filled := FFill(raw);
    var texts := VersionTexts(filled);
    var labels := Dedup(texts);
    DedupFirstSeen(texts, a, b);
    VersionTextsOrder(filled, labels[a], labels[b]);
    FFillFirstIndex(raw, Str(labels[a]));
    FFillFirstIndex(raw, Str(labels[b]));
  }

  /** Every label is a cell of the raw column. */
  lemma LabelsInRaw(raw: seq<Cell>)
    ensures var labels := Dedup(VersionTexts(FFill(raw)));
      forall k :: 0 <= k < |labels| ==> Str(labels[k]) in raw
  {
    var filled := FFill(raw);
    var labels := Dedup(VersionTexts(filled));
    forall k | 0 <= k < |labels| ensures Str(labels[k]) in raw {
      var i :| 0 <= i < |filled| && filled[i] == Str(labels[k]);
      FFillAt(raw, i);
      var m := LastFilledIsNearest(raw[..i + 1]);
      assert raw[m] == Str(labels[k]);
    }
  }

  /** Every text cell of the raw column holding the marker is a label. */
  lemma MarkedTextsLabelled(raw: seq<Cell>)
    ensures var labels := Dedup(VersionTexts(FFill(raw)));
      forall i :: 0 <= i < |raw| && raw[i].Str? && Contains(raw[i].s, VersionMarker) ==> raw[i].s in labels
  {
    var filled := FFill(raw);
    forall i | 0 <= i < |raw| && raw[i].Str? && Contains(raw[i].s, VersionMarker)
      ensures raw[i].s in Dedup(VersionTexts(filled))
    {
      FFillSpec(raw, i);
      assert filled[i] == raw[i];
    }
  }

  /** The labels come in the order the raw column first shows them. */
  lemma LabelsOrdered(raw: seq<Cell>)
    ensures var labels := Dedup(VersionTexts(FFill(raw)));
      forall a, b :: 0 <= a < b < |labels| ==>
        Str(labels[a]) in raw && Str(labels[b]) in raw && FirstIndex(raw, Str(labels[a])) < FirstIndex(raw, Str(labels[b]))
  {
    var labels := Dedup(VersionTexts(FFill(raw)));
    LabelsInRaw(raw);
    forall a, b | 0 <= a < b < |labels|
      ensures Str(labels[a]) in raw && Str(labels[b]) in raw
        && FirstIndex(raw, Str(labels[a])) < FirstIndex(raw, Str(labels[b]))
    {
      LabelsFirstSeen(raw, a, b);
    }
  }

  predicate HasText(col: seq<Cell>) {
    exists i :: 0 <= i < |col| && col[i].Str?
  }

  /** The distinct "PTR Ver" strings of raw column 1 after a forward fill,
      in first-seen order. */
  function VersionLabels(sheet: Grid): (r: Result<seq<string>, Failure>)
    requires IsGrid(sheet)
    ensures Width(sheet) < 2 ==> r == Err(NoVersionColumn)
    ensures Width(sheet) >= 2 && !HasText(RawColumn(sheet, 1)) ==> r == Err(VersionColumnNotText)
    ensures Width(sheet) >= 2 && HasText(RawColumn(sheet, 1)) ==> r.Ok?
    ensures r.Ok? ==> NoDup(r.value)
    ensures r.Ok? ==> forall k :: 0 <= k < |r.value| ==>
      Contains(r.value[k], VersionMarker) && Str(r.value[k]) in RawColumn(sheet, 1)
    ensures r.Ok? ==> forall i :: 0 <= i < |sheet| && sheet[i][1].Str? && Contains(sheet[i][1].s, VersionMarker) ==>
      sheet[i][1].s in r.value
    ensures r.Ok? ==> forall a, b :: 0 <= a < b < |r.value| ==>
      FirstIndex(RawColumn(sheet, 1), Str(r.value[a])) < FirstIndex(RawColumn(sheet, 1), Str(r.value[b]))
  {
    if Width(sheet) < 2 then Err(NoVersionColumn)
    else
      var raw := RawColumn(sheet, 1);
      if !HasText(raw) then Err(VersionColumnNotText)
      else
        var labels := Dedup(VersionTexts(FFill(raw)));
        LabelsInRaw(raw);
        MarkedTextsLabelled(raw);
        LabelsOrdered(raw);
        Ok(labels)
  }

  /** The page's `str(label).replace('\n', ' ')`. */
  function ReplaceNewlines(s: string): (r: string)
    ensures |r| == |s| && '\n' !in r
    ensures forall i :: 0 <= i < |s| && s[i] != '\n' ==> r[i] == s[i]
    ensures forall i :: 0 <= i < |s| && s[i] == '\n' ==> r[i] == ' '
  {
    if s == [] then []
    else [if s[0] == '\n' then ' ' else s[0]] + ReplaceNewlines(s[1..])
  }

  /** The drop-down's labels: each version label with its line breaks
      turned into spaces, one for one and in the same order. */
  function CleanLabels(labels: seq<string>): (r: seq<string>)
    ensures |r| == |labels|
    ensures forall i :: 0 <= i < |labels| ==> r[i] == ReplaceNewlines(labels[i])
    ensures forall i :: 0 <= i < |labels| ==> |r[i]| == |labels[i]| && '\n' !in r[i]
    ensures forall i, c :: 0 <= i < |labels| && 0 <= c < |labels[i]| ==>
      r[i][c] == if labels[i][c] == '\n' then ' ' else labels[i][c]
  {
    seq(|labels|, i requires 0 <= i < |labels| => ReplaceNewlines(labels[i]))
  }

  // ---------------------------------------------------------------------
  // Column clean-up

  function DropFirstColumn(t: Table): (r: Table)
    requires Rectangular(t) && |t.columns| > 0
    ensures Rectangular(r) && |r.rows| == |t.rows|
    ensures r.columns == t.columns[1..]
    ensures forall i :: 0 <= i < |t.rows| ==> r.rows[i] == t.rows[i][1..]
  {
    Table(t.columns[1..], seq(|t.rows|, i requires 0 <= i < |t.rows| => t.rows[i][1..]))
  }

  /** Applies `f` to every cell of every column called `name`. */
  function MapNamedColumns(t: Table, name: string, f: Cell -> Cell): (r: Table)
    requires Rectangular(t)
    ensures Rectangular(r) && r.columns == t.columns && |r.rows| == |t.rows|
    ensures forall i, j :: 0 <= i < |t.rows| && 0 <= j < |t.columns| ==>
      r.rows[i][j] == if t.columns[j] == Str(name) then f(t.rows[i][j]) else t.rows[i][j]
  {
    Table(t.columns, seq(|t.rows|, i requires 0 <= i < |t.rows| =>
      seq(|t.columns|, j requires 0 <= j < |t.columns| =>
        if t.columns[j] == Str(name) then f(t.rows[i][j]) else t.rows[i][j])))
  }

  /** `astype(str)` on the `OS Version` column, when it exists. */
  function OsVersionAsText(t: Table): (r: Table)
    requires Rectangular(t)
    ensures Rectangular(r) && r.columns == t.columns && |r.rows| == |t.rows|
    ensures forall i, j :: 0 <= i < |t.rows| && 0 <= j < |t.columns| && t.columns[j] == Str("OS Version") ==>
      r.rows[i][j].Str? && r.rows[i][j].s == CellText(t.rows[i][j])
    ensures forall i, j :: 0 <= i < |t.rows| && 0 <= j < |t.columns| && t.columns[j] != Str("OS Version") ==>
      r.rows[i][j] == t.rows[i][j]
  {
    if HasColumn(t, "OS Version") then MapNamedColumns(t, "OS Version", c => Str(CellText(c))) else t
  }

  /** Indices `j >= from` of the columns not equal to `c`, ascending. */
  function KeptIndices(cols: seq<Cell>, c: Cell, from: nat): (r: seq<nat>)
    requires from <= |cols|
    ensures forall k :: 0 <= k < |r| ==> from <= r[k] < |cols| && cols[r[k]] != c
    ensures forall j :: from <= j < |cols| && cols[j] != c ==> j in r
    ensures forall k, m :: 0 <= k < m < |r| ==> r[k] < r[m]
    decreases |cols| - from
  {
    if from == |cols| then []
    else
      var rest := KeptIndices(cols, c, from + 1);
      if cols[from] == c then rest else [from] + rest
  }

  lemma {:induction false} KeptIndicesAll(cols: seq<Cell>, c: Cell, from: nat)
    requires from <= |cols|
    requires forall j :: from <= j < |cols| ==> cols[j] != c
    ensures |KeptIndices(cols, c, from)| == |cols| - from
    decreases |cols| - from
  {
    if from < |cols| {
      KeptIndicesAll(cols, c, from + 1);
    }
  }

  /** The table restricted to the columns listed in `idx`, in that order. */
  function Project(t: Table, idx: seq<nat>): (r: Table)
    requires Rectangular(t)
    requires forall k :: 0 <= k < |idx| ==> idx[k] < |t.columns|
    ensures Rectangular(r) && |r.columns| == |idx| && |r.rows| == |t.rows|
    ensures forall k :: 0 <= k < |idx| ==> r.columns[k] == t.columns[idx[k]]
    ensures forall i, k :: 0 <= i < |t.rows| && 0 <= k < |idx| ==> r.rows[i][k] == t.rows[i][idx[k]]
  {
    Table(seq(|idx|, k requires 0 <= k < |idx| => t.columns[idx[k]]),
          seq(|t.rows|, i requires 0 <= i < |t.rows| =>
            seq(|idx|, k requires 0 <= k < |idx| => t.rows[i][idx[k]])))
  }

  /** `drop(columns=name, errors='ignore')`: every column called `name`
      goes, every other column stays in order, and a table without such a
      column comes back unchanged. */
  function DropColumnsNamed(t: Table, name: string): (r: Table)
    requires Rectangular(t)
    ensures Rectangular(r) && |r.rows| == |t.rows|
    ensures !HasColumn(r, name)
    ensures forall j :: 0 <= j < |t.columns| && t.columns[j] != Str(name) ==> t.columns[j] in r.columns
    ensures !HasColumn(t, name) ==> r == t
    ensures var idx := KeptIndices(t.columns, Str(name), 0);
      && |r.columns| == |idx|
      && (forall k :: 0 <= k < |idx| ==> r.columns[k] == t.columns[idx[k]])
      && (forall i, k :: 0 <= i < |t.rows| && 0 <= k < |idx| ==> r.rows[i][k] == t.rows[i][idx[k]])
  {
    var idx := KeptIndices(t.columns, Str(name), 0);
    var r := Project(t, idx);
    ProjectKeepsOthers(t, name, idx, r);
    if !HasColumn(t, name) then
      ProjectAll(t, name, idx, r);
      r
    else r
  }

  lemma ProjectKeepsOthers(t: Table, name: string, idx: seq<nat>, r: Table)
    requires Rectangular(t)
    requires idx == KeptIndices(t.columns, Str(name), 0)
    requires r == Project(t, idx)
    ensures !HasColumn(r, name)
    ensures forall j :: 0 <= j < |t.columns| && t.columns[j] != Str(name) ==> t.columns[j] in r.columns
  {
    forall j | 0 <= j < |t.columns| && t.columns[j] != Str(name) ensures t.columns[j] in r.columns {
      var k :| 0 <= k < |idx| && idx[k] == j;
      assert r.columns[k] == t.columns[j];
    }
  }

  lemma ProjectAll(t: Table, name: string, idx: seq<nat>, r: Table)
    requires Rectangular(t) && !HasColumn(t, name)
    requires idx == KeptIndices(t.columns, Str(name), 0)
    requires r == Project(t, idx)
    ensures r == t
  {
    KeptIndicesAll(t.columns, Str(name), 0);
    IdentityIndices(idx, |t.columns|);
    assert r.columns == t.columns;
    forall i | 0 <= i < |t.rows| ensures r.rows[i] == t.rows[i] {
      assert |r.rows[i]| == |t.rows[i]|;
    }
  }

  /** A strictly increasing list of `n` indices below `n` is 0, 1, ..., n-1. */
  lemma {:induction false} IdentityIndices(idx: seq<nat>, n: nat)
    requires |idx| == n
    requires forall k :: 0 <= k < n ==> idx[k] < n
    requires forall k, m :: 0 <= k < m < n ==> idx[k] < idx[m]
    ensures forall k :: 0 <= k < n ==> idx[k] == k
  {
    forall k | 0 <= k < n ensures idx[k] == k {
      IndexLowerBound(idx, n, k);
      IndexUpperBound(idx, n, k);
    }
  }

  lemma {:induction false} IndexLowerBound(idx: seq<nat>, n: nat, k: nat)
    requires |idx| == n && k < n
    requires forall a, b :: 0 <= a < b < n ==> idx[a] < idx[b]
    ensures idx[k] >= k
  {
    if k > 0 {
      IndexLowerBound(idx, n, k - 1);
    }
  }

  lemma {:induction false} IndexUpperBound(idx: seq<nat>, n: nat, k: nat)
    requires |idx| == n && k < n
    requires forall a :: 0 <= a < n ==> idx[a] < n
    requires forall a, b :: 0 <= a < b < n ==> idx[a] < idx[b]
    ensures idx[k] <= k
    decreases n - k
  {
    if k < n - 1 {
      IndexUpperBound(idx, n, k + 1);
    }
  }

  /** The fixed map of header variants to canonical names. */
  const Renames: map<string, string> := map[
    "Sub Fitur" := "Sub-features",
    "Rekening Sumber\n[Jika ada]" := "Rekening Sumber",
    "Data yang Digunakan\n[Jika ada]" := "Data yang digunakan",
    "FT\n[Jika Ada]" := "FT"]

  function RenameCell(c: Cell): (r: Cell)
    ensures c.Str? && c.s in Renames ==> r == Str(Renames[c.s])
    ensures !(c.Str? && c.s in Renames) ==> r == c
  {
    if c.Str? && c.s in Renames then Str(Renames[c.s]) else c
  }

  /** Exactly the four listed headers change name. */
  lemma RenameChangesOnlyListed(c: Cell)
    ensures RenameCell(c) != c <==> c in {Str("Sub Fitur"), Str("Rekening Sumber\n[Jika ada]"),
                                           Str("Data yang Digunakan\n[Jika ada]"), Str("FT\n[Jika Ada]")}
  {
    assert Renames.Keys == {"Sub Fitur", "Rekening Sumber\n[Jika ada]", "Data yang Digunakan\n[Jika ada]", "FT\n[Jika Ada]"};
    if c.Str? && c.s in Renames {
      assert Renames[c.s] != c.s;
    }
  }

  function RenameColumns(t: Table): (r: Table)
    requires Rectangular(t)
    ensures Rectangular(r) && r.rows == t.rows && |r.columns| == |t.columns|
    ensures forall j :: 0 <= j < |t.columns| ==> r.columns[j] == RenameCell(t.columns[j])
  {
    Table(seq(|t.columns|, j requires 0 <= j < |t.columns| => RenameCell(t.columns[j])), t.rows)
  }

  /** No header is renamed to `No`. */
  lemma RenameKeepsNoNo(t: Table)
    requires Rectangular(t) && !HasColumn(t, "No")
    ensures !HasColumn(RenameColumns(t), "No")
  {
    var r := RenameColumns(t);
    forall j | 0 <= j < |r.columns| ensures r.columns[j] != Str("No") {
      var c := t.columns[j];
      assert r.columns[j] == RenameCell(c);
      if c.Str? && c.s in Renames {
        assert c.s in Renames.Keys;
        assert Renames.Keys == {"Sub Fitur", "Rekening Sumber\n[Jika ada]", "Data yang Digunakan\n[Jika ada]", "FT\n[Jika Ada]"};
        assert Renames[c.s] != "No";
      }
    }
  }

  /** Forward-fills every column whose name is one of `names`. */
  function FillColumns(t: Table, names: set<string>): (r: Table)
    requires Rectangular(t)
    ensures Rectangular(r) && r.columns == t.columns && |r.rows| == |t.rows|
    ensures forall j :: 0 <= j < |t.columns| && t.columns[j] in FillKeys(names) ==>
      Column(r, j) == FFill(Column(t, j))
    ensures forall j :: 0 <= j < |t.columns| && t.columns[j] !in FillKeys(names) ==>
      Column(r, j) == Column(t, j)
  {
    var r := Table(t.columns, seq(|t.rows|, i requires 0 <= i < |t.rows| =>
      seq(|t.columns|, j requires 0 <= j < |t.columns| =>
        if t.columns[j] in FillKeys(names) then FFill(Column(t, j))[i] else t.rows[i][j])));
    r
  }

  function FillKeys(names: set<string>): set<Cell> {
    set n | n in names :: Str(n)
  }

  lemma SameColumnsSameTable(a: Table, b: Table)
    requires Rectangular(a) && Rectangular(b)
    requires a.columns == b.columns && |a.rows| == |b.rows|
    requires forall j :: 0 <= j < |a.columns| ==> Column(a, j) == Column(b, j)
    ensures a == b
  {
    forall i | 0 <= i < |a.rows| ensures a.rows[i] == b.rows[i] {
      forall j | 0 <= j < |a.columns| ensures a.rows[i][j] == b.rows[i][j] {
        assert Column(a, j)[i] == Column(b, j)[i];
      }
    }
  }

  /** Filling the grouping columns of a filled table changes nothing. */
  lemma FillColumnsIdempotent(t: Table, names: set<string>)
    requires Rectangular(t)
    ensures FillColumns(FillColumns(t, names), names) == FillColumns(t, names)
  {
    var once := FillColumns(t, names);
    var twice := FillColumns(once, names);
    forall j | 0 <= j < |t.columns| ensures Column(twice, j) == Column(once, j) {
      if t.columns[j] in FillKeys(names) {
        FFillIdempotent(Column(t, j));
      }
    }
    SameColumnsSameTable(twice, once);
  }

  // ---------------------------------------------------------------------
  // The whole normaliser

  const Grouping: set<string> := {"Features", "Sub-features", "Expected Condition"}

  /** The grouping columns, plus `Link JIRA` when the table has it. */
  function FillNames(t: Table): set<string> {
    if HasColumn(t, "Link JIRA") then Grouping + {"Link JIRA"} else Grouping
  }

  /** Rows below the header row, with the header's cells as column names. */
  function WithHeader(sheet: Grid): (t: Table)
    requires IsGrid(sheet) && |sheet| > 0
    ensures Rectangular(t)
    ensures t.columns == sheet[HeaderIndex(sheet)]
    ensures t.rows == sheet[HeaderIndex(sheet) + 1..]
  {
    var h := HeaderIndex(sheet);
    Table(sheet[h], sheet[h + 1..])
  }

  /** A sheet cell under a header after the `OS Version` conversion. */
  function Typed(header: Cell, c: Cell): Cell {
    if header == Str("OS Version") then Str(CellText(c)) else c
  }

  /** Every row of a grid is as wide as the sheet. */
  lemma RowWidths(sheet: Grid)
    requires IsGrid(sheet)
    ensures forall r :: 0 <= r < |sheet| ==> |sheet[r]| == Width(sheet)
  {
    forall r | 0 < r < |sheet| ensures |sheet[r]| == Width(sheet) {
      assert |sheet[0]| == |sheet[r]|;
    }
  }

  /** The sheet columns that survive the clean-up: every column after the
      first whose header is not `No`, left to right. */
  function KeptColumns(sheet: Grid): (idx: seq<nat>)
    requires IsGrid(sheet) && Width(sheet) >= 2
    ensures var header := sheet[HeaderIndex(sheet)];
      && |header| == Width(sheet)
      && (forall k :: 0 <= k < |idx| ==> 1 <= idx[k] < |header| && header[idx[k]] != Str("No"))
      && (forall j :: 1 <= j < |header| && header[j] != Str("No") ==> j in idx)
      && (forall k, m :: 0 <= k < m < |idx| ==> idx[k] < idx[m])
  {
    RowWidths(sheet);
    var header := sheet[HeaderIndex(sheet)];
    var rest := KeptIndices(header[1..], Str("No"), 0);
    var idx := seq(|rest|, k requires 0 <= k < |rest| => rest[k] + 1);
    assert forall j :: 1 <= j < |header| && header[j] != Str("No") ==> j in idx by {
      forall j | 1 <= j < |header| && header[j] != Str("No") ensures j in idx {
        assert header[1..][j - 1] == header[j];
        var k :| 0 <= k < |rest| && rest[k] == j - 1;
        assert idx[k] == j;
      }
    }
    idx
  }

  /** Header selection and the column clean-up, before the fill: column `k`
      of the result is sheet column `KeptColumns(sheet)[k]`, renamed, and
      its rows are the sheet rows below the header. */
  function Cleaned(sheet: Grid): (t: Table)
    requires IsGrid(sheet) && Width(sheet) >= 2
    ensures Rectangular(t)
    ensures |t.rows| == |sheet| - HeaderIndex(sheet) - 1
    ensures !HasColumn(t, "No")
    ensures var h := HeaderIndex(sheet);
      var idx := KeptColumns(sheet);
      && |t.columns| == |idx|
      && (forall k :: 0 <= k < |idx| ==> t.columns[k] == RenameCell(sheet[h][idx[k]]))
      && (forall i, k :: 0 <= i < |t.rows| && 0 <= k < |idx| ==>
            t.rows[i][k] == Typed(sheet[h][idx[k]], sheet[h + 1 + i][idx[k]]))
  {
    RenameKeepsNoNo(DropColumnsNamed(OsVersionAsText(DropFirstColumn(WithHeader(sheet))), "No"));
    CleanedColumns(sheet);
    CleanedRows(sheet);
    CleanUp(sheet)
  }

  /** The clean-up pipeline after the header is chosen. */
  function CleanUp(sheet: Grid): (t: Table)
    requires IsGrid(sheet) && Width(sheet) >= 2
    ensures Rectangular(t) && |t.rows| == |sheet| - HeaderIndex(sheet) - 1
    ensures |t.columns| == |KeptColumns(sheet)|
  {
    KeptColumnsShift(sheet);
    RenameColumns(DropColumnsNamed(OsVersionAsText(DropFirstColumn(WithHeader(sheet))), "No"))
  }

  lemma KeptColumnsShift(sheet: Grid)
    requires IsGrid(sheet) && Width(sheet) >= 2
    ensures var rest := KeptIndices(DropFirstColumn(WithHeader(sheet)).columns, Str("No"), 0);
      |KeptColumns(sheet)| == |rest| && forall k :: 0 <= k < |rest| ==> KeptColumns(sheet)[k] == rest[k] + 1
  {
  }

  lemma CleanedColumnAt(sheet: Grid, k: nat)
    requires IsGrid(sheet) && Width(sheet) >= 2
    requires k < |KeptColumns(sheet)|
    ensures CleanUp(sheet).columns[k] == RenameCell(sheet[HeaderIndex(sheet)][KeptColumns(sheet)[k]])
  {
    var h := HeaderIndex(sheet);
    var o := OsVersionAsText(DropFirstColumn(WithHeader(sheet)));
    var p := DropColumnsNamed(o, "No");
    KeptColumnsShift(sheet);
    var j0 := KeptIndices(o.columns, Str("No"), 0)[k];
    assert p.columns[k] == o.columns[j0] == sheet[h][j0 + 1];
  }

  /** One cell of `OsVersionAsText`, in the terms of `Typed`. */
  lemma TypedCell(d: Table, i: nat, j: nat)
    requires Rectangular(d) && i < |d.rows| && j < |d.columns|
    ensures OsVersionAsText(d).rows[i][j] == Typed(d.columns[j], d.rows[i][j])
  {
  }

  lemma CleanedCellAt(sheet: Grid, i: nat, k: nat)
    requires IsGrid(sheet) && Width(sheet) >= 2
    requires k < |KeptColumns(sheet)| && i < |sheet| - HeaderIndex(sheet) - 1
    ensures var h, j := HeaderIndex(sheet), KeptColumns(sheet)[k];
      CleanUp(sheet).rows[i][k] == Typed(sheet[h][j], sheet[h + 1 + i][j])
  {
    var h := HeaderIndex(sheet);
    RowWidths(sheet);
    var d := DropFirstColumn(WithHeader(sheet));
    var o := OsVersionAsText(d);
    var p := DropColumnsNamed(o, "No");
    KeptColumnsShift(sheet);
    var j0 := KeptIndices(o.columns, Str("No"), 0)[k];
    assert CleanUp(sheet).rows[i][k] == p.rows[i][k];
    assert p.rows[i][k] == o.rows[i][j0];
    TypedCell(d, i, j0);
    assert d.columns[j0] == sheet[h][j0 + 1];
    assert d.rows[i][j0] == sheet[h + 1 + i][j0 + 1];
  }

  lemma CleanedColumns(sheet: Grid)
    requires IsGrid(sheet) && Width(sheet) >= 2
    ensures var t, h, idx := CleanUp(sheet), HeaderIndex(sheet), KeptColumns(sheet);
      forall k :: 0 <= k < |idx| ==> t.columns[k] == RenameCell(sheet[h][idx[k]])
  {
    forall k | 0 <= k < |KeptColumns(sheet)|
      ensures CleanUp(sheet).columns[k] == RenameCell(sheet[HeaderIndex(sheet)][KeptColumns(sheet)[k]])
    {
      CleanedColumnAt(sheet, k);
    }
  }

  lemma CleanedRowAt(sheet: Grid, i: nat)
    requires IsGrid(sheet) && Width(sheet) >= 2
    requires i < |sheet| - HeaderIndex(sheet) - 1
    ensures var h, idx := HeaderIndex(sheet), KeptColumns(sheet);
      forall k :: 0 <= k < |idx| ==> CleanUp(sheet).rows[i][k] == Typed(sheet[h][idx[k]], sheet[h + 1 + i][idx[k]])
  {
    RowWidths(sheet);
    forall k | 0 <= k < |KeptColumns(sheet)|
      ensures CleanUp(sheet).rows[i][k]
        == Typed(sheet[HeaderIndex(sheet)][KeptColumns(sheet)[k]], sheet[HeaderIndex(sheet) + 1 + i][KeptColumns(sheet)[k]])
    {
      CleanedCellAt(sheet, i, k);
    }
  }

  lemma CleanedRows(sheet: Grid)
    requires IsGrid(sheet) && Width(sheet) >= 2
    ensures var t, h, idx := CleanUp(sheet), HeaderIndex(sheet), KeptColumns(sheet);
      forall i, k :: 0 <= i < |t.rows| && 0 <= k < |idx| ==>
        t.rows[i][k] == Typed(sheet[h][idx[k]], sheet[h + 1 + i][idx[k]])
  {
    RowWidths(sheet);
    var t := CleanUp(sheet);
    assert forall i :: 0 <= i < |t.rows| ==> |t.rows[i]| == |KeptColumns(sheet)|;
    forall i | 0 <= i < |t.rows| {
      CleanedRowAt(sheet, i);
    }
  }

  function MissingGrouping(t: Table): Option<string> {
    if !HasColumn(t, "Features") then Some("Features")
    else if !HasColumn(t, "Sub-features") then Some("Sub-features")
    else if !HasColumn(t, "Expected Condition") then Some("Expected Condition")
    else None
  }

  /** `processing_excel`: the normalised table and the raw version labels. */
  function ProcessingExcel(sheet: Grid): (r: Result<(Table, seq<string>), Failure>)
    requires IsGrid(sheet)
    ensures VersionLabels(sheet).Err? ==> r == Err(VersionLabels(sheet).error)
    ensures VersionLabels(sheet).Ok? && MissingGrouping(Cleaned(sheet)).Some? ==>
      r == Err(MissingColumn(MissingGrouping(Cleaned(sheet)).value))
    ensures VersionLabels(sheet).Ok? && MissingGrouping(Cleaned(sheet)).None? ==> r.Ok?
    ensures r.Ok? ==> r.value.0 == FillColumns(Cleaned(sheet), FillNames(Cleaned(sheet)))
    ensures r.Ok? ==> r.value.1 == VersionLabels(sheet).value
    ensures r.Ok? ==> Normalised(r.value.0) && |r.value.0.rows| == |sheet| - HeaderIndex(sheet) - 1
  {
    match VersionLabels(sheet)
    case Err(e) => Err(e)
    case Ok(labels) =>
      var t := Cleaned(sheet);
      match MissingGrouping(t)
      case Some(name) => Err(MissingColumn(name))
      case None =>
        var filled := FillColumns(t, FillNames(t));
        FilledColumnsHaveOnlyLeadingEmpties(t, FillNames(t));
        Ok((filled, labels))
  }

  /** What a normalised table guarantees: uniform rows, the three grouping
      columns and no `No` column, and in every forward-filled column an
      empty cell only above the first non-empty one. */
  ghost predicate Normalised(t: Table) {
    Rectangular(t)
    && HasColumn(t, "Features") && HasColumn(t, "Sub-features") && HasColumn(t, "Expected Condition")
    && !HasColumn(t, "No")
    && forall i, j :: (0 <= i < |t.rows| && 0 <= j < |t.columns| && t.columns[j] in FillKeys(FillNames(t))
                       && t.rows[i][j] == Empty) ==> forall k :: 0 <= k <= i ==> t.rows[k][j] == Empty
  }

  lemma FilledColumnsHaveOnlyLeadingEmpties(t: Table, names: set<string>)
    requires Rectangular(t)
    requires names == FillNames(t)
    requires HasColumn(t, "Features") && HasColumn(t, "Sub-features") && HasColumn(t, "Expected Condition")
    requires !HasColumn(t, "No")
    ensures Normalised(FillColumns(t, names))
  {
    var r := FillColumns(t, names);
    assert FillNames(r) == names;
    forall i, j | 0 <= i < |r.rows| && 0 <= j < |r.columns| && r.columns[j] in FillKeys(FillNames(r)) && r.rows[i][j] == Empty
      ensures forall k :: 0 <= k <= i ==> r.rows[k][j] == Empty
    {
      var col := Column(t, j);
      assert Column(r, j) == FFill(col);
      assert Column(r, j)[i] == Empty;
      FFillSpec(col, i);
      forall k | 0 <= k <= i ensures r.rows[k][j] == Empty {
        FFillSpec(col, k);
        assert Column(r, j)[k] == r.rows[k][j];
      }
    }
  }

  /** Line 279 of the page: empty cells of the chosen version's status
      column become "N/A"; a missing status column is an error. */
  function FillStatus(t: Table, version: string): (r: Result<Table, Failure>)
    requires Rectangular(t)
    ensures r.Err? <==> !HasColumn(t, "Status " + version)
    ensures r.Err? ==> r.error == MissingColumn("Status " + version)
    ensures r.Ok? ==> Rectangular(r.value) && r.value.columns == t.columns && |r.value.rows| == |t.rows|
    ensures r.Ok? ==> forall i, j :: 0 <= i < |t.rows| && 0 <= j < |t.columns| ==>
      r.value.rows[i][j] == (if t.columns[j] == Str("Status " + version) && t.rows[i][j] == Empty
                             then Str("N/A") else t.rows[i][j])
  {
    var name := "Status " + version;
    if !HasColumn(t, name) then Err(MissingColumn(name))
    else Ok(MapNamedColumns(t, name, c => if c == Empty then Str("N/A") else c))
  }
}
