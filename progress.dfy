/** `progress_status`: the share of each status among the Android rows and
    among the iOS rows of a normalised table, in the long form the bar chart
    plots (one row per status and platform). Shares are exact rationals. */
module ProgressStatus {
  import opened Wrappers
  import opened Seqs
  import opened Sheet
  import opened PtrProcessing

  datatype PlotRow = PlotRow(status: Cell, platform: string, percentage: Option<real>)

  /** The rows whose OS is exactly `platform` and whose status is `v`. */
  ghost function RowsWith(rows: seq<seq<Cell>>, osJ: nat, stJ: nat, platform: string, v: Cell): set<nat>
    requires forall i :: 0 <= i < |rows| ==> osJ < |rows[i]| && stJ < |rows[i]|
  {
    set i: nat | i < |rows| && rows[i][osJ] == Str(platform) && rows[i][stJ] == v
  }

  /** The rows whose OS is exactly `platform` and whose status is filled. */
  ghost function RowsWithStatus(rows: seq<seq<Cell>>, osJ: nat, stJ: nat, platform: string): set<nat>
    requires forall i :: 0 <= i < |rows| ==> osJ < |rows[i]| && stJ < |rows[i]|
  {
    set i: nat | i < |rows| && rows[i][osJ] == Str(platform) && rows[i][stJ] != Empty
  }

  /** The rows with status `v` grow by the last row exactly when it
      qualifies. */
  lemma RowsWithLast(rows: seq<seq<Cell>>, osJ: nat, stJ: nat, platform: string, v: Cell)
    requires |rows| > 0
    requires forall i :: 0 <= i < |rows| ==> osJ < |rows[i]| && stJ < |rows[i]|
    ensures var n := |rows| - 1;
      |RowsWith(rows, osJ, stJ, platform, v)| == |RowsWith(rows[..n], osJ, stJ, platform, v)|
        + (if rows[n][osJ] == Str(platform) && rows[n][stJ] == v then 1 else 0)
  {
    var n := |rows| - 1;
    var a, b := RowsWith(rows[..n], osJ, stJ, platform, v), RowsWith(rows, osJ, stJ, platform, v);
    assert forall i :: i in a <==> i in b && i < n;
    if rows[n][osJ] == Str(platform) && rows[n][stJ] == v {
      assert b == a + {n};
    } else {
      assert b == a;
    }
  }

  /** The rows with a filled status grow by the last row exactly when it
      qualifies. */
  lemma RowsWithStatusLast(rows: seq<seq<Cell>>, osJ: nat, stJ: nat, platform: string)
    requires |rows| > 0
    requires forall i :: 0 <= i < |rows| ==> osJ < |rows[i]| && stJ < |rows[i]|
    ensures var n := |rows| - 1;
      |RowsWithStatus(rows, osJ, stJ, platform)| == |RowsWithStatus(rows[..n], osJ, stJ, platform)|
        + (if rows[n][osJ] == Str(platform) && rows[n][stJ] != Empty then 1 else 0)
  {
    var n := |rows| - 1;
    var a, b := RowsWithStatus(rows[..n], osJ, stJ, platform), RowsWithStatus(rows, osJ, stJ, platform);
    assert forall i :: i in a <==> i in b && i < n;
    if rows[n][osJ] == Str(platform) && rows[n][stJ] != Empty {
      assert b == a + {n};
    } else {
      assert b == a;
    }
  }

  lemma CountSnoc<T>(xs: seq<T>, x: T, v: T)
    ensures Count(xs + [x], v) == Count(xs, v) + (if x == v then 1 else 0)
  {
    assert (xs + [x])[..|xs|] == xs;
  }

  /** Appending the last row's status, when it qualifies, keeps the counts
      in step with the row sets. */
  lemma CountsStep(rows: seq<seq<Cell>>, osJ: nat, stJ: nat, platform: string, xs: seq<Cell>)
    requires |rows| > 0
    requires forall i :: 0 <= i < |rows| ==> osJ < |rows[i]| && stJ < |rows[i]|
    requires forall v :: v != Empty ==> Count(xs, v) == |RowsWith(rows[..|rows| - 1], osJ, stJ, platform, v)|
    requires |xs| == |RowsWithStatus(rows[..|rows| - 1], osJ, stJ, platform)|
    ensures var last := rows[|rows| - 1];
      var r := if last[osJ] == Str(platform) && last[stJ] != Empty then xs + [last[stJ]] else xs;
      && (forall v :: v != Empty ==> Count(r, v) == |RowsWith(rows, osJ, stJ, platform, v)|)
      && |r| == |RowsWithStatus(rows, osJ, stJ, platform)|
  {
    var last := rows[|rows| - 1];
    var r := if last[osJ] == Str(platform) && last[stJ] != Empty then xs + [last[stJ]] else xs;
    forall v | v != Empty ensures Count(r, v) == |RowsWith(rows, osJ, stJ, platform, v)| {
      RowsWithLast(rows, osJ, stJ, platform, v);
      CountSnoc(xs, last[stJ], v);
    }
    RowsWithStatusLast(rows, osJ, stJ, platform);
  }

  /** The non-empty status cells of the rows whose OS is exactly `platform`,
      in row order: what `value_counts` counts (it drops NaN). Each status
      occurs once per row holding it. */
  function PlatformStatuses(rows: seq<seq<Cell>>, osJ: nat, stJ: nat, platform: string): (xs: seq<Cell>)
    requires forall i :: 0 <= i < |rows| ==> osJ < |rows[i]| && stJ < |rows[i]|
    ensures forall k :: 0 <= k < |xs| ==> xs[k] != Empty
    ensures forall v :: v in xs <==> exists i :: 0 <= i < |rows| && rows[i][osJ] == Str(platform) && rows[i][stJ] == v && v != Empty
    ensures forall v :: v != Empty ==> Count(xs, v) == |RowsWith(rows, osJ, stJ, platform, v)|
    ensures |xs| == |RowsWithStatus(rows, osJ, stJ, platform)|
  {
    if rows == [] then
      assert RowsWithStatus(rows, osJ, stJ, platform) == {};
      assert forall v :: RowsWith(rows, osJ, stJ, platform, v) == {};
      []
    else
      var init := rows[..|rows| - 1];
      var last := rows[|rows| - 1];
      var xs := PlatformStatuses(init, osJ, stJ, platform);
      assert forall i :: 0 <= i < |init| ==> init[i] == rows[i];
      CountsStep(rows, osJ, stJ, platform, xs);
      if last[osJ] == Str(platform) && last[stJ] != Empty then xs + [last[stJ]] else xs
  }

  /** A status's percentage among `xs`: NaN (None) when it does not occur. */
  function Share(xs: seq<Cell>, s: Cell): (p: Option<real>)
    ensures p.None? <==> s !in xs
    ensures p.Some? ==> 0.0 < p.value <= 100.0
  {
    if s in xs then
      var n := |xs| as real;
      var c := Count(xs, s) as real;
      assert 0.0 < c <= n;
      assert 100.0 * c / n <= 100.0 by {
        assert 100.0 * c <= 100.0 * n;
      }
      Some(100.0 * c / n)
    else None
  }

  /** One platform's column of the long-form result. */
  function ShareRows(keys: seq<Cell>, xs: seq<Cell>, platform: string): (r: seq<PlotRow>)
    ensures |r| == |keys|
    ensures forall k :: 0 <= k < |keys| ==> r[k] == PlotRow(keys[k], platform, Share(xs, keys[k]))
  {
    if keys == [] then [] else [PlotRow(keys[0], platform, Share(xs, keys[0]))] + ShareRows(keys[1..], xs, platform)
  }

  /** The sum of the percentages of `rows`, NaN counting as nothing. */
  function SumPercent(rows: seq<PlotRow>): real {
    if rows == [] then 0.0
    else (match rows[0].percentage case Some(v) => v case None => 0.0) + SumPercent(rows[1..])
  }

  /** The percentage of a status, NaN read as 0. */
  function ShareOrZero(xs: seq<Cell>, s: Cell): real {
    match Share(xs, s) case Some(v) => v case None => 0.0
  }

  lemma ShareOrZeroValue(xs: seq<Cell>, s: Cell)
    requires |xs| > 0
    ensures ShareOrZero(xs, s) == 100.0 * (Count(xs, s) as real) / (|xs| as real)
  {
  }

  lemma AddFractions(a: real, b: real, n: real, c0: nat, c1: nat)
    requires n > 0.0
    requires a == 100.0 * (c0 as real) / n && b == 100.0 * (c1 as real) / n
    ensures a + b == 100.0 * ((c0 + c1) as real) / n
  {
  }

  lemma WholeIsHundred(n: real)
    requires n > 0.0
    ensures 100.0 * n / n == 100.0
  {
  }

  lemma {:induction false} SumShareRows(keys: seq<Cell>, xs: seq<Cell>, platform: string)
    requires |xs| > 0
    ensures SumPercent(ShareRows(keys, xs, platform)) == 100.0 * (SumCounts(keys, xs) as real) / (|xs| as real)
  {
    if keys != [] {
      var n := |xs| as real;
      var r := ShareRows(keys, xs, platform);
      var tail := ShareRows(keys[1..], xs, platform);
      assert r == [r[0]] + tail;
      var a := ShareOrZero(xs, keys[0]);
      var b := SumPercent(tail);
      assert SumPercent(r) == a + b;
      ShareOrZeroValue(xs, keys[0]);
      SumShareRows(keys[1..], xs, platform);
      AddFractions(a, b, n, Count(xs, keys[0]), SumCounts(keys[1..], xs));
    }
  }

  /** Which status cells a platform's rows hold, read through the first `OS`
      and status columns. */
  ghost predicate PlatformHas(t: Table, version: string, platform: string, v: Cell)
    requires Rectangular(t) && HasColumn(t, "OS") && HasColumn(t, "Status " + version)
  {
    var osJ := ColumnIndex(t, "OS").value;
    var stJ := ColumnIndex(t, "Status " + version).value;
    v != Empty && exists i :: 0 <= i < |t.rows| && t.rows[i][osJ] == Str(platform) && t.rows[i][stJ] == v
  }

  /** The rows of a platform holding status `v`. */
  ghost function StatusRows(t: Table, version: string, platform: string, v: Cell): set<nat>
    requires Rectangular(t) && HasColumn(t, "OS") && HasColumn(t, "Status " + version)
  {
    RowsWith(t.rows, ColumnIndex(t, "OS").value, ColumnIndex(t, "Status " + version).value, platform, v)
  }

  /** The rows of a platform whose status is filled in. */
  ghost function FilledRows(t: Table, version: string, platform: string): set<nat>
    requires Rectangular(t) && HasColumn(t, "OS") && HasColumn(t, "Status " + version)
  {
    RowsWithStatus(t.rows, ColumnIndex(t, "OS").value, ColumnIndex(t, "Status " + version).value, platform)
  }

  /** The statuses `value_counts` sees for one platform, each as often as
      rows of that platform hold it. */
  function Counted(t: Table, version: string, platform: string): (xs: seq<Cell>)
    requires Rectangular(t) && HasColumn(t, "OS") && HasColumn(t, "Status " + version)
    ensures forall v :: v in xs <==> PlatformHas(t, version, platform, v)
    ensures forall v :: v != Empty ==> Count(xs, v) == |StatusRows(t, version, platform, v)|
    ensures |xs| == |FilledRows(t, version, platform)|
  {
    PlatformStatuses(t.rows, ColumnIndex(t, "OS").value, ColumnIndex(t, "Status " + version).value, platform)
  }

  /** The index of the concatenated counts: each status seen on either
      platform, once. */
  function Statuses(t: Table, version: string): (s: seq<Cell>)
    requires Rectangular(t) && HasColumn(t, "OS") && HasColumn(t, "Status " + version)
    ensures NoDup(s)
    ensures forall v :: v in s <==> PlatformHas(t, version, "Android", v) || PlatformHas(t, version, "iOS", v)
  {
    var both := Counted(t, version, "Android") + Counted(t, version, "iOS");
    var s := Dedup(both);
    assert forall v :: v in s <==> v in both by {
      forall v ensures v in s <==> v in both {
        if v in both {
          var i :| 0 <= i < |both| && both[i] == v;
        }
      }
    }
    s
  }

  /** `progress_status(df, version)`. */
  function Progress(t: Table, version: string): (r: Result<seq<PlotRow>, Failure>)
    requires Rectangular(t)
    ensures !HasColumn(t, "OS") ==> r == Err(MissingColumn("OS"))
    ensures HasColumn(t, "OS") && !HasColumn(t, "Status " + version) ==> r == Err(MissingColumn("Status " + version))
    ensures r.Ok? <==> HasColumn(t, "OS") && HasColumn(t, "Status " + version)
  {
    if !HasColumn(t, "OS") then Err(MissingColumn("OS"))
    else if !HasColumn(t, "Status " + version) then Err(MissingColumn("Status " + version))
    else
      var statuses := Statuses(t, version);
      Ok(ShareRows(statuses, Counted(t, version, "Android"), "Android")
         + ShareRows(statuses, Counted(t, version, "iOS"), "iOS"))
  }

  /** The two platform columns stacked. */
  lemma StackedShape(keys: seq<Cell>, android: seq<Cell>, ios: seq<Cell>)
    ensures var rows := ShareRows(keys, android, "Android") + ShareRows(keys, ios, "iOS");
      && |rows| == 2 * |keys|
      && (forall k :: 0 <= k < |keys| ==> rows[k] == PlotRow(keys[k], "Android", Share(android, keys[k])))
      && (forall k :: 0 <= k < |keys| ==> rows[|keys| + k] == PlotRow(keys[k], "iOS", Share(ios, keys[k])))
  {
    var a := ShareRows(keys, android, "Android");
    var b := ShareRows(keys, ios, "iOS");
    forall k | 0 <= k < |keys| ensures (a + b)[|keys| + k] == b[k] {
    }
  }

  /** What the chart row for status `v` on `platform` must say: NaN when no
      row of the platform holds `v`, else the rows holding `v` as a
      percentage of the platform's rows with a filled status. */
  ghost predicate ReportsShare(t: Table, version: string, platform: string, v: Cell, row: PlotRow)
    requires Rectangular(t) && HasColumn(t, "OS") && HasColumn(t, "Status " + version)
  {
    && row.status == v && row.platform == platform
    && (row.percentage.None? <==> !PlatformHas(t, version, platform, v))
    && (PlatformHas(t, version, platform, v) ==>
          |FilledRows(t, version, platform)| > 0
          && row.percentage == Some(100.0 * (|StatusRows(t, version, platform, v)| as real)
                                          / (|FilledRows(t, version, platform)| as real)))
  }

  /** The row `ShareRows` builds for a status says what it must. */
  lemma ShareRowReports(t: Table, version: string, platform: string, v: Cell)
    requires Rectangular(t) && HasColumn(t, "OS") && HasColumn(t, "Status " + version)
    ensures ReportsShare(t, version, platform, v, PlotRow(v, platform, Share(Counted(t, version, platform), v)))
  {
    var xs := Counted(t, version, platform);
    if PlatformHas(t, version, platform, v) {
      assert v in xs && v != Empty;
    }
  }

  /** The long-form result, status by status: row `k` is the Android row of
      the `k`-th status and row `n + k` its iOS row (`n` statuses in all),
      each with the percentage `ReportsShare` demands. */
  lemma ProgressRowsAt(t: Table, version: string, k: nat)
    requires Rectangular(t) && HasColumn(t, "OS") && HasColumn(t, "Status " + version)
    requires k < |Statuses(t, version)|
    ensures |Progress(t, version).value| == 2 * |Statuses(t, version)|
    ensures ReportsShare(t, version, "Android", Statuses(t, version)[k], Progress(t, version).value[k])
    ensures ReportsShare(t, version, "iOS", Statuses(t, version)[k], Progress(t, version).value[|Statuses(t, version)| + k])
  {
    var s := Statuses(t, version);
    var android := Counted(t, version, "Android");
    var ios := Counted(t, version, "iOS");
    var rows := Progress(t, version).value;
    assert rows == ShareRows(s, android, "Android") + ShareRows(s, ios, "iOS");
    StackedShape(s, android, ios);
    assert rows[k] == PlotRow(s[k], "Android", Share(android, s[k]));
    assert rows[|s| + k] == PlotRow(s[k], "iOS", Share(ios, s[k]));
    ShareRowReports(t, version, "Android", s[k]);
    ShareRowReports(t, version, "iOS", s[k]);
  }

  lemma SharesOfAllKeysSumTo100(keys: seq<Cell>, xs: seq<Cell>, platform: string)
    requires |xs| > 0 && NoDup(keys)
    requires forall v :: v in xs ==> v in keys
    ensures SumPercent(ShareRows(keys, xs, platform)) == 100.0
  {
    SumShareRows(keys, xs, platform);
    SumCountsCoversAll(keys, xs);
    var m := |xs| as real;
    assert SumPercent(ShareRows(keys, xs, platform)) == 100.0 * m / m;
    WholeIsHundred(m);
  }

  /** A platform with at least one status counted has percentages adding up
      to exactly 100 (before the two-decimal rounding). */
  lemma PercentagesSumTo100(t: Table, version: string, platform: string)
    requires Rectangular(t) && HasColumn(t, "OS") && HasColumn(t, "Status " + version)
    requires platform == "Android" || platform == "iOS"
    requires exists v :: PlatformHas(t, version, platform, v)
    ensures var rows := Progress(t, version).value;
      var n := |Statuses(t, version)|;
      SumPercent(if platform == "Android" then rows[..n] else rows[n..]) == 100.0
  {
    var s := Statuses(t, version);
    var xs := Counted(t, version, platform);
    var rows := Progress(t, version).value;
    var n := |s|;
    var part := if platform == "Android" then rows[..n] else rows[n..];
    assert part == ShareRows(s, xs, platform);
    var v :| PlatformHas(t, version, platform, v);
    assert v in xs;
    SharesOfAllKeysSumTo100(s, xs, platform);
  }
}
