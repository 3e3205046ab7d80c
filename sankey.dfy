/** The Sankey block of the PTR page: from the normalised table and the
    chosen version it builds the node list, the feature -> (sub-feature ->)
    status -> OS links, the incoming/outgoing tallies, the node and link
    colours and the shortened node labels. */
module SankeyFlow {
  import opened Wrappers
  import opened Seqs
  import opened Sheet

  /** The one message the page shows when any step of the block raises. */
  datatype Failure = FormatNotRecognised

  // ---------------------------------------------------------------------
  // Colours

  /** An RGB triple, or the entry of the 24-colour qualitative palette at
      an index (the palette's hex codes are not part of the model). */
  datatype Rgb = Fixed(r: nat, g: nat, b: nat) | PaletteEntry(index: nat)

  /** A colour string: `rgba(r, g, b, a)` or a hex code. */
  datatype Color = Rgba(rgb: Rgb, alpha: real) | Hex(code: string)

  const PaletteSize: nat := 24
  // The page writes the same grey literal twice: once for sub-features and
  // once as the default of nodes without a colour.
  const SubFeatureGray := Rgba(Fixed(200, 200, 200), 0.8)
  const DefaultGray := Rgba(Fixed(200, 200, 200), 0.8)
  const PassedGreen := Rgba(Fixed(144, 238, 144), 0.8)
  const FailedRed := Rgba(Fixed(205, 92, 92), 0.8)
  const AndroidGreen := Hex("#71BC68")
  const IosBlue := Rgba(Fixed(70, 130, 180), 0.8)
  const LinkGray := Rgba(Fixed(192, 192, 192), 0.3)

  function PaletteColor(i: nat): Color {
    Rgba(PaletteEntry(i % PaletteSize), 1.0)
  }

  // ---------------------------------------------------------------------
  // Rows and flows

  /** The four cells of a row the links are drawn from. */
  datatype FlowRow = FlowRow(primary: Cell, sub: Cell, status: Cell, os: Cell)

  /** One link, by the values of its two end nodes. */
  datatype Flow = Flow(source: Cell, target: Cell)

  predicate IsPassed(status: Cell) {
    status == Str("Passed")
  }

  /** The four statuses drawn through the sub-feature. */
  predicate IsRouted(status: Cell) {
    status in {Str("Failed"), Str("N/A"), Str("In Progress"), Str("Not Started")}
  }

  /** The links one row contributes. */
  function RowFlows(row: FlowRow): (fs: seq<Flow>)
    ensures IsPassed(row.status) ==> fs == [Flow(row.primary, row.status), Flow(row.status, row.os)]
    ensures IsRouted(row.status) ==>
      fs == [Flow(row.primary, row.sub), Flow(row.sub, row.status), Flow(row.status, row.os)]
    ensures !IsPassed(row.status) && !IsRouted(row.status) ==> fs == []
  {
    if IsPassed(row.status) then [Flow(row.primary, row.status), Flow(row.status, row.os)]
    else if IsRouted(row.status) then [Flow(row.primary, row.sub), Flow(row.sub, row.status), Flow(row.status, row.os)]
    else []
  }

  /** All links, row by row. */
  function Flows(rows: seq<FlowRow>): seq<Flow> {
    if rows == [] then [] else Flows(rows[..|rows| - 1]) + RowFlows(rows[|rows| - 1])
  }

  function CountPassed(rows: seq<FlowRow>): nat {
    if rows == [] then 0 else CountPassed(rows[..|rows| - 1]) + (if IsPassed(rows[|rows| - 1].status) then 1 else 0)
  }

  function CountRouted(rows: seq<FlowRow>): nat {
    if rows == [] then 0 else CountRouted(rows[..|rows| - 1]) + (if IsRouted(rows[|rows| - 1].status) then 1 else 0)
  }

  /** Two links per "Passed" row, three per row with one of the four
      routed statuses, none for any other status. */
  lemma {:induction false} FlowCount(rows: seq<FlowRow>)
    ensures |Flows(rows)| == 2 * CountPassed(rows) + 3 * CountRouted(rows)
  {
    if rows != [] {
      FlowCount(rows[..|rows| - 1]);
    }
  }

  /** Every cell a row's links touch. */
  predicate RowInNodes(row: FlowRow, nodes: seq<Cell>) {
    row.primary in nodes && row.sub in nodes && row.status in nodes && row.os in nodes
  }

  /** `sources[k]` and `targets[k]` are the indices `nodes.index` gives for
      the two ends of link `k` of `flows`. */
  predicate Linked(nodes: seq<Cell>, sources: seq<nat>, targets: seq<nat>, flows: seq<Flow>) {
    && |sources| == |targets| == |flows|
    && forall k :: 0 <= k < |flows| ==>
         sources[k] < |nodes| && targets[k] < |nodes| && Flow(nodes[sources[k]], nodes[targets[k]]) == flows[k]
         && sources[k] == FirstIndex(nodes, flows[k].source) && targets[k] == FirstIndex(nodes, flows[k].target)
  }

  lemma LinkedAppend(nodes: seq<Cell>, s1: seq<nat>, t1: seq<nat>, f1: seq<Flow>, s2: seq<nat>, t2: seq<nat>, f2: seq<Flow>)
    requires Linked(nodes, s1, t1, f1) && Linked(nodes, s2, t2, f2)
    ensures Linked(nodes, s1 + s2, t1 + t2, f1 + f2)
  {
    forall k | |f1| <= k < |f1| + |f2|
      ensures (s1 + s2)[k] == s2[k - |f1|] && (t1 + t2)[k] == t2[k - |f1|] && (f1 + f2)[k] == f2[k - |f1|]
    {
    }
  }

  lemma FlowsStep(rows: seq<FlowRow>, i: nat)
    requires i < |rows|
    ensures Flows(rows[..i + 1]) == Flows(rows[..i]) + RowFlows(rows[i])
  {
    assert rows[..i + 1][..i] == rows[..i];
  }

  /** The links of one row, as `nodes.index` of each end. */
  method RowLinks(nodes: seq<Cell>, row: FlowRow) returns (s: seq<nat>, t: seq<nat>)
    requires RowInNodes(row, nodes)
    ensures Linked(nodes, s, t, RowFlows(row))
  {
    if IsPassed(row.status) {
      s := [FirstIndex(nodes, row.primary), FirstIndex(nodes, row.status)];
      t := [FirstIndex(nodes, row.status), FirstIndex(nodes, row.os)];
    } else if IsRouted(row.status) {
      s := [FirstIndex(nodes, row.primary), FirstIndex(nodes, row.sub), FirstIndex(nodes, row.status)];
      t := [FirstIndex(nodes, row.sub), FirstIndex(nodes, row.status), FirstIndex(nodes, row.os)];
    } else {
      s, t := [], [];
    }
  }

  /** The row loop: the links of each row appended in order. */
  method BuildLinks(nodes: seq<Cell>, rows: seq<FlowRow>) returns (sources: seq<nat>, targets: seq<nat>)
    requires forall i :: 0 <= i < |rows| ==> RowInNodes(rows[i], nodes)
    ensures Linked(nodes, sources, targets, Flows(rows))
  {
    sources, targets := [], [];
    var i := 0;
    while i < |rows|
      invariant 0 <= i <= |rows|
      invariant Linked(nodes, sources, targets, Flows(rows[..i]))
    {
      var s2, t2 := RowLinks(nodes, rows[i]);
      LinkedAppend(nodes, sources, targets, Flows(rows[..i]), s2, t2, RowFlows(rows[i]));
      FlowsStep(rows, i);
      sources, targets := sources + s2, targets + t2;
      i := i + 1;
    }
    assert rows[..|rows|] == rows;
  }

  // ---------------------------------------------------------------------
  // Tallies

  /** `m` holds, for every node, how many of `ends` point at it. */
  predicate Tallied(m: map<Cell, nat>, nodes: seq<Cell>, ends: seq<nat>) {
    forall j: nat :: j < |nodes| ==> nodes[j] in m && m[nodes[j]] == Count(ends, j)
  }

  /** `m` is keyed by exactly the nodes. */
  ghost predicate KeyedBy(m: map<Cell, nat>, nodes: seq<Cell>) {
    forall v :: v in m <==> v in nodes
  }

  lemma TallyStart(nodes: seq<Cell>, ends: seq<nat>)
    ensures KeyedBy(map v | v in nodes :: 0, nodes)
    ensures Tallied(map v | v in nodes :: 0, nodes, ends[..0])
  {
  }

  /** Counting link `e` adds one to the node it points at. */
  lemma TallyStep(m: map<Cell, nat>, nodes: seq<Cell>, ends: seq<nat>, e: nat)
    requires NoDup(nodes) && e < |ends| && ends[e] < |nodes|
    requires KeyedBy(m, nodes) && Tallied(m, nodes, ends[..e])
    ensures KeyedBy(m[nodes[ends[e]] := m[nodes[ends[e]]] + 1], nodes)
    ensures Tallied(m[nodes[ends[e]] := m[nodes[ends[e]]] + 1], nodes, ends[..e + 1])
  {
    var x := ends[e];
    var m' := m[nodes[x] := m[nodes[x]] + 1];
    assert ends[..e + 1][..e] == ends[..e];
    forall j: nat | j < |nodes|
      ensures nodes[j] in m' && m'[nodes[j]] == Count(ends[..e + 1], j)
    {
      assert Count(ends[..e + 1], j) == Count(ends[..e], j) + (if x == j then 1 else 0);
    }
  }

  /** The incoming and outgoing counts of every node, as the dictionaries
      keyed by node value hold them. */
  method Tally(nodes: seq<Cell>, sources: seq<nat>, targets: seq<nat>)
    returns (incoming: map<Cell, nat>, outgoing: map<Cell, nat>)
    requires NoDup(nodes) && |sources| == |targets|
    requires forall k :: 0 <= k < |sources| ==> sources[k] < |nodes| && targets[k] < |nodes|
    ensures KeyedBy(incoming, nodes) && KeyedBy(outgoing, nodes)
    ensures Tallied(incoming, nodes, targets) && Tallied(outgoing, nodes, sources)
  {
    incoming := map v | v in nodes :: 0;
    outgoing := map v | v in nodes :: 0;
    TallyStart(nodes, sources);
    TallyStart(nodes, targets);
    var e := 0;
    while e < |sources|
      invariant 0 <= e <= |sources|
      invariant KeyedBy(incoming, nodes) && KeyedBy(outgoing, nodes)
      invariant Tallied(incoming, nodes, targets[..e]) && Tallied(outgoing, nodes, sources[..e])
    {
      var source, target := nodes[sources[e]], nodes[targets[e]];
      TallyStep(outgoing, nodes, sources, e);
      outgoing := outgoing[source := outgoing[source] + 1];
      TallyStep(incoming, nodes, targets, e);
      incoming := incoming[target := incoming[target] + 1];
      e := e + 1;
    }
    assert sources[..|sources|] == sources;
    assert targets[..|targets|] == targets;
  }

  /** The sum of a tally over the nodes `lo`, ..., `|nodes| - 1`. */
  function TallySum(m: map<Cell, nat>, nodes: seq<Cell>, lo: nat): nat
    requires lo <= |nodes|
    requires forall j :: 0 <= j < |nodes| ==> nodes[j] in m
    decreases |nodes| - lo
  {
    if lo == |nodes| then 0 else m[nodes[lo]] + TallySum(m, nodes, lo + 1)
  }

  lemma {:induction false} TallySumIsCountSum(m: map<Cell, nat>, nodes: seq<Cell>, ends: seq<nat>, lo: nat)
    requires lo <= |nodes|
    requires Tallied(m, nodes, ends)
    ensures TallySum(m, nodes, lo) == SumCounts(Range(lo, |nodes|), ends)
    decreases |nodes| - lo
  {
    if lo < |nodes| {
      var keys := Range(lo, |nodes|);
      assert keys[0] == lo;
      assert keys[1..] == Range(lo + 1, |nodes|);
      TallySumIsCountSum(m, nodes, ends, lo + 1);
      assert SumCounts(keys, ends) == Count(ends, lo) + SumCounts(keys[1..], ends);
    }
  }

  /** Each link is counted once among the targets' incoming numbers (and,
      alike, once among the sources' outgoing numbers). */
  lemma TallyTotal(m: map<Cell, nat>, nodes: seq<Cell>, ends: seq<nat>)
    requires forall k :: 0 <= k < |ends| ==> ends[k] < |nodes|
    requires Tallied(m, nodes, ends)
    ensures TallySum(m, nodes, 0) == |ends|
  {
    TallySumIsCountSum(m, nodes, ends, 0);
    var keys := Range(0, |nodes|);
    assert forall v :: v in ends ==> v in keys by {
      forall v | v in ends ensures v in keys {
        assert keys[v] == v;
      }
    }
    SumCountsCoversAll(keys, ends);
  }

  // ---------------------------------------------------------------------
  // Node colours

  function Primaries(rows: seq<FlowRow>): (ps: seq<Cell>)
    ensures |ps| == |rows| && forall j :: 0 <= j < |rows| ==> ps[j] == rows[j].primary
  {
    seq(|rows|, j requires 0 <= j < |rows| => rows[j].primary)
  }

  /** The sub-features of the rows whose primary value equals `pv` under
      pandas' `==` (so nothing for NaN). */
  function SubsOf(rows: seq<FlowRow>, pv: Cell): (subs: seq<Cell>)
    ensures forall v :: v in subs <==> exists j :: 0 <= j < |rows| && CellEquals(rows[j].primary, pv) && rows[j].sub == v
  {
    if rows == [] then []
    else
      var init := rows[..|rows| - 1];
      var last := rows[|rows| - 1];
      assert forall j :: 0 <= j < |init| ==> init[j] == rows[j];
      SubsOf(init, pv) + (if CellEquals(last.primary, pv) then [last.sub] else [])
  }

  /** A sub-feature of some row whose primary value is not NaN. */
  ghost predicate Grayed(rows: seq<FlowRow>, v: Cell) {
    exists j :: 0 <= j < |rows| && rows[j].primary != Empty && rows[j].sub == v
  }

  /** The colour the dictionary ends up holding for a value, if any: the
      four fixed colours first, then grey for sub-features, then the
      palette entry of the value's first-seen rank among primary values. */
  ghost function NodeColor(rows: seq<FlowRow>, v: Cell): Option<Color> {
    if v == Str("Passed") then Some(PassedGreen)
    else if v == Str("Failed") then Some(FailedRed)
    else if v == Str("Android") then Some(AndroidGreen)
    else if v == Str("iOS") then Some(IosBlue)
    else if Grayed(rows, v) then Some(SubFeatureGray)
    else if v in Primaries(rows) then Some(PaletteColor(FirstIndex(Dedup(Primaries(rows)), v)))
    else None
  }

  /** The sub-features grey-listed by the first `i` distinct primary values. */
  function Grays(rows: seq<FlowRow>, uniques: seq<Cell>, i: nat): seq<Cell>
    requires i <= |uniques|
  {
    if i == 0 then [] else Grays(rows, uniques, i - 1) + SubsOf(rows, uniques[i - 1])
  }

  lemma {:induction false} GraysMember(rows: seq<FlowRow>, uniques: seq<Cell>, i: nat, v: Cell)
    requires i <= |uniques|
    ensures v in Grays(rows, uniques, i) <==> exists m :: 0 <= m < i && v in SubsOf(rows, uniques[m])
  {
    if i > 0 {
      GraysMember(rows, uniques, i - 1, v);
    }
  }

  /** Greying the sub-features of every distinct primary value greys
      exactly the sub-features of the rows with a non-NaN primary value. */
  lemma GraysAll(rows: seq<FlowRow>, v: Cell)
    ensures var uniques := Dedup(Primaries(rows));
      v in Grays(rows, uniques, |uniques|) <==> Grayed(rows, v)
  {
    var uniques := Dedup(Primaries(rows));
    GraysMember(rows, uniques, |uniques|, v);
    if Grayed(rows, v) {
      var j :| 0 <= j < |rows| && rows[j].primary != Empty && rows[j].sub == v;
      assert Primaries(rows)[j] == rows[j].primary;
      var m :| 0 <= m < |uniques| && uniques[m] == rows[j].primary;
      assert v in SubsOf(rows, uniques[m]);
    }
  }

  /** The palette loop: the i-th distinct primary value gets palette entry i. */
  ghost predicate Paletted(colors: map<Cell, Color>, uniques: seq<Cell>, i: nat)
    requires i <= |uniques| && NoDup(uniques)
  {
    && (forall v :: v in colors <==> v in uniques[..i])
    && (forall v :: v in colors ==> v in uniques && colors[v] == PaletteColor(FirstIndex(uniques, v)))
  }

  /** The grey loop after `i` primary values: palette colours, with the
      sub-features seen so far in grey. */
  ghost predicate GrayedUpTo(colors: map<Cell, Color>, rows: seq<FlowRow>, uniques: seq<Cell>, i: nat)
    requires i <= |uniques|
  {
    var grays := Grays(rows, uniques, i);
    && (forall v :: v in colors <==> v in uniques || v in grays)
    && (forall v :: v in colors ==>
          colors[v] == if v in grays then SubFeatureGray else PaletteColor(FirstIndex(uniques, v)))
  }

  /** The first loop: palette entry `i` for the i-th distinct primary value. */
  method PaletteColors(uniques: seq<Cell>) returns (colors: map<Cell, Color>)
    requires NoDup(uniques)
    ensures Paletted(colors, uniques, |uniques|)
  {
    colors := map[];
    var i := 0;
    while i < |uniques|
      invariant 0 <= i <= |uniques|
      invariant Paletted(colors, uniques, i)
    {
      FirstIndexNoDup(uniques, i);
      assert uniques[..i + 1] == uniques[..i] + [uniques[i]];
      colors := colors[uniques[i] := PaletteColor(i)];
      i := i + 1;
    }
  }

  /** The inner loop: every listed value becomes grey, the rest is kept. */
  method PaintGray(colors: map<Cell, Color>, subs: seq<Cell>) returns (out: map<Cell, Color>)
    ensures forall v :: v in out <==> v in colors || v in subs
    ensures forall v :: v in out ==> out[v] == if v in subs then SubFeatureGray else colors[v]
  {
    out := colors;
    var k := 0;
    while k < |subs|
      invariant 0 <= k <= |subs|
      invariant forall v :: v in out <==> v in colors || v in subs[..k]
      invariant forall v :: v in out ==> out[v] == if v in subs[..k] then SubFeatureGray else colors[v]
    {
      assert subs[..k + 1] == subs[..k] + [subs[k]];
      out := out[subs[k] := SubFeatureGray];
      k := k + 1;
    }
    assert subs[..|subs|] == subs;
  }

  /** The second loop: grey for the sub-features of each distinct primary
      value, in turn. */
  method GraySubFeatures(rows: seq<FlowRow>, uniques: seq<Cell>, palette: map<Cell, Color>)
    returns (colors: map<Cell, Color>)
    requires NoDup(uniques) && Paletted(palette, uniques, |uniques|)
    ensures GrayedUpTo(colors, rows, uniques, |uniques|)
  {
    assert uniques[..|uniques|] == uniques;
    colors := palette;
    var i := 0;
    while i < |uniques|
      invariant 0 <= i <= |uniques|
      invariant GrayedUpTo(colors, rows, uniques, i)
    {
      var subs := SubsOf(rows, uniques[i]);
      var painted := PaintGray(colors, subs);
      GrayStep(rows, uniques, i, colors, painted);
      colors := painted;
      i := i + 1;
    }
  }

  lemma GrayStep(rows: seq<FlowRow>, uniques: seq<Cell>, i: nat, before: map<Cell, Color>, after: map<Cell, Color>)
    requires i < |uniques| && GrayedUpTo(before, rows, uniques, i)
    requires var subs := SubsOf(rows, uniques[i]);
      && (forall v :: v in after <==> v in before || v in subs)
      && (forall v :: v in after ==> after[v] == if v in subs then SubFeatureGray else before[v])
    ensures GrayedUpTo(after, rows, uniques, i + 1)
  {
    var subs := SubsOf(rows, uniques[i]);
    var grays := Grays(rows, uniques, i);
    assert Grays(rows, uniques, i + 1) == grays + subs;
    forall v ensures v in grays + subs <==> v in grays || v in subs {
    }
  }

  /** The dictionary after the four fixed colours are written. */
  function WithFixedColors(m: map<Cell, Color>): map<Cell, Color> {
    m[Str("Passed") := PassedGreen][Str("Failed") := FailedRed][Str("Android") := AndroidGreen][Str("iOS") := IosBlue]
  }

  /** What the grey loop leaves for one value, in terms of the rows. */
  lemma GrayedColorAt(rows: seq<FlowRow>, grayed: map<Cell, Color>, v: Cell)
    requires GrayedUpTo(grayed, rows, Dedup(Primaries(rows)), |Dedup(Primaries(rows))|)
    ensures v in grayed <==> Grayed(rows, v) || v in Primaries(rows)
    ensures v in grayed ==> (grayed[v] ==
      if Grayed(rows, v) then SubFeatureGray else PaletteColor(FirstIndex(Dedup(Primaries(rows)), v)))
  {
    var uniques := Dedup(Primaries(rows));
    GraysAll(rows, v);
    DedupSameValues(Primaries(rows), v);
  }

  lemma FinalColorAt(rows: seq<FlowRow>, grayed: map<Cell, Color>, v: Cell)
    requires GrayedUpTo(grayed, rows, Dedup(Primaries(rows)), |Dedup(Primaries(rows))|)
    ensures v in WithFixedColors(grayed) <==> NodeColor(rows, v).Some?
    ensures v in WithFixedColors(grayed) ==> WithFixedColors(grayed)[v] == NodeColor(rows, v).value
  {
    if v !in {Str("Passed"), Str("Failed"), Str("Android"), Str("iOS")} {
      var colors := WithFixedColors(grayed);
      assert v in colors <==> v in grayed;
      assert v in colors ==> colors[v] == grayed[v];
      GrayedColorAt(rows, grayed, v);
    }
  }

  lemma FinalColors(rows: seq<FlowRow>, grayed: map<Cell, Color>)
    requires GrayedUpTo(grayed, rows, Dedup(Primaries(rows)), |Dedup(Primaries(rows))|)
    ensures forall v :: v in WithFixedColors(grayed) <==> NodeColor(rows, v).Some?
    ensures forall v :: v in WithFixedColors(grayed) ==> WithFixedColors(grayed)[v] == NodeColor(rows, v).value
  {
    forall v ensures v in WithFixedColors(grayed) <==> NodeColor(rows, v).Some?
      ensures v in WithFixedColors(grayed) ==> WithFixedColors(grayed)[v] == NodeColor(rows, v).value
    {
      FinalColorAt(rows, grayed, v);
    }
  }

  /** The colour dictionary: palette colours for the primary values in
      first-seen order, grey for their sub-features, then the four fixed
      colours. */
  method AssignNodeColors(rows: seq<FlowRow>) returns (colors: map<Cell, Color>)
    ensures forall v :: v in colors <==> NodeColor(rows, v).Some?
    ensures forall v :: v in colors ==> colors[v] == NodeColor(rows, v).value
  {
    var uniques := Dedup(Primaries(rows));
    var palette := PaletteColors(uniques);
    var grayed := GraySubFeatures(rows, uniques, palette);
    colors := grayed[Str("Passed") := PassedGreen];
    colors := colors[Str("Failed") := FailedRed];
    colors := colors[Str("Android") := AndroidGreen];
    colors := colors[Str("iOS") := IosBlue];
    FinalColors(rows, grayed);
  }

  /** The i-th distinct primary value, in first-seen order, is coloured
      with palette entry i mod 24 unless it is a grey sub-feature or one of
      the four fixed values. */
  lemma PaletteByFirstSeen(rows: seq<FlowRow>, i: nat)
    requires i < |Dedup(Primaries(rows))|
    requires var v := Dedup(Primaries(rows))[i];
      v !in {Str("Passed"), Str("Failed"), Str("Android"), Str("iOS")} && !Grayed(rows, v)
    ensures NodeColor(rows, Dedup(Primaries(rows))[i]) == Some(Rgba(PaletteEntry(i % PaletteSize), 1.0))
  {
    FirstIndexNoDup(Dedup(Primaries(rows)), i);
  }

  /** `node_colors.get(node, default_color)` for every node. */
  function NodeColorList(nodes: seq<Cell>, colors: map<Cell, Color>): (cs: seq<Color>)
    ensures |cs| == |nodes|
    ensures forall k :: 0 <= k < |nodes| ==> cs[k] == if nodes[k] in colors then colors[nodes[k]] else DefaultGray
  {
    seq(|nodes|, k requires 0 <= k < |nodes| => if nodes[k] in colors then colors[nodes[k]] else DefaultGray)
  }

  // ---------------------------------------------------------------------
  // Link colours

  /** A link's colour from its source node's colour: the same RGB at alpha
      0.3 when the colour is an `rgba(...)` string (four components),
      otherwise, and for a source without a colour, light grey. */
  function LinkColor(colors: map<Cell, Color>, source: Cell): (c: Color)
    ensures c.Rgba? && c.alpha == 0.3
    ensures source in colors && colors[source].Rgba? ==> c.rgb == colors[source].rgb
    ensures source in colors && colors[source].Hex? ==> c == LinkGray
    ensures source !in colors ==> c == LinkGray
  {
    var sc := if source in colors then colors[source] else LinkGray;
    match sc
    case Rgba(rgb, _) => Rgba(rgb, 0.3)
    case Hex(_) => LinkGray
  }

  method LinkColors(nodes: seq<Cell>, sources: seq<nat>, colors: map<Cell, Color>) returns (links: seq<Color>)
    requires forall k :: 0 <= k < |sources| ==> sources[k] < |nodes|
    ensures |links| == |sources|
    ensures forall k :: 0 <= k < |sources| ==> links[k] == LinkColor(colors, nodes[sources[k]])
  {
    links := [];
    var e := 0;
    while e < |sources|
      invariant 0 <= e <= |sources|
      invariant |links| == e
      invariant forall k :: 0 <= k < e ==> links[k] == LinkColor(colors, nodes[sources[k]])
    {
      links := links + [LinkColor(colors, nodes[sources[e]])];
      e := e + 1;
    }
  }

  // ---------------------------------------------------------------------
  // Labels

  const LabelLimit: nat := 30

  /** A node's short label: a string longer than 30 characters is cut to
      its first 30 followed by "..."; anything else is its text. */
  function ShortLabel(c: Cell): (r: string)
    ensures c.Str? && |c.s| > LabelLimit ==> |r| == LabelLimit + 3 && r[..LabelLimit] == c.s[..LabelLimit] && r[LabelLimit..] == "..."
    ensures !(c.Str? && |c.s| > LabelLimit) ==> r == CellText(c)
    ensures c.Str? ==> |r| <= LabelLimit + 3
  {
    if c.Str? && |c.s| > LabelLimit then c.s[..LabelLimit] + "..." else CellText(c)
  }

  // ---------------------------------------------------------------------
  // The whole block

  datatype Sankey = Sankey(
    nodes: seq<Cell>,
    labels: seq<string>,
    sources: seq<nat>,
    targets: seq<nat>,
    values: seq<int>,
    incoming: map<Cell, nat>,
    outgoing: map<Cell, nat>,
    nodeColors: seq<Color>,
    linkColors: seq<Color>)

  /** `Link JIRA` when the table has it, otherwise `Features`. */
  function PrimaryColumn(t: Table): string {
    if HasColumn(t, "Link JIRA") then "Link JIRA" else "Features"
  }

  /** The six columns whose values become nodes, in the order they are
      concatenated. */
  function NodeColumns(t: Table, version: string): seq<string> {
    [PrimaryColumn(t), "Sub-features", "OS", "OS Version", "Tipe Device HP", "Status " + version]
  }

  predicate HasAll(t: Table, names: seq<string>) {
    forall k :: 0 <= k < |names| ==> HasColumn(t, names[k])
  }

  /** The cells of the first column called `name`. */
  function Named(t: Table, name: string): (col: seq<Cell>)
    requires Rectangular(t) && HasColumn(t, name)
    ensures |col| == |t.rows|
  {
    Column(t, ColumnIndex(t, name).value)
  }

  /** The concatenated node columns. */
  function NodeValues(t: Table, version: string): seq<Cell>
    requires Rectangular(t) && HasAll(t, NodeColumns(t, version))
  {
    var names := NodeColumns(t, version);
    assert HasColumn(t, names[0]) && HasColumn(t, names[1]) && HasColumn(t, names[2]);
    assert HasColumn(t, names[3]) && HasColumn(t, names[4]) && HasColumn(t, names[5]);
    Named(t, names[0]) + Named(t, names[1]) + Named(t, names[2])
      + Named(t, names[3]) + Named(t, names[4]) + Named(t, names[5])
  }

  /** The flow cells of every row. */
  function FlowRows(t: Table, version: string): (rows: seq<FlowRow>)
    requires Rectangular(t) && HasAll(t, NodeColumns(t, version))
    ensures |rows| == |t.rows|
  {
    var names := NodeColumns(t, version);
    assert HasColumn(t, names[0]) && HasColumn(t, names[1]) && HasColumn(t, names[2]) && HasColumn(t, names[5]);
    var p, s, st, os := Named(t, names[0]), Named(t, names[1]), Named(t, names[5]), Named(t, names[2]);
    seq(|t.rows|, i requires 0 <= i < |t.rows| => FlowRow(p[i], s[i], st[i], os[i]))
  }

  lemma FlowRowsInNodes(t: Table, version: string, nodes: seq<Cell>)
    requires Rectangular(t) && HasAll(t, NodeColumns(t, version))
    requires forall v :: v in NodeValues(t, version) ==> v in nodes
    ensures forall i :: 0 <= i < |t.rows| ==> RowInNodes(FlowRows(t, version)[i], nodes)
  {
    var names := NodeColumns(t, version);
    assert HasColumn(t, names[0]) && HasColumn(t, names[1]) && HasColumn(t, names[2]) && HasColumn(t, names[5]);
    assert HasColumn(t, names[3]) && HasColumn(t, names[4]);
    var n := |t.rows|;
    var vals := NodeValues(t, version);
    forall i | 0 <= i < n ensures RowInNodes(FlowRows(t, version)[i], nodes) {
      assert vals[i] == Named(t, names[0])[i];
      assert vals[n + i] == Named(t, names[1])[i];
      assert vals[2 * n + i] == Named(t, names[2])[i];
      assert vals[5 * n + i] == Named(t, names[5])[i];
    }
  }

  /** The node colour list holds, for each node, the colour the dictionary
      gives it, or the default grey. */
  ghost predicate NodesColored(s: Sankey, rows: seq<FlowRow>) {
    && |s.nodeColors| == |s.nodes|
    && forall j :: 0 <= j < |s.nodes| ==>
         s.nodeColors[j] == match NodeColor(rows, s.nodes[j]) case Some(c) => c case None => DefaultGray
  }

  /** The link colour list follows each link's source node. */
  ghost predicate LinksColored(s: Sankey, rows: seq<FlowRow>) {
    && |s.linkColors| == |s.sources|
    && forall k :: 0 <= k < |s.sources| ==>
         s.sources[k] < |s.nodes|
         && s.linkColors[k] == LinkColor(ColorMap(rows), s.nodes[s.sources[k]])
  }

  /** The colour dictionary as a value. */
  ghost function ColorMap(rows: seq<FlowRow>): map<Cell, Color> {
    map v | v in Primaries(rows) + AllSubs(rows) + [Str("Passed"), Str("Failed"), Str("Android"), Str("iOS")]
      && NodeColor(rows, v).Some? :: NodeColor(rows, v).value
  }

  function AllSubs(rows: seq<FlowRow>): (subs: seq<Cell>)
    ensures |subs| == |rows| && forall j :: 0 <= j < |rows| ==> subs[j] == rows[j].sub
  {
    seq(|rows|, j requires 0 <= j < |rows| => rows[j].sub)
  }

  lemma ColorMapIs(rows: seq<FlowRow>, colors: map<Cell, Color>)
    requires forall v :: v in colors <==> NodeColor(rows, v).Some?
    requires forall v :: v in colors ==> colors[v] == NodeColor(rows, v).value
    ensures colors == ColorMap(rows)
  {
    forall v | NodeColor(rows, v).Some?
      ensures v in Primaries(rows) + AllSubs(rows) + [Str("Passed"), Str("Failed"), Str("Android"), Str("iOS")]
    {
      if Grayed(rows, v) {
        var j :| 0 <= j < |rows| && rows[j].primary != Empty && rows[j].sub == v;
        assert AllSubs(rows)[j] == v;
      }
    }
  }

  /** What the figure's inputs satisfy for the given nodes and rows. */
  ghost predicate Draws(s: Sankey, nodes: seq<Cell>, rows: seq<FlowRow>) {
    && s.nodes == nodes
    && Linked(nodes, s.sources, s.targets, Flows(rows))
    && |s.values| == |s.sources| && (forall k :: 0 <= k < |s.values| ==> s.values[k] == 1)
    && KeyedBy(s.incoming, nodes) && KeyedBy(s.outgoing, nodes)
    && Tallied(s.incoming, nodes, s.targets) && Tallied(s.outgoing, nodes, s.sources)
    && TallySum(s.incoming, nodes, 0) == |s.sources| && TallySum(s.outgoing, nodes, 0) == |s.sources|
    && NodesColored(s, rows) && LinksColored(s, rows)
    && |s.labels| == |nodes| && (forall j :: 0 <= j < |nodes| ==> s.labels[j] == ShortLabel(nodes[j]))
  }

  /** Everything after the node list: the links, tallies, colours and
      labels of the figure. */
  method Draw(nodes: seq<Cell>, rows: seq<FlowRow>) returns (s: Sankey)
    requires NoDup(nodes)
    requires forall i :: 0 <= i < |rows| ==> RowInNodes(rows[i], nodes)
    ensures Draws(s, nodes, rows)
  {
    var labels := seq(|nodes|, j requires 0 <= j < |nodes| => ShortLabel(nodes[j]));
    var sources, targets := BuildLinks(nodes, rows);
    var incoming, outgoing := Tally(nodes, sources, targets);
    TallyTotal(incoming, nodes, targets);
    TallyTotal(outgoing, nodes, sources);
    var values := seq(|sources|, k => 1);
    var colors := AssignNodeColors(rows);
    ColorMapIs(rows, colors);
    var nodeColors := NodeColorList(nodes, colors);
    var links := LinkColors(nodes, sources, colors);
    s := Sankey(nodes, labels, sources, targets, values, incoming, outgoing, nodeColors, links);
  }

  /** The Sankey block of `display_tester_page`: a missing column or an
      empty table (whose row loop never defines the colour lists) is the
      one error the page reports; otherwise the nodes are the distinct
      values of the six columns, one link joins the two ends of each flow
      of each row, every `values` entry is 1, the tallies count the links
      at each node and add up to the number of links, and the node and
      link colours and labels follow the colour dictionary. */
  method BuildSankey(t: Table, version: string) returns (r: Result<Sankey, Failure>)
    requires Rectangular(t)
    ensures r.Err? <==> !HasAll(t, NodeColumns(t, version)) || |t.rows| == 0
    ensures r.Ok? ==>
      && HasAll(t, NodeColumns(t, version))
      && NoDup(r.value.nodes)
      && (forall v :: v in r.value.nodes <==> v in NodeValues(t, version))
      && Draws(r.value, r.value.nodes, FlowRows(t, version))
  {
    var names := NodeColumns(t, version);
    if !HasAll(t, names) || |t.rows| == 0 {
      return Err(FormatNotRecognised);
    }
    var nodes := Dedup(NodeValues(t, version));
    var rows := FlowRows(t, version);
    FlowRowsInNodes(t, version, nodes);
    var s := Draw(nodes, rows);
    r := Ok(s);
  }
}
