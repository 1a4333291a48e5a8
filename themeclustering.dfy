/** Pair selection by theme: candidates are the pairs of tickers that share a segment of the
    ticker-to-segment table, and each segment is one group. */
module ThemeClustering {
  import opened Wrappers
  import opened Floats
  import opened Oracles
  import opened Strings
  import opened Sequences
  import opened PairStatistics
  import opened Selection

  const MethodName: string := "Clustering by Segment"

  const OutputColumns: seq<string> := [
    "Pair", "Method", "Correlation", "Cointegration_TStats", "Cointegration_PValue",
    "Hurst_Exponent", "Average_Hurst", "Half_Life", "Spread_STD",
    "Formation_Start", "Formation_End", "Trading_Start", "Trading_End"]

  /** One row of the ETF description table. */
  datatype TickerInfo = TickerInfo(ticker: string, segment: string)

  function SegmentColumn(info: seq<TickerInfo>): (r: seq<string>)
    ensures |r| == |info|
    ensures forall i :: 0 <= i < |info| ==> r[i] == info[i].segment
  {
    seq(|info|, i requires 0 <= i < |info| => info[i].segment)
  }

  /** `etf_info['Segment'].unique()`: each segment once, in order of first appearance
      (`SegmentsInTableOrder`). */
  function SegmentsOf(info: seq<TickerInfo>): (r: seq<string>)
    ensures Distinct(r)
    ensures forall s :: s in r <==> exists i :: 0 <= i < |info| && info[i].segment == s
  {
    var col := SegmentColumn(info);
    assert forall s :: s in col <==> exists i :: 0 <= i < |info| && info[i].segment == s;
    Dedup(col)
  }

  /** The first row of the table that carries segment `seg`, or `|info|` when none does. */
  function FirstRow(info: seq<TickerInfo>, seg: string): (p: nat)
    ensures p <= |info|
    ensures p < |info| ==> info[p].segment == seg
    ensures forall k :: 0 <= k < p ==> info[k].segment != seg
  {
    if info == [] || info[0].segment == seg then 0 else 1 + FirstRow(info[1..], seg)
  }

  /** `unique()` lists the segments in the order of their first rows in the table. */
  lemma SegmentsInTableOrder(info: seq<TickerInfo>)
    ensures forall i, j :: 0 <= i < j < |SegmentsOf(info)| ==>
      FirstRow(info, SegmentsOf(info)[i]) < FirstRow(info, SegmentsOf(info)[j])
  {
    var col := SegmentColumn(info);
    var r := SegmentsOf(info);
    DedupFirstAppearance(col);
    forall i | 0 <= i < |r| ensures FirstRow(info, r[i]) == FirstIndex(col, r[i]) {
      assert r[i] in r;
      var b := FirstIndex(col, r[i]);
      assert info[b].segment == r[i];
      var a := FirstRow(info, r[i]);
      assert a <= b;
      assert col[a] == r[i];
    }
  }

  /** `etf_info[etf_info['Segment'] == seg]['Ticker'].tolist()`: the segment's tickers in table order. */
  function TickersIn(info: seq<TickerInfo>, seg: string): (r: seq<string>)
    ensures forall t :: t in r <==> TickerInfo(t, seg) in info
  {
    if info == [] then []
    else
      var n := |info| - 1;
      var init := TickersIn(info[..n], seg);
      assert info == info[..n] + [info[n]];
      if info[n].segment == seg then init + [info[n].ticker] else init
  }

  /** The candidate for a ticker pair: nothing when either ticker is not a column label,
      otherwise the two columns found under the tickers. */
  function Present(named: seq<Column>, p: (string, string)): (r: seq<(Column, Column)>)
    ensures |r| <= 1
    ensures r == [] <==> p.0 !in Names(named) || p.1 !in Names(named)
    ensures forall c :: c in r ==> c.0 in named && c.1 in named && c.0.name == p.0 && c.1.name == p.1
  {
    match (Lookup(named, p.0), Lookup(named, p.1))
    case (Some(a), Some(b)) => [(a, b)]
    case _ => []
  }

  /** The candidates of one segment: the pairs of its tickers that are both present, in
      combination order. */
  function SegmentCandidates(named: seq<Column>, tickers: seq<string>): (r: seq<(Column, Column)>)
    ensures SameLength(named) ==> Comparable(r)
  {
    SegmentCandidatesComparable(named, tickers);
    FlatMap(Pairs(tickers), (p: (string, string)) => Present(named, p))
  }

  lemma SegmentCandidatesComparable(named: seq<Column>, tickers: seq<string>)
    ensures SameLength(named) ==> Comparable(FlatMap(Pairs(tickers), (p: (string, string)) => Present(named, p)))
  {
    var ps := Pairs(tickers);
    var f := (p: (string, string)) => Present(named, p);
    var r := FlatMap(ps, f);
    FlatMapMembership(ps, f);
    if SameLength(named) {
      forall k | 0 <= k < |r| ensures |r[k].0.values| == |r[k].1.values| {
        assert r[k] in r;
        var m :| 0 <= m < |ps| && r[k] in f(ps[m]);
        var a, b := IndexOf(named, r[k].0), IndexOf(named, r[k].1);
      }
    }
  }

  /** Every candidate of a segment is a present pair of the segment's tickers. */
  lemma SegmentCandidateFacts(named: seq<Column>, tickers: seq<string>, c: (Column, Column))
    requires c in SegmentCandidates(named, tickers)
    ensures (c.0.name, c.1.name) in Pairs(tickers)
    ensures c.0 in named && c.1 in named
  {
    var f := (p: (string, string)) => Present(named, p);
    FlatMapMembership(Pairs(tickers), f);
    assert c in FlatMap(Pairs(tickers), f);
  }

  /** The rows evaluated for one segment. */
  function SegmentRows(named: seq<Column>, info: seq<TickerInfo>, seg: string, o: Oracles): seq<Row>
    requires SameLength(named)
  {
    EvaluateAll(SegmentCandidates(named, TickersIn(info, seg)), Segment(seg), o)
  }

  /** `pair_results` after visiting the segments `segs` in order. */
  function ThemeRows(named: seq<Column>, info: seq<TickerInfo>, segs: seq<string>, o: Oracles): seq<Row>
    requires SameLength(named)
  {
    if segs == [] then []
    else ThemeRows(named, info, segs[..|segs| - 1], o) + SegmentRows(named, info, segs[|segs| - 1], o)
  }

  /** Some candidate makes the pair statistics raise (a ticker paired with itself). */
  predicate AnyRaises(cands: seq<(Column, Column)>)
    requires Comparable(cands)
  {
    exists k :: 0 <= k < |cands| && PairStatisticsRaises(cands[k].0, cands[k].1)
  }

  /** Visiting the segment `seg` raises. */
  predicate SegmentRaises(named: seq<Column>, info: seq<TickerInfo>, seg: string)
    requires SameLength(named)
  {
    AnyRaises(SegmentCandidates(named, TickersIn(info, seg)))
  }

  /** Visiting the segments `segs` raises in one of them. */
  predicate ThemeRaises(named: seq<Column>, info: seq<TickerInfo>, segs: seq<string>)
    requires SameLength(named)
  {
    exists k :: 0 <= k < |segs| && SegmentRaises(named, info, segs[k])
  }

  function SegmentGroups(segs: seq<string>): (r: seq<Group>)
    ensures |r| == |segs|
    ensures forall g :: g in r <==> g.Segment? && g.name in segs
    ensures forall k :: 0 <= k < |segs| ==> r[k] == Segment(segs[k])
  {
    var r := seq(|segs|, k requires 0 <= k < |segs| => Segment(segs[k]));
    assert forall k :: 0 <= k < |segs| ==> r[k] == Segment(segs[k]);
    r
  }

  /** `select_pairs_theme_clustering`; `themeNames` is the order in which `list(set(...))`
      produced the prefixes. A ticker listed twice in one segment is paired with itself, which
      aborts the run unless its column holds no value at all. */
  function ThemeSelection(frame: seq<Column>, info: seq<TickerInfo>, themeNames: seq<string>,
                          w: Window, tradingDays: int, o: Oracles): Outcome<Table>
    requires SameLength(frame)
  {
    var cols := AdjCloseColumns(frame);
    match Rename(cols, themeNames)
    case Fatal(e) => Fatal(e)
    case Ok(named) =>
      var segs := SegmentsOf(info);
      if ThemeRaises(named, info, segs) then Fatal(AmbiguousTruthValue)
      else
      var rows := ThemeRows(named, info, segs, o);
      if rows == [] then Ok(EmptyTable)
      else Ok(Emit(SelectGroups(DropNaNCorrelation(rows), SegmentGroups(segs), tradingDays, o),
                   OutputColumns, MethodName, w))
  }

  method SelectPairsThemeClustering(frame: seq<Column>, info: seq<TickerInfo>, themeNames: seq<string>,
                                    w: Window, tradingDays: int, o: Oracles)
    returns (out: Outcome<Table>)
    requires SameLength(frame)
    requires IsSetOrder(themeNames, Prefixes(AdjCloseColumns(frame)))
    ensures out == ThemeSelection(frame, info, themeNames, w, tradingDays, o)
  {
    var cols := AdjCloseColumns(frame);
    var renamed := Rename(cols, themeNames);
    if renamed.Fatal? {
      return Fatal(renamed.error);
    }
    var named := renamed.value;
    var segs := SegmentsOf(info);
    var collected := CollectSegmentRows(named, info, segs, o);
    if collected.Fatal? {
      return Fatal(collected.error);
    }
    var rows := collected.value;
    if rows == [] {
      return Ok(EmptyTable);
    }
    var kept := DropNaNCorrelation(rows);
    var selected := SelectPerGroup(kept, SegmentGroups(segs), tradingDays, o);
    out := Ok(Emit(selected, OutputColumns, MethodName, w));
  }

  /** The loop over segments that builds `pair_results`; it stops at the first segment whose
      pairs raise. */
  method CollectSegmentRows(named: seq<Column>, info: seq<TickerInfo>, segs: seq<string>, o: Oracles)
    returns (out: Outcome<seq<Row>>)
    requires SameLength(named)
    ensures out == if ThemeRaises(named, info, segs) then Fatal(AmbiguousTruthValue)
                   else Ok(ThemeRows(named, info, segs, o))
  {
    var rows := [];
    var i := 0;
    while i < |segs|
      invariant 0 <= i <= |segs|
      invariant !ThemeRaises(named, info, segs[..i])
      invariant rows == ThemeRows(named, info, segs[..i], o)
    {
      assert segs[..i + 1][..i] == segs[..i];
      var cands := SegmentCandidates(named, TickersIn(info, segs[i]));
      var segmentRows := EvaluateSegment(cands, Segment(segs[i]), o);
      if segmentRows.Fatal? {
        assert SegmentRaises(named, info, segs[i]);
        return Fatal(AmbiguousTruthValue);
      }
      ThemeRaisesStep(named, info, segs, i);
      rows := rows + segmentRows.value;
      i := i + 1;
    }
    assert segs[..|segs|] == segs;
    out := Ok(rows);
  }

  /** The loop over one segment's candidates; a candidate that raises aborts it. */
  method EvaluateSegment(cands: seq<(Column, Column)>, group: Group, o: Oracles) returns (out: Outcome<seq<Row>>)
    requires Comparable(cands)
    ensures out == if AnyRaises(cands) then Fatal(AmbiguousTruthValue) else Ok(EvaluateAll(cands, group, o))
  {
    var rows := [];
    var i := 0;
    while i < |cands|
      invariant 0 <= i <= |cands|
      invariant !AnyRaises(cands[..i])
      invariant rows == EvaluateAll(cands[..i], group, o)
    {
      assert cands[..i + 1][..i] == cands[..i];
      var (c1, c2) := cands[i];
      if PairStatisticsRaises(c1, c2) {
        return Fatal(AmbiguousTruthValue);
      }
      AnyRaisesStep(cands, i);
      var stats := CalculatePairStatistics(c1, c2, SignificanceLevel, o);
      if stats.Some? {
        var hurst := SelectorHurstLoop(SubSeq(c1.values, c2.values), o);
        rows := rows + [MakeRow(stats.value, hurst, group)];
      }
      i := i + 1;
    }
    assert cands[..|cands|] == cands;
    out := Ok(rows);
  }

  /** One more candidate raises exactly when it or an earlier one does. */
  lemma AnyRaisesStep(cands: seq<(Column, Column)>, i: int)
    requires Comparable(cands) && 0 <= i < |cands|
    ensures AnyRaises(cands[..i + 1]) <==> AnyRaises(cands[..i]) || PairStatisticsRaises(cands[i].0, cands[i].1)
  {
    var p, q := cands[..i], cands[..i + 1];
    assert forall k :: 0 <= k < i ==> q[k] == p[k];
    assert q[i] == cands[i];
  }

  /** One more segment raises exactly when it or an earlier one does. */
  lemma ThemeRaisesStep(named: seq<Column>, info: seq<TickerInfo>, segs: seq<string>, i: int)
    requires SameLength(named) && 0 <= i < |segs|
    ensures ThemeRaises(named, info, segs[..i + 1]) <==>
      ThemeRaises(named, info, segs[..i]) || SegmentRaises(named, info, segs[i])
  {
    var p, q := segs[..i], segs[..i + 1];
    assert forall k :: 0 <= k < i ==> q[k] == p[k];
    assert q[i] == segs[i];
  }

  /** A row of one segment pairs two present tickers of that segment, in table order. */
  lemma SegmentRowFacts(named: seq<Column>, info: seq<TickerInfo>, seg: string, x: Row, o: Oracles)
    requires SameLength(named) && x in SegmentRows(named, info, seg, o)
    ensures x.group == Segment(seg)
    ensures x.stats.pair in Pairs(TickersIn(info, seg))
    ensures x.stats.pair.0 in Names(named) && x.stats.pair.1 in Names(named)
  {
    var cands := SegmentCandidates(named, TickersIn(info, seg));
    EvaluateAllRows(cands, Segment(seg), o);
    var m :| 0 <= m < |cands| && x.stats.pair == (cands[m].0.name, cands[m].1.name);
    SegmentCandidateFacts(named, TickersIn(info, seg), cands[m]);
    assert cands[m].0.name == Names(named)[IndexOf(named, cands[m].0)];
    assert cands[m].1.name == Names(named)[IndexOf(named, cands[m].1)];
  }

  function IndexOf(s: seq<Column>, c: Column): (k: nat)
    requires c in s
    ensures k < |s| && s[k] == c
  {
    if s[0] == c then 0 else 1 + IndexOf(s[1..], c)
  }

  /** Every row comes from one of the visited segments. */
  lemma {:induction false} ThemeRowsFrom(named: seq<Column>, info: seq<TickerInfo>, segs: seq<string>, x: Row, o: Oracles)
    requires SameLength(named) && x in ThemeRows(named, info, segs, o)
    ensures exists k :: 0 <= k < |segs| && x in SegmentRows(named, info, segs[k], o)
  {
    var n := |segs| - 1;
    if x !in SegmentRows(named, info, segs[n], o) {
      ThemeRowsFrom(named, info, segs[..n], x, o);
      var k :| 0 <= k < n && x in SegmentRows(named, info, segs[..n][k], o);
      assert segs[..n][k] == segs[k];
    }
  }

  /** Two rows of the table in one segment give the pair of their tickers, in table order. */
  lemma {:induction false} TickersInTwice(info: seq<TickerInfo>, seg: string, i: int, j: int)
    requires 0 <= i < j < |info| && info[i].segment == seg && info[j].segment == seg
    ensures (info[i].ticker, info[j].ticker) in Pairs(TickersIn(info, seg))
  {
    var n := |info| - 1;
    var init := info[..n];
    var tickers := TickersIn(info, seg);
    assert info == init + [info[n]];
    assert forall k :: 0 <= k < n ==> init[k] == info[k];
    PairsMembership(tickers, info[i].ticker, info[j].ticker);
    if j < n {
      TickersInTwice(init, seg, i, j);
      var prev := TickersIn(init, seg);
      PairsMembership(prev, info[i].ticker, info[j].ticker);
      var a, b :| 0 <= a < b < |prev| && prev[a] == info[i].ticker && prev[b] == info[j].ticker;
      assert tickers[a] == prev[a] && tickers[b] == prev[b];
    } else {
      var prev := TickersIn(init, seg);
      assert TickerInfo(info[i].ticker, seg) in init;
      var a :| 0 <= a < |prev| && prev[a] == info[i].ticker;
      assert tickers == prev + [info[n].ticker];
      assert tickers[a] == info[i].ticker && tickers[|prev|] == info[j].ticker;
    }
  }

  /** A ticker that the table lists twice in one segment, and whose column holds a value, makes
      that segment raise. */
  lemma SelfPairSegmentRaises(named: seq<Column>, info: seq<TickerInfo>, i: int, j: int)
    requires SameLength(named)
    requires 0 <= i < j < |info| && info[i] == info[j]
    requires var c := Lookup(named, info[i].ticker);
      c.Some? && exists r :: 0 <= r < |c.value.values| && !c.value.values[r].NaN?
    ensures SegmentRaises(named, info, info[i].segment)
  {
    var t, seg := info[i].ticker, info[i].segment;
    var tickers := TickersIn(info, seg);
    TickersInTwice(info, seg, i, j);
    var c := Lookup(named, t).value;
    assert Present(named, (t, t)) == [(c, c)];
    var f := (p: (string, string)) => Present(named, p);
    FlatMapMembership(Pairs(tickers), f);
    var cands := SegmentCandidates(named, tickers);
    assert (c, c) in cands;
    var k :| 0 <= k < |cands| && cands[k] == (c, c);
    SelfPairRaises(c);
  }

  /** A ticker that the table lists twice in one segment, and whose column holds a value, aborts
      the selection. */
  lemma SelfPairAborts(frame: seq<Column>, info: seq<TickerInfo>, themeNames: seq<string>, w: Window,
                       tradingDays: int, o: Oracles, i: int, j: int)
    requires SameLength(frame)
    requires Rename(AdjCloseColumns(frame), themeNames).Ok?
    requires 0 <= i < j < |info| && info[i] == info[j]
    requires var c := Lookup(Rename(AdjCloseColumns(frame), themeNames).value, info[i].ticker);
      c.Some? && exists r :: 0 <= r < |c.value.values| && !c.value.values[r].NaN?
    ensures ThemeSelection(frame, info, themeNames, w, tradingDays, o) == Fatal(AmbiguousTruthValue)
  {
    var named := Rename(AdjCloseColumns(frame), themeNames).value;
    SelfPairSegmentRaises(named, info, i, j);
    var segs := SegmentsOf(info);
    assert info[i].segment in segs;
    var m :| 0 <= m < |segs| && segs[m] == info[i].segment;
    assert ThemeRaises(named, info, segs);
  }

  /** When no segment raises, every evaluated row pairs two different tickers. */
  lemma RowPairDistinct(named: seq<Column>, info: seq<TickerInfo>, seg: string, x: Row, o: Oracles)
    requires SameLength(named) && !SegmentRaises(named, info, seg)
    requires x in SegmentRows(named, info, seg, o)
    ensures x.stats.pair.0 != x.stats.pair.1
  {
    var cands := SegmentCandidates(named, TickersIn(info, seg));
    EvaluateAllRows(cands, Segment(seg), o);
    var m :| 0 <= m < |cands| && x in Contribution(cands[m], Segment(seg), o);
    assert !PairStatisticsRaises(cands[m].0, cands[m].1);
  }

  /** A row is selected exactly when it was evaluated in a segment of the table, has a correlation,
      and passes the six comparisons against its own segment's median Spread_STD. */
  lemma SelectedExactly(rows: seq<Row>, segs: seq<string>, tradingDays: int, o: Oracles)
    ensures forall x :: x in SelectGroups(DropNaNCorrelation(rows), SegmentGroups(segs), tradingDays, o) <==>
      && x in rows && !x.stats.correlation.NaN?
      && x.group.Segment? && x.group.name in segs
      && Passes(x, GroupThreshold(DropNaNCorrelation(rows), x.group, o), tradingDays)
  {
    SelectGroupsExactly(DropNaNCorrelation(rows), SegmentGroups(segs), tradingDays, o);
  }

  /** Within each segment the selected rows keep the order in which they were evaluated. */
  lemma SelectedInOrder(rows: seq<Row>, info: seq<TickerInfo>, tradingDays: int, o: Oracles)
    ensures var groups := SegmentGroups(SegmentsOf(info));
      forall g :: IsSubsequence(RowsOf(SelectGroups(DropNaNCorrelation(rows), groups, tradingDays, o), g), rows)
  {
    var groups := SegmentGroups(SegmentsOf(info));
    var kept := DropNaNCorrelation(rows);
    SelectGroupsInOrder(kept, groups, tradingDays, o);
    FilterIsSubsequence(rows, (x: Row) => !x.stats.correlation.NaN?);
    forall g ensures IsSubsequence(RowsOf(SelectGroups(kept, groups, tradingDays, o), g), rows) {
      SubsequenceTrans(RowsOf(SelectGroups(kept, groups, tradingDays, o), g), kept, rows);
    }
  }

  /** Two segments of `unique()` come in the order of their first rows in the table. */
  lemma SegmentIndexOrder(info: seq<TickerInfo>, a: nat, b: nat)
    requires a < |SegmentsOf(info)| && b < |SegmentsOf(info)|
    requires FirstRow(info, SegmentsOf(info)[a]) < FirstRow(info, SegmentsOf(info)[b])
    ensures a < b
  {
    SegmentsInTableOrder(info);
  }

  lemma SegmentGroupsDistinct(segs: seq<string>)
    requires Distinct(segs)
    ensures Distinct(SegmentGroups(segs))
  {
    var groups := SegmentGroups(segs);
    forall i, j | 0 <= i < j < |groups| ensures groups[i] != groups[j] {
      assert segs[i] != segs[j];
    }
  }

  /** The selection lists the segments in the order of their first rows in the table: a selected
      row of a segment that appears earlier comes before every selected row of one that appears
      later. */
  lemma SegmentsSelectedInTableOrder(rows: seq<Row>, info: seq<TickerInfo>, tradingDays: int, o: Oracles)
    ensures var sel := SelectGroups(DropNaNCorrelation(rows), SegmentGroups(SegmentsOf(info)), tradingDays, o);
      forall p, q ::
        (&& 0 <= p < |sel| && 0 <= q < |sel|
         && sel[p].group.Segment? && sel[q].group.Segment?
         && FirstRow(info, sel[p].group.name) < FirstRow(info, sel[q].group.name)) ==> p < q
  {
    var segs := SegmentsOf(info);
    var groups := SegmentGroups(segs);
    var kept := DropNaNCorrelation(rows);
    var sel := SelectGroups(kept, groups, tradingDays, o);
    SegmentGroupsDistinct(segs);
    forall p, q |
      && 0 <= p < |sel| && 0 <= q < |sel|
      && sel[p].group.Segment? && sel[q].group.Segment?
      && FirstRow(info, sel[p].group.name) < FirstRow(info, sel[q].group.name)
      ensures p < q
    {
      var a := SelectedGroupIndex(kept, groups, p, tradingDays, o);
      var b := SelectedGroupIndex(kept, groups, q, tradingDays, o);
      assert groups[a].name == segs[a] && groups[b].name == segs[b];
      SegmentIndexOrder(info, a, b);
      SelectGroupsBlockOrder(kept, groups, a, b, tradingDays, o);
    }
  }

  /** A selected theme pair consists of two present tickers that share a segment of the table,
      and it passes the mask against that segment's median. */
  lemma SelectedRow(named: seq<Column>, info: seq<TickerInfo>, x: Row, tradingDays: int, o: Oracles)
    requires SameLength(named)
    requires x in SelectGroups(DropNaNCorrelation(ThemeRows(named, info, SegmentsOf(info), o)),
                               SegmentGroups(SegmentsOf(info)), tradingDays, o)
    ensures x.group.Segment?
    ensures TickerInfo(x.stats.pair.0, x.group.name) in info && TickerInfo(x.stats.pair.1, x.group.name) in info
    ensures x.stats.pair.0 in Names(named) && x.stats.pair.1 in Names(named)
    ensures Passes(x, GroupThreshold(DropNaNCorrelation(ThemeRows(named, info, SegmentsOf(info), o)), x.group, o), tradingDays)
    ensures !ThemeRaises(named, info, SegmentsOf(info)) ==> x.stats.pair.0 != x.stats.pair.1
  {
    var segs := SegmentsOf(info);
    var rows := ThemeRows(named, info, segs, o);
    SelectedExactly(rows, segs, tradingDays, o);
    assert x in rows;
    ThemeRowsFrom(named, info, segs, x, o);
    var k :| 0 <= k < |segs| && x in SegmentRows(named, info, segs[k], o);
    SegmentRowFacts(named, info, segs[k], x, o);
    if !ThemeRaises(named, info, segs) {
      RowPairDistinct(named, info, segs[k], x, o);
    }
    var tickers := TickersIn(info, segs[k]);
    PairsMembership(tickers, x.stats.pair.0, x.stats.pair.1);
    var i, j :| 0 <= i < j < |tickers| && tickers[i] == x.stats.pair.0 && tickers[j] == x.stats.pair.1;
    assert tickers[i] in tickers && tickers[j] in tickers;
  }

  /** The segment label is dropped from the output: no output column is named "Segment". */
  lemma SegmentColumnDropped()
    ensures "Segment" !in OutputColumns
  {
    assert forall i :: 0 <= i < |OutputColumns| ==> |OutputColumns[i]| != |"Segment"|;
  }

  /** A non-empty result is tagged with the method and window, carries no cluster, uses the
      fixed column order (which has no segment column, see `SegmentColumnDropped`), and holds only
      pairs of two different tickers that share a segment. */
  lemma Output(frame: seq<Column>, info: seq<TickerInfo>, themeNames: seq<string>, w: Window,
               tradingDays: int, o: Oracles)
    requires SameLength(frame)
    requires ThemeSelection(frame, info, themeNames, w, tradingDays, o).Ok?
    ensures var t := ThemeSelection(frame, info, themeNames, w, tradingDays, o).value;
      t != EmptyTable ==>
        && t.columns == OutputColumns
        && forall k :: 0 <= k < |t.records| ==>
          && t.records[k].methodName == MethodName
          && t.records[k].window == w
          && t.records[k].cluster == None
          && t.records[k].pair.0 in themeNames && t.records[k].pair.1 in themeNames
          && t.records[k].pair.0 != t.records[k].pair.1
          && exists seg :: TickerInfo(t.records[k].pair.0, seg) in info && TickerInfo(t.records[k].pair.1, seg) in info
  {
    var t := ThemeSelection(frame, info, themeNames, w, tradingDays, o).value;
    if t != EmptyTable {
      var named := Rename(AdjCloseColumns(frame), themeNames).value;
      assert Names(named) == themeNames;
      var segs := SegmentsOf(info);
      var rows := ThemeRows(named, info, segs, o);
      var selected := SelectGroups(DropNaNCorrelation(rows), SegmentGroups(segs), tradingDays, o);
      assert t == Emit(selected, OutputColumns, MethodName, w);
      forall k | 0 <= k < |t.records|
        ensures t.records[k].cluster == None
        ensures t.records[k].pair.0 in themeNames && t.records[k].pair.1 in themeNames
        ensures t.records[k].pair.0 != t.records[k].pair.1
        ensures exists seg :: TickerInfo(t.records[k].pair.0, seg) in info && TickerInfo(t.records[k].pair.1, seg) in info
      {
        var x := selected[k];
        assert x in selected;
        SelectedRow(named, info, x, tradingDays, o);
        assert t.records[k].pair == x.stats.pair;
        assert TickerInfo(x.stats.pair.0, x.group.name) in info && TickerInfo(x.stats.pair.1, x.group.name) in info;
      }
    }
  }
}
