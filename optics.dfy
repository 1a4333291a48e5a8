/** Pair selection by density clustering: the standardised daily returns of every ETF are
    projected onto principal components, OPTICS labels each ETF with a cluster (or noise), and
    each cluster is one group whose members are paired with one another. */
module Optics {
  import opened Wrappers
  import opened Floats
  import opened Oracles
  import opened Strings
  import opened Sequences
  import opened PairStatistics
  import opened Selection
  import Preprocess

  const MethodName: string := "Clustering using OPTICS"

  const OutputColumns: seq<string> := [
    "Pair", "Cluster", "Method", "Correlation", "Cointegration_TStats", "Cointegration_PValue",
    "Hurst_Exponent", "Average_Hurst", "Half_Life", "Spread_STD",
    "Formation_Start", "Formation_End", "Trading_Start", "Trading_End"]

  /** The label OPTICS gives to samples that belong to no cluster. */
  const Noise: int := -1

  // ---------------------------------------------------------------------------------------
  // Returns and standardisation

  /** `adj_close_df.pct_change()`, one column of returns per ETF. Its default fill method pads:
      each column is filled forward before the ratios are taken, so a missing price repeats the
      last known one and only the leading gap of a column stays missing. */
  function Returns(named: seq<Column>): (r: seq<seq<Float>>)
    ensures |r| == |named|
    ensures forall c :: 0 <= c < |named| ==> r[c] == PctChange(Preprocess.FFill(named[c].values))
  {
    seq(|named|, c requires 0 <= c < |named| => PctChange(Preprocess.FFill(named[c].values)))
  }

  /** A day's return compares the day's price, or the last known one when the day has none, with
      the last price known before that day. */
  lemma ReturnsOfPrices(named: seq<Column>, c: int, t: int, j: int)
    requires 0 <= c < |named| && 0 < t < |named[c].values|
    requires 0 <= j < t && !named[c].values[j].NaN?
    requires forall k :: j < k < t ==> named[c].values[k].NaN?
    ensures var v := named[c].values;
      Returns(named)[c][t] == Sub(Div(if v[t].NaN? then v[j] else v[t], v[j]), Fin(1.0))
  {
    var v := named[c].values;
    var f := Preprocess.FFill(v);
    assert Returns(named)[c][t] == Sub(Div(f[t], f[t - 1]), Fin(1.0));
    Preprocess.FFillDayAndBefore(v, t, j);
  }

  /** On gap-free columns the returns are those of the prices themselves. */
  lemma ReturnsOfGapFreeColumns(named: seq<Column>, c: int)
    requires 0 <= c < |named| && NoMissing(named[c].values)
    ensures Returns(named)[c] == PctChange(named[c].values)
  {
    Preprocess.FFillKeepsGapFree(named[c].values);
  }

  /** The number of rows of a frame (zero without columns). */
  function NumRows(frame: seq<Column>): nat
  {
    if frame == [] then 0 else |frame[0].values|
  }

  /** Row `t` has a value in every column. */
  predicate RowComplete(cols: seq<seq<Float>>, t: nat)
  {
    forall c :: 0 <= c < |cols| ==> t < |cols[c]| && !cols[c][t].NaN?
  }

  /** `.dropna()` on a frame: the positions of the rows with no missing value, in order. */
  function CompleteRows(cols: seq<seq<Float>>, n: nat): (r: seq<nat>)
    ensures forall k :: 0 <= k < |r| ==> r[k] < n && RowComplete(cols, r[k])
    ensures forall t: nat :: t < n && RowComplete(cols, t) ==> t in r
  {
    Positions(n, (t: nat) => RowComplete(cols, t))
  }

  /** `returns_df`: the returns restricted to the complete rows. */
  function ReturnsFrame(named: seq<Column>): (r: seq<seq<Float>>)
    ensures |r| == |named|
  {
    var pcts := Returns(named);
    var rows := CompleteRows(pcts, NumRows(named));
    seq(|pcts|, c requires 0 <= c < |pcts| => Keep(pcts[c], rows))
  }

  /** Every return that survives the row drop is a number, and the first day, which has no
      previous price, never survives. */
  lemma ReturnsFrameComplete(named: seq<Column>)
    requires named != [] && SameLength(named)
    ensures var frame := ReturnsFrame(named);
      && (forall c, t :: 0 <= c < |frame| && 0 <= t < |frame[c]| ==> !frame[c][t].NaN?)
      && 0 !in CompleteRows(Returns(named), NumRows(named))
  {
    var pcts := Returns(named);
    var rows := CompleteRows(pcts, NumRows(named));
    var frame: seq<seq<Float>> := ReturnsFrame(named);
    forall c: int, t: int | 0 <= c < |frame| && 0 <= t < |frame[c]|
      ensures !frame[c][t].NaN?
    {
      assert frame[c] == Keep(pcts[c], rows);
    }
    if |named[0].values| > 0 {
      assert pcts[0][0].NaN?;
    }
    assert !RowComplete(pcts, 0);
  }

  /** `std().replace(0, 1)` */
  function Scale(sd: Float): (r: Float)
    ensures r != Fin(0.0)
    ensures sd != Fin(0.0) ==> r == sd
    ensures sd == Fin(0.0) ==> r == Fin(1.0)
  {
    if sd == Fin(0.0) then Fin(1.0) else sd
  }

  /** `(col - col.mean()) / col.std().replace(0, 1)` */
  function Standardize(col: seq<Float>, o: Oracles): (r: seq<Float>)
    ensures |r| == |col|
    ensures forall t :: 0 <= t < |col| ==> r[t] == Div(Sub(col[t], Mean(col)), Scale(o.std(col)))
  {
    var m := Mean(col);
    var sd := Scale(o.std(col));
    seq(|col|, t requires 0 <= t < |col| => Div(Sub(col[t], m), sd))
  }

  /** Dividing by one changes nothing, infinities included. */
  lemma DivOne(a: Float)
    ensures Div(a, Fin(1.0)) == a
  {
  }

  /** A constant column is only centred, never divided by zero; and finite returns with a finite
      deviation standardise to finite values. */
  lemma ZeroStdGuard(col: seq<Float>, o: Oracles)
    ensures o.std(col) == Fin(0.0) ==>
      forall t :: 0 <= t < |col| ==> Standardize(col, o)[t] == Sub(col[t], Mean(col))
    ensures (forall t :: 0 <= t < |col| ==> col[t].Fin?) && o.std(col).Fin? ==>
      forall t :: 0 <= t < |col| ==> Standardize(col, o)[t].Fin?
  {
    forall t | 0 <= t < |col| {
      DivOne(Sub(col[t], Mean(col)));
    }
  }

  /** The matrix handed to the projection: one row of standardised returns per ETF
      (`returns_df_standardized.T`). */
  function Samples(named: seq<Column>, o: Oracles): (r: seq<seq<Float>>)
    ensures |r| == |named|
  {
    var frame := ReturnsFrame(named);
    seq(|frame|, c requires 0 <= c < |frame| => Standardize(frame[c], o))
  }

  /** `optics_model.labels_`, one per ETF in name order. */
  function Labels(components: seq<seq<Float>>, n: nat, o: Oracles): (r: seq<int>)
    ensures |r| == n
    ensures forall k :: 0 <= k < n ==> r[k] == o.opticsLabel(components, k)
  {
    seq(n, k requires 0 <= k < n => o.opticsLabel(components, k))
  }

  // ---------------------------------------------------------------------------------------
  // Clusters and their members

  predicate Ascending(s: seq<int>)
  {
    forall i, j :: 0 <= i < j < |s| ==> s[i] < s[j]
  }

  function InsertLabel(x: int, s: seq<int>): (r: seq<int>)
    requires Ascending(s)
    ensures Ascending(r)
    ensures forall y :: y in r <==> y == x || y in s
  {
    if s == [] then [x]
    else if x < s[0] then [x] + s
    else if x == s[0] then s
    else
      var tail := s[1..];
      assert forall j :: 0 <= j < |tail| ==> tail[j] == s[j + 1];
      var rest := InsertLabel(x, tail);
      forall j | 0 <= j < |rest|
        ensures s[0] < rest[j]
      {
        assert rest[j] in rest;
        if rest[j] != x {
          var m :| 0 <= m < |tail| && tail[m] == rest[j];
          assert s[0] < s[m + 1];
        }
      }
      [s[0]] + rest
  }

  /** `sorted(set(labels) - {-1})`: each cluster label once, ascending, noise excluded. */
  function Clusters(labels: seq<int>): (r: seq<int>)
    ensures Ascending(r)
    ensures forall c :: c in r <==> c in labels && c != Noise
  {
    if labels == [] then []
    else
      var init := Clusters(labels[..|labels| - 1]);
      assert labels == labels[..|labels| - 1] + [labels[|labels| - 1]];
      if labels[|labels| - 1] == Noise then init else InsertLabel(labels[|labels| - 1], init)
  }

  /** The positions whose label is `c`, ascending. */
  function MemberIndices(labels: seq<int>, c: int): (r: seq<nat>)
    ensures forall k :: 0 <= k < |r| ==> r[k] < |labels| && labels[r[k]] == c
    ensures forall i :: 0 <= i < |labels| && labels[i] == c ==> i in r
    ensures forall k, l :: 0 <= k < l < |r| ==> r[k] < r[l]
  {
    Positions(|labels|, (i: nat) => i < |labels| && labels[i] == c)
  }

  /** `features_df[features_df['Cluster'] == c].index`, looked up in the renamed frame: the
      columns labelled `c`, in name order. */
  function Members(named: seq<Column>, labels: seq<int>, c: int): (r: seq<Column>)
    requires |labels| == |named|
    ensures SameLength(named) ==> SameLength(r)
    ensures forall x :: x in r <==> exists i :: 0 <= i < |named| && named[i] == x && labels[i] == c
    ensures |r| == |MemberIndices(labels, c)|
    ensures forall k :: 0 <= k < |r| ==> r[k] == named[MemberIndices(labels, c)[k]]
  {
    var idx := MemberIndices(labels, c);
    var r := Keep(named, idx);
    MembersAt(named, labels, c, idx, r);
    r
  }

  /** The columns at the positions labelled `c` are exactly the columns labelled `c`. */
  lemma MembersAt(named: seq<Column>, labels: seq<int>, c: int, idx: seq<nat>, r: seq<Column>)
    requires |labels| == |named|
    requires idx == MemberIndices(labels, c)
    requires |r| == |idx| && forall k :: 0 <= k < |r| ==> r[k] == named[idx[k]]
    ensures SameLength(named) ==> SameLength(r)
    ensures forall x :: x in r <==> exists i :: 0 <= i < |named| && named[i] == x && labels[i] == c
  {
    forall x | x in r
      ensures exists i :: 0 <= i < |named| && named[i] == x && labels[i] == c
    {
      var k :| 0 <= k < |r| && r[k] == x;
      assert named[idx[k]] == x && labels[idx[k]] == c;
    }
    forall x | exists i :: 0 <= i < |named| && named[i] == x && labels[i] == c
      ensures x in r
    {
      var i :| 0 <= i < |named| && named[i] == x && labels[i] == c;
      var k :| 0 <= k < |idx| && idx[k] == i;
      assert r[k] == x;
    }
    assert forall k :: 0 <= k < |r| ==> r[k] in named;
  }

  /** Candidates of one cluster are two of its members at increasing positions. */
  lemma MemberPairs(named: seq<Column>, labels: seq<int>, c: int, x: Column, y: Column)
    requires |labels| == |named|
    requires (x, y) in Pairs(Members(named, labels, c))
    ensures exists i, j :: 0 <= i < j < |named| && named[i] == x && named[j] == y && labels[i] == c && labels[j] == c
  {
    var idx := MemberIndices(labels, c);
    var ms := Members(named, labels, c);
    PairsMembership(ms, x, y);
    var k, l :| 0 <= k < l < |ms| && ms[k] == x && ms[l] == y;
    assert idx[k] < idx[l];
  }

  /** The rows one cluster contributes; a cluster of fewer than two members contributes none. */
  function ClusterRows(named: seq<Column>, labels: seq<int>, c: int, o: Oracles): seq<Row>
    requires |labels| == |named| && SameLength(named)
  {
    var members := Members(named, labels, c);
    if |members| < 2 then []
    else
      PairsOfSameLength(members);
      EvaluateAll(Pairs(members), Cluster(c), o)
  }

  /** `pair_results` after visiting the clusters `clusters` in order. */
  function OpticsRows(named: seq<Column>, labels: seq<int>, clusters: seq<int>, o: Oracles): seq<Row>
    requires |labels| == |named| && SameLength(named)
  {
    if clusters == [] then []
    else OpticsRows(named, labels, clusters[..|clusters| - 1], o) + ClusterRows(named, labels, clusters[|clusters| - 1], o)
  }

  function ClusterGroups(clusters: seq<int>): (r: seq<Group>)
    ensures |r| == |clusters|
    ensures forall g :: g in r <==> g.Cluster? && g.id in clusters
    ensures forall k :: 0 <= k < |clusters| ==> r[k] == Cluster(clusters[k])
  {
    var r := seq(|clusters|, k requires 0 <= k < |clusters| => Cluster(clusters[k]));
    assert forall k :: 0 <= k < |clusters| ==> r[k] == Cluster(clusters[k]);
    r
  }

  // ---------------------------------------------------------------------------------------
  // The selector

  /** `select_pairs_optics_clustering` */
  function OpticsSelection(frame: seq<Column>, w: Window, tradingDays: int, o: Oracles): Outcome<Table>
    requires SameLength(frame)
  {
    var cols := AdjCloseColumns(frame);
    if cols == [] then Ok(EmptyTable)
    else
      match Rename(cols, SortedNames(cols))
      case Fatal(e) => Fatal(e)
      case Ok(named) =>
        if CompleteRows(Returns(named), NumRows(named)) == [] then Ok(EmptyTable)
        else
          match o.pca(Samples(named, o))
          case PcaRaised => Ok(EmptyTable)
          case Projected(components) =>
            var labels := Labels(components, |named|, o);
            var clusters := Clusters(labels);
            if clusters == [] then Ok(EmptyTable)
            else
              var rows := OpticsRows(named, labels, clusters, o);
              if rows == [] then Ok(EmptyTable)
              else
                var selected := SelectGroups(DropNaNCorrelation(rows), ClusterGroups(clusters), tradingDays, o);
                Ok(Emit(selected, OutputColumns, MethodName, w))
  }

  method SelectPairsOptics(frame: seq<Column>, w: Window, tradingDays: int, o: Oracles)
    returns (out: Outcome<Table>)
    requires SameLength(frame)
    ensures out == OpticsSelection(frame, w, tradingDays, o)
  {
    var cols := AdjCloseColumns(frame);
    var names := SortedNames(cols);
    if cols == [] {
      return Ok(EmptyTable);
    }
    var renamed := Rename(cols, names);
    if renamed.Fatal? {
      return Fatal(renamed.error);
    }
    var named := renamed.value;
    if CompleteRows(Returns(named), NumRows(named)) == [] {
      return Ok(EmptyTable);
    }
    var projected := o.pca(Samples(named, o));
    if projected.PcaRaised? {
      return Ok(EmptyTable);
    }
    var labels := Labels(projected.components, |named|, o);
    var clusters := Clusters(labels);
    if clusters == [] {
      return Ok(EmptyTable);
    }
    var rows := CollectClusterRows(named, labels, clusters, o);
    if rows == [] {
      return Ok(EmptyTable);
    }
    var kept := DropNaNCorrelation(rows);
    var selected := SelectPerGroup(kept, ClusterGroups(clusters), tradingDays, o);
    out := Ok(Emit(selected, OutputColumns, MethodName, w));
  }

  /** The loop over clusters, and over each cluster's member pairs, that builds `pair_results`. */
  method CollectClusterRows(named: seq<Column>, labels: seq<int>, clusters: seq<int>, o: Oracles)
    returns (rows: seq<Row>)
    requires |labels| == |named| && SameLength(named)
    ensures rows == OpticsRows(named, labels, clusters, o)
  {
    rows := [];
    var i := 0;
    while i < |clusters|
      invariant 0 <= i <= |clusters|
      invariant rows == OpticsRows(named, labels, clusters[..i], o)
    {
      assert clusters[..i + 1][..i] == clusters[..i];
      var members := Members(named, labels, clusters[i]);
      if |members| >= 2 {
        PairsOfSameLength(members);
        var clusterRows := EvaluatePairs(Pairs(members), Cluster(clusters[i]), o);
        rows := rows + clusterRows;
      }
      i := i + 1;
    }
    assert clusters[..|clusters|] == clusters;
  }

  // ---------------------------------------------------------------------------------------
  // Properties

  /** The selector never aborts except when two `adj_close` columns share a ticker prefix, so the
      sorted names cannot be assigned; every other path returns a frame. */
  lemma OnlyRenameAborts(frame: seq<Column>, w: Window, tradingDays: int, o: Oracles)
    requires SameLength(frame)
    ensures var cols := AdjCloseColumns(frame);
      OpticsSelection(frame, w, tradingDays, o).Fatal? <==> cols != [] && |SortedNames(cols)| != |cols|
    ensures OpticsSelection(frame, w, tradingDays, o).Fatal? ==>
      OpticsSelection(frame, w, tradingDays, o).error == LengthMismatch
  {
  }

  /** A raised projection, and a label vector of noise only, each give an empty frame. */
  lemma EmptyWithoutClusters(frame: seq<Column>, w: Window, tradingDays: int, o: Oracles)
    requires SameLength(frame)
    requires var cols := AdjCloseColumns(frame);
      cols != [] && Rename(cols, SortedNames(cols)).Ok?
    ensures var named := Rename(AdjCloseColumns(frame), SortedNames(AdjCloseColumns(frame))).value;
      var p := o.pca(Samples(named, o));
      p.PcaRaised? || (p.Projected? && forall k :: 0 <= k < |named| ==> o.opticsLabel(p.components, k) == Noise) ==>
        OpticsSelection(frame, w, tradingDays, o) == Ok(EmptyTable)
  {
    var named := Rename(AdjCloseColumns(frame), SortedNames(AdjCloseColumns(frame))).value;
    var p := o.pca(Samples(named, o));
    if p.Projected? && forall k :: 0 <= k < |named| ==> o.opticsLabel(p.components, k) == Noise {
      AllNoiseNoClusters(Labels(p.components, |named|, o));
    }
  }

  /** Labels that are all noise give no cluster. */
  lemma {:induction false} AllNoiseNoClusters(labels: seq<int>)
    requires forall k :: 0 <= k < |labels| ==> labels[k] == Noise
    ensures Clusters(labels) == []
  {
    if labels != [] {
      var init := labels[..|labels| - 1];
      assert forall k :: 0 <= k < |init| ==> init[k] == labels[k];
      AllNoiseNoClusters(init);
    }
  }

  /** A row of one cluster pairs two members of that cluster, at increasing positions. */
  lemma ClusterRowFacts(named: seq<Column>, labels: seq<int>, c: int, x: Row, o: Oracles)
    requires |labels| == |named| && SameLength(named)
    requires x in ClusterRows(named, labels, c, o)
    ensures x.group == Cluster(c)
    ensures exists i, j :: (0 <= i < j < |named| && labels[i] == c && labels[j] == c
      && x.stats.pair == (named[i].name, named[j].name))
  {
    var members := Members(named, labels, c);
    PairsOfSameLength(members);
    var cands := Pairs(members);
    EvaluateAllRows(cands, Cluster(c), o);
    var m :| 0 <= m < |cands| && x.stats.pair == (cands[m].0.name, cands[m].1.name);
    assert cands[m] in cands;
    MemberPairs(named, labels, c, cands[m].0, cands[m].1);
  }

  /** Every row comes from one of the visited clusters. */
  lemma {:induction false} OpticsRowsFrom(named: seq<Column>, labels: seq<int>, clusters: seq<int>, x: Row, o: Oracles)
    requires |labels| == |named| && SameLength(named)
    requires x in OpticsRows(named, labels, clusters, o)
    ensures exists k :: 0 <= k < |clusters| && x in ClusterRows(named, labels, clusters[k], o)
  {
    var n := |clusters| - 1;
    if x !in ClusterRows(named, labels, clusters[n], o) {
      OpticsRowsFrom(named, labels, clusters[..n], x, o);
      var k :| 0 <= k < n && x in ClusterRows(named, labels, clusters[..n][k], o);
      assert clusters[..n][k] == clusters[k];
    }
  }

  /** A row is selected exactly when it was evaluated in one of the clusters, has a correlation,
      and passes the six comparisons against its own cluster's median Spread_STD. */
  lemma SelectedExactly(rows: seq<Row>, clusters: seq<int>, tradingDays: int, o: Oracles)
    ensures forall x :: x in SelectGroups(DropNaNCorrelation(rows), ClusterGroups(clusters), tradingDays, o) <==>
      && x in rows && !x.stats.correlation.NaN?
      && x.group.Cluster? && x.group.id in clusters
      && Passes(x, GroupThreshold(DropNaNCorrelation(rows), x.group, o), tradingDays)
  {
    SelectGroupsExactly(DropNaNCorrelation(rows), ClusterGroups(clusters), tradingDays, o);
  }

  /** Within each cluster the selected rows keep the order in which they were evaluated. */
  lemma SelectedInOrder(rows: seq<Row>, labels: seq<int>, tradingDays: int, o: Oracles)
    ensures var groups := ClusterGroups(Clusters(labels));
      forall g :: IsSubsequence(RowsOf(SelectGroups(DropNaNCorrelation(rows), groups, tradingDays, o), g), rows)
  {
    var groups := ClusterGroups(Clusters(labels));
    var kept := DropNaNCorrelation(rows);
    SelectGroupsInOrder(kept, groups, tradingDays, o);
    FilterIsSubsequence(rows, (x: Row) => !x.stats.correlation.NaN?);
    forall g ensures IsSubsequence(RowsOf(SelectGroups(kept, groups, tradingDays, o), g), rows) {
      SubsequenceTrans(RowsOf(SelectGroups(kept, groups, tradingDays, o), g), kept, rows);
    }
  }

  lemma ClusterGroupsDistinct(clusters: seq<int>)
    requires Ascending(clusters)
    ensures Distinct(ClusterGroups(clusters))
  {
    var groups := ClusterGroups(clusters);
    forall i, j | 0 <= i < j < |groups| ensures groups[i] != groups[j] {
      assert clusters[i] < clusters[j];
    }
  }

  lemma ClusterIndexOrder(clusters: seq<int>, a: nat, b: nat)
    requires Ascending(clusters) && a < |clusters| && b < |clusters| && clusters[a] < clusters[b]
    ensures a < b
  {
  }

  /** The selection lists the clusters in ascending label order: a selected row of a smaller
      label comes before every selected row of a larger one. */
  lemma ClustersSelectedInOrder(rows: seq<Row>, labels: seq<int>, tradingDays: int, o: Oracles)
    ensures var sel := SelectGroups(DropNaNCorrelation(rows), ClusterGroups(Clusters(labels)), tradingDays, o);
      forall p, q ::
        (&& 0 <= p < |sel| && 0 <= q < |sel|
         && sel[p].group.Cluster? && sel[q].group.Cluster?
         && sel[p].group.id < sel[q].group.id) ==> p < q
  {
    var clusters := Clusters(labels);
    var groups := ClusterGroups(clusters);
    var kept := DropNaNCorrelation(rows);
    var sel := SelectGroups(kept, groups, tradingDays, o);
    ClusterGroupsDistinct(clusters);
    forall p, q |
      && 0 <= p < |sel| && 0 <= q < |sel|
      && sel[p].group.Cluster? && sel[q].group.Cluster?
      && sel[p].group.id < sel[q].group.id
      ensures p < q
    {
      var a := SelectedGroupIndex(kept, groups, p, tradingDays, o);
      var b := SelectedGroupIndex(kept, groups, q, tradingDays, o);
      assert groups[a].id == clusters[a] && groups[b].id == clusters[b];
      ClusterIndexOrder(clusters, a, b);
      SelectGroupsBlockOrder(kept, groups, a, b, tradingDays, o);
    }
  }

  /** A selected row pairs two ETFs of one non-noise cluster, the first earlier in name order,
      and passes the mask against that cluster's median. */
  lemma SelectedRow(named: seq<Column>, labels: seq<int>, x: Row, tradingDays: int, o: Oracles)
    requires |labels| == |named| && SameLength(named)
    requires x in SelectGroups(DropNaNCorrelation(OpticsRows(named, labels, Clusters(labels), o)),
                               ClusterGroups(Clusters(labels)), tradingDays, o)
    ensures x.group.Cluster? && x.group.id != Noise
    ensures exists i, j :: (0 <= i < j < |named| && labels[i] == x.group.id && labels[j] == x.group.id
      && x.stats.pair == (named[i].name, named[j].name))
    ensures Passes(x, GroupThreshold(DropNaNCorrelation(OpticsRows(named, labels, Clusters(labels), o)), x.group, o), tradingDays)
  {
    var clusters := Clusters(labels);
    var rows := OpticsRows(named, labels, clusters, o);
    SelectedExactly(rows, clusters, tradingDays, o);
    assert x in rows;
    OpticsRowsFrom(named, labels, clusters, x, o);
    var k :| 0 <= k < |clusters| && x in ClusterRows(named, labels, clusters[k], o);
    ClusterRowFacts(named, labels, clusters[k], x, o);
    assert clusters[k] in clusters;
  }

  /** With sorted names, the earlier position names the smaller ticker. */
  lemma SortedPositions(cols: seq<Column>, i: nat, j: nat)
    requires Rename(cols, SortedNames(cols)).Ok?
    requires i < j < |cols|
    ensures var named := Rename(cols, SortedNames(cols)).value;
      LexLess(named[i].name, named[j].name)
  {
    SortedNamesSpec(cols);
  }

  /** A non-empty result is tagged with the method and window, under the fixed column order, and
      every row keeps the label of a real cluster and names two sorted tickers. */
  lemma Output(frame: seq<Column>, w: Window, tradingDays: int, o: Oracles)
    requires SameLength(frame)
    requires OpticsSelection(frame, w, tradingDays, o).Ok?
    ensures var t := OpticsSelection(frame, w, tradingDays, o).value;
      t != EmptyTable ==>
        && t.columns == OutputColumns
        && forall k :: 0 <= k < |t.records| ==>
          && t.records[k].methodName == MethodName
          && t.records[k].window == w
          && t.records[k].cluster.Some? && t.records[k].cluster.value != Noise
          && LexLess(t.records[k].pair.0, t.records[k].pair.1)
  {
    var t := OpticsSelection(frame, w, tradingDays, o).value;
    if t != EmptyTable {
      var cols := AdjCloseColumns(frame);
      var named := Rename(cols, SortedNames(cols)).value;
      var components := o.pca(Samples(named, o)).components;
      var labels := Labels(components, |named|, o);
      var clusters := Clusters(labels);
      var rows := OpticsRows(named, labels, clusters, o);
      var selected := SelectGroups(DropNaNCorrelation(rows), ClusterGroups(clusters), tradingDays, o);
      assert t == Emit(selected, OutputColumns, MethodName, w);
      forall k | 0 <= k < |t.records|
        ensures t.records[k].cluster.Some? && t.records[k].cluster.value != Noise
        ensures LexLess(t.records[k].pair.0, t.records[k].pair.1)
      {
        var x := selected[k];
        assert x in selected;
        SelectedRow(named, labels, x, tradingDays, o);
        var i, j :| 0 <= i < j < |named| && labels[i] == x.group.id && labels[j] == x.group.id
          && x.stats.pair == (named[i].name, named[j].name);
        SortedPositions(cols, i, j);
        assert t.records[k].pair == x.stats.pair;
      }
    }
  }
}
