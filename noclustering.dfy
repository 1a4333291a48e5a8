/** Pair selection without clustering: every pair of ETFs in the window is a candidate and the
    whole window is one group. */
module NoClustering {
  import opened Wrappers
  import opened Floats
  import opened Oracles
  import opened Strings
  import opened Sequences
  import opened PairStatistics
  import opened Selection

  const MethodName: string := "No Clustering"

  const OutputColumns: seq<string> := [
    "Pair", "Method", "Correlation", "Cointegration_TStats", "Cointegration_PValue",
    "Hurst_Exponent", "Average_Hurst", "Half_Life", "Spread_STD",
    "Formation_Start", "Formation_End", "Trading_Start", "Trading_End"]

  /** The rows kept from the whole window: NaN correlations dropped, then the six-way mask against
      the median Spread_STD of the kept rows. */
  function SelectWholeWindow(rows: seq<Row>, tradingDays: int, o: Oracles): seq<Row>
  {
    SelectGroup(DropNaNCorrelation(rows), tradingDays, o)
  }

  /** The rows of every candidate pair of the renamed frame. */
  function WholeWindowRows(named: seq<Column>, o: Oracles): seq<Row>
    requires SameLength(named)
  {
    PairsOfSameLength(named);
    EvaluateAll(Pairs(named), WholeWindow, o)
  }

  /** `select_pairs_no_clustering` */
  function NoClusteringSelection(frame: seq<Column>, w: Window, tradingDays: int, o: Oracles): Outcome<Table>
    requires SameLength(frame)
  {
    var cols := AdjCloseColumns(frame);
    if cols == [] then Ok(EmptyTable)
    else
      match Rename(cols, SortedNames(cols))
      case Fatal(e) => Fatal(e)
      case Ok(named) =>
        var rows := WholeWindowRows(named, o);
        if rows == [] then Ok(EmptyTable)
        else Ok(Emit(SelectWholeWindow(rows, tradingDays, o), OutputColumns, MethodName, w))
  }

  method SelectPairsNoClustering(frame: seq<Column>, w: Window, tradingDays: int, o: Oracles)
    returns (out: Outcome<Table>)
    requires SameLength(frame)
    ensures out == NoClusteringSelection(frame, w, tradingDays, o)
  {
    var cols := AdjCloseColumns(frame);
    var names := SortedNames(cols);
    if cols == [] {
      return Ok(EmptyTable);
    }
    var renamed := Rename(cols, names);
    if renamed.Fatal? {
      return Fatal(renamed.error);
    }
    var named := renamed.value;
    PairsOfSameLength(named);
    var rows := EvaluatePairs(Pairs(named), WholeWindow, o);
    if rows == [] {
      return Ok(EmptyTable);
    }
    var kept := DropNaNCorrelation(rows);
    var threshold := o.median(SpreadStds(kept));
    var selected := Filter(kept, (x: Row) => Passes(x, threshold, tradingDays));
    if selected == [] {
      return Ok(EmptyTable);
    }
    out := Ok(Emit(selected, OutputColumns, MethodName, w));
  }

  /** The candidates are the n(n-1)/2 pairs of renamed columns at increasing positions; each names
      two distinct prefixes, the first sorting before the second, and holds the data of the
      columns at those positions. */
  lemma Candidates(cols: seq<Column>)
    requires Rename(cols, SortedNames(cols)).Ok?
    ensures var named := Rename(cols, SortedNames(cols)).value;
      && |Pairs(named)| == |cols| * (|cols| - 1) / 2
      && forall c1, c2 :: (c1, c2) in Pairs(named) ==>
        && LexLess(c1.name, c2.name)
        && c1.name in Prefixes(cols) && c2.name in Prefixes(cols)
        && exists i, j :: 0 <= i < j < |cols| && c1.values == cols[i].values && c2.values == cols[j].values
  {
    var names := SortedNames(cols);
    var named := Rename(cols, names).value;
    SortedNamesSpec(cols);
    PairsCount(named);
    forall c1, c2 | (c1, c2) in Pairs(named)
      ensures LexLess(c1.name, c2.name) && c1.name in Prefixes(cols) && c2.name in Prefixes(cols)
      ensures exists i, j :: 0 <= i < j < |cols| && c1.values == cols[i].values && c2.values == cols[j].values
    {
      PairsMembership(named, c1, c2);
      var i, j :| 0 <= i < j < |named| && named[i] == c1 && named[j] == c2;
      assert names[i] == c1.name && names[j] == c2.name;
    }
  }

  /** A row is selected exactly when it was evaluated, has a correlation, and passes the six
      comparisons against the median Spread_STD of all rows with a correlation. */
  lemma SelectedExactly(rows: seq<Row>, tradingDays: int, o: Oracles)
    ensures forall x :: x in SelectWholeWindow(rows, tradingDays, o) <==>
      && x in rows && !x.stats.correlation.NaN?
      && Passes(x, o.median(SpreadStds(DropNaNCorrelation(rows))), tradingDays)
  {
  }

  /** The selected rows keep the order in which they were evaluated, through both masks. */
  lemma SelectedInOrder(rows: seq<Row>, tradingDays: int, o: Oracles)
    ensures IsSubsequence(DropNaNCorrelation(rows), rows)
    ensures IsSubsequence(SelectWholeWindow(rows, tradingDays, o), DropNaNCorrelation(rows))
    ensures IsSubsequence(SelectWholeWindow(rows, tradingDays, o), rows)
  {
    var kept := DropNaNCorrelation(rows);
    var threshold := o.median(SpreadStds(kept));
    FilterIsSubsequence(rows, (x: Row) => !x.stats.correlation.NaN?);
    FilterIsSubsequence(kept, (x: Row) => Passes(x, threshold, tradingDays));
    SubsequenceTrans(SelectWholeWindow(rows, tradingDays, o), kept, rows);
  }

  /** An evaluated row names two sorted prefixes and averages its own Hurst map. */
  lemma WholeWindowRowFacts(cols: seq<Column>, x: Row, o: Oracles)
    requires SameLength(cols) && Rename(cols, SortedNames(cols)).Ok?
    requires x in WholeWindowRows(Rename(cols, SortedNames(cols)).value, o)
    ensures LexLess(x.stats.pair.0, x.stats.pair.1)
    ensures x.stats.hurst.Valid() && x.averageHurst == Mean(x.stats.hurst.Values())
    ensures x.group == WholeWindow
  {
    var named := Rename(cols, SortedNames(cols)).value;
    PairsOfSameLength(named);
    var cands := Pairs(named);
    EvaluateAllRows(cands, WholeWindow, o);
    var m :| 0 <= m < |cands| && x.stats.pair == (cands[m].0.name, cands[m].1.name);
    assert cands[m] in cands;
    CandidateAscends(cols, cands[m].0, cands[m].1);
  }

  /** A selected row names two sorted prefixes, belongs to the whole window, and has a correlation
      and a half-life within the bounds of the mask. */
  lemma SelectedRow(cols: seq<Column>, x: Row, tradingDays: int, o: Oracles)
    requires SameLength(cols) && Rename(cols, SortedNames(cols)).Ok?
    requires x in SelectWholeWindow(WholeWindowRows(Rename(cols, SortedNames(cols)).value, o), tradingDays, o)
    ensures LexLess(x.stats.pair.0, x.stats.pair.1)
    ensures !x.stats.correlation.NaN?
    ensures x.stats.halfLife.Fin?
    ensures MinHalfLife <= x.stats.halfLife.v <= tradingDays as real
    ensures x.group == WholeWindow
  {
    var named := Rename(cols, SortedNames(cols)).value;
    var rows := WholeWindowRows(named, o);
    SelectedExactly(rows, tradingDays, o);
    WholeWindowRowFacts(cols, x, o);
    PassesMeans(x, o.median(SpreadStds(DropNaNCorrelation(rows))), tradingDays);
  }

  lemma CandidateAscends(cols: seq<Column>, c1: Column, c2: Column)
    requires Rename(cols, SortedNames(cols)).Ok?
    requires (c1, c2) in Pairs(Rename(cols, SortedNames(cols)).value)
    ensures LexLess(c1.name, c2.name)
  {
    var names := SortedNames(cols);
    var named := Rename(cols, names).value;
    SortedNamesSpec(cols);
    PairsMembership(named, c1, c2);
    var i, j :| 0 <= i < j < |named| && named[i] == c1 && named[j] == c2;
    assert names[i] == c1.name && names[j] == c2.name;
  }

  /** A non-empty result holds only rows that pass the mask, tagged with the method name and the
      window, under the fixed column order; a pair names two sorted distinct prefixes. */
  lemma Output(frame: seq<Column>, w: Window, tradingDays: int, o: Oracles)
    requires SameLength(frame)
    requires NoClusteringSelection(frame, w, tradingDays, o).Ok?
    ensures var t := NoClusteringSelection(frame, w, tradingDays, o).value;
      t != EmptyTable ==>
        && t.columns == OutputColumns
        && forall k :: 0 <= k < |t.records| ==>
          && t.records[k].methodName == MethodName
          && t.records[k].window == w
          && t.records[k].cluster == None
          && LexLess(t.records[k].pair.0, t.records[k].pair.1)
          && !t.records[k].correlation.NaN?
          && t.records[k].halfLife.Fin?
          && MinHalfLife <= t.records[k].halfLife.v <= tradingDays as real
  {
    var t := NoClusteringSelection(frame, w, tradingDays, o).value;
    var cols := AdjCloseColumns(frame);
    if t != EmptyTable {
      var named := Rename(cols, SortedNames(cols)).value;
      assert t == Emit(SelectWholeWindow(WholeWindowRows(named, o), tradingDays, o), OutputColumns, MethodName, w);
      EmittedRecords(cols, w, tradingDays, o);
    }
  }

  /** Every emitted record names two sorted prefixes, carries no cluster, and has a correlation
      and a half-life within the bounds of the mask. */
  lemma EmittedRecords(cols: seq<Column>, w: Window, tradingDays: int, o: Oracles)
    requires SameLength(cols) && Rename(cols, SortedNames(cols)).Ok?
    ensures var named := Rename(cols, SortedNames(cols)).value;
      var t := Emit(SelectWholeWindow(WholeWindowRows(named, o), tradingDays, o), OutputColumns, MethodName, w);
      forall k :: 0 <= k < |t.records| ==>
        && t.records[k].methodName == MethodName
        && t.records[k].window == w
        && t.records[k].cluster == None
        && LexLess(t.records[k].pair.0, t.records[k].pair.1)
        && !t.records[k].correlation.NaN?
        && t.records[k].halfLife.Fin?
        && MinHalfLife <= t.records[k].halfLife.v <= tradingDays as real
  {
    var named := Rename(cols, SortedNames(cols)).value;
    var selected := SelectWholeWindow(WholeWindowRows(named, o), tradingDays, o);
    var t := Emit(selected, OutputColumns, MethodName, w);
    forall k | 0 <= k < |t.records|
      ensures LexLess(t.records[k].pair.0, t.records[k].pair.1)
      ensures !t.records[k].correlation.NaN? && t.records[k].halfLife.Fin?
      ensures MinHalfLife <= t.records[k].halfLife.v <= tradingDays as real
      ensures t.records[k].cluster == None
    {
      var x := selected[k];
      assert x in selected;
      SelectedRow(cols, x, tradingDays, o);
    }
  }
}
