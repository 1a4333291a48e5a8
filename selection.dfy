/** The machinery the three pair selectors share: positional naming of the `adj_close` columns,
    i < j candidate pairs, evaluation of a candidate into a result row, the six-way selection
    mask against a group's median spread deviation, and tagging of the selected rows. */
module Selection {
  import opened Wrappers
  import opened Floats
  import opened Oracles
  import opened Strings
  import opened Sequences
  import opened PairStatistics

  /** The lags every selector uses when it recomputes a pair's Hurst map. */
  const SelectorLags: seq<nat> := [20, 50, 100, 200]

  const CorrelationThreshold: real := 0.8
  const PValueThreshold: real := 0.05
  const HurstThreshold: real := 0.5
  const MinHalfLife: real := 5.0

  /** The four boundaries of one walk-forward window, as day numbers. */
  datatype Window = Window(formationStart: int, formationEnd: int, tradingStart: int, tradingEnd: int)

  /** The group a candidate was generated in. */
  datatype Group = WholeWindow | Segment(name: string) | Cluster(id: int)

  /** One evaluated candidate: its statistics with the recomputed Hurst map, the map's mean and
      the group it belongs to. */
  datatype Row = Row(stats: PairStats, averageHurst: Float, group: Group)

  /** One output row of a selector. */
  datatype Record = Record(
    pair: (string, string),
    cluster: Option<int>,
    methodName: string,
    correlation: Float,
    tstat: Float,
    pvalue: Float,
    hurst: LagMap,
    averageHurst: Float,
    halfLife: Float,
    spreadStd: Float,
    window: Window)

  /** A selector's output frame: its column labels and its rows. */
  datatype Table = Table(columns: seq<string>, records: seq<Record>)

  /** `pd.DataFrame()` */
  const EmptyTable: Table := Table([], [])

  // ---------------------------------------------------------------------------------------
  // Frames and names

  /** Every column of a frame has the same number of rows. */
  predicate SameLength(frame: seq<Column>)
  {
    forall i, j :: 0 <= i < |frame| && 0 <= j < |frame| ==> |frame[i].values| == |frame[j].values|
  }

  /** The columns whose label contains `adj_close`, in frame order. */
  function AdjCloseColumns(frame: seq<Column>): (r: seq<Column>)
    ensures forall c :: c in r <==> c in frame && IsInfix("adj_close", c.name)
    ensures SameLength(frame) ==> SameLength(r)
  {
    Filter(frame, (c: Column) => IsInfix("adj_close", c.name))
  }

  /** `col.split('_')[0]` for every column. */
  function Prefixes(cols: seq<Column>): (r: seq<string>)
    ensures |r| == |cols|
    ensures forall i :: 0 <= i < |cols| ==> r[i] == Prefix(cols[i].name, '_')
  {
    seq(|cols|, i requires 0 <= i < |cols| => Prefix(cols[i].name, '_'))
  }

  /** Taking everything before the first separator is the first piece of `split`. */
  lemma {:induction false} PrefixIsFirstPiece(s: string, sep: char)
    ensures Split(s, sep)[0] == Prefix(s, sep)
  {
    if s != [] && s[0] != sep {
      PrefixIsFirstPiece(s[1..], sep);
    }
  }

  /** `sorted(list(set(prefixes)))` */
  function SortedNames(cols: seq<Column>): seq<string>
  {
    Sort(Dedup(Prefixes(cols)))
  }

  /** The sorted names are the distinct prefixes, each once, in ascending order. */
  lemma SortedNamesSpec(cols: seq<Column>)
    ensures StrictlySorted(SortedNames(cols)) && Distinct(SortedNames(cols))
    ensures forall n :: n in SortedNames(cols) <==> n in Prefixes(cols)
    ensures IsSetOrder(SortedNames(cols), Prefixes(cols))
  {
    SortDistinct(Dedup(Prefixes(cols)));
  }

  /** `df.columns = names`: the i-th column takes the i-th name whatever its own label was;
      a list of the wrong length raises. */
  function Rename(cols: seq<Column>, names: seq<string>): (r: Outcome<seq<Column>>)
    ensures r.Fatal? <==> |names| != |cols|
    ensures r.Fatal? ==> r.error == LengthMismatch
    ensures r.Ok? ==> |r.value| == |cols|
    ensures r.Ok? ==> forall i :: 0 <= i < |cols| ==> r.value[i] == Column(names[i], cols[i].values)
  {
    if |names| != |cols| then Fatal(LengthMismatch)
    else Ok(seq(|cols|, i requires 0 <= i < |cols| => Column(names[i], cols[i].values)))
  }

  /** Renaming keeps the rows and only relabels. */
  lemma RenameKeepsLength(cols: seq<Column>, names: seq<string>)
    requires SameLength(cols) && Rename(cols, names).Ok?
    ensures SameLength(Rename(cols, names).value)
  {
  }

  function Names(frame: seq<Column>): (r: seq<string>)
    ensures |r| == |frame|
    ensures forall i :: 0 <= i < |frame| ==> r[i] == frame[i].name
  {
    seq(|frame|, i requires 0 <= i < |frame| => frame[i].name)
  }

  /** `frame[name]`: the first column with that label, if any. */
  function Lookup(frame: seq<Column>, name: string): (r: Option<Column>)
    ensures r.None? <==> name !in Names(frame)
    ensures r.Some? ==> r.value in frame && r.value.name == name
  {
    if frame == [] then None
    else if frame[0].name == name then Some(frame[0])
    else
      assert Names(frame) == [frame[0].name] + Names(frame[1..]);
      Lookup(frame[1..], name)
  }

  /** With distinct labels a lookup finds the column at the label's own position. */
  lemma {:induction false} LookupDistinct(frame: seq<Column>, k: nat)
    requires k < |frame| && Distinct(Names(frame))
    ensures Lookup(frame, frame[k].name) == Some(frame[k])
  {
    if k > 0 {
      assert Names(frame)[0] != Names(frame)[k];
      assert Names(frame[1..]) == Names(frame)[1..];
      LookupDistinct(frame[1..], k - 1);
    }
  }

  // ---------------------------------------------------------------------------------------
  // Candidate pairs

  /** `list(combinations(s, 2))`: every (s[i], s[j]) with i < j, by i and then by j. */
  function Pairs<T>(s: seq<T>): seq<(T, T)>
  {
    if s == [] then []
    else seq(|s| - 1, k requires 0 <= k < |s| - 1 => (s[0], s[1..][k])) + Pairs(s[1..])
  }

  /** There are n(n-1)/2 candidates. */
  lemma {:induction false} PairsCount<T>(s: seq<T>)
    ensures |Pairs(s)| == |s| * (|s| - 1) / 2
  {
    if s != [] {
      PairsCount(s[1..]);
      assert |s| * (|s| - 1) == 2 * (|s| - 1) + (|s| - 1) * (|s| - 2);
    }
  }

  /** A candidate is exactly a pair of elements at increasing positions. */
  lemma {:induction false} PairsMembership<T>(s: seq<T>, x: T, y: T)
    ensures (x, y) in Pairs(s) <==> exists i, j :: 0 <= i < j < |s| && s[i] == x && s[j] == y
  {
    if s != [] {
      var t := s[1..];
      var head := seq(|s| - 1, k requires 0 <= k < |s| - 1 => (s[0], t[k]));
      PairsMembership(t, x, y);
      if (x, y) in Pairs(s) {
        if (x, y) in head {
          var k :| 0 <= k < |head| && head[k] == (x, y);
          assert s[0] == x && s[k + 1] == y;
        } else {
          assert (x, y) in Pairs(t);
          var i, j :| 0 <= i < j < |t| && t[i] == x && t[j] == y;
          assert s[i + 1] == x && s[j + 1] == y;
        }
      }
      if exists i, j :: 0 <= i < j < |s| && s[i] == x && s[j] == y {
        var i, j :| 0 <= i < j < |s| && s[i] == x && s[j] == y;
        if i == 0 {
          assert head[j - 1] == (x, y);
        } else {
          assert t[i - 1] == x && t[j - 1] == y;
        }
      }
    }
  }

  /** Over a strictly ascending list the first component always sorts before the second. */
  lemma SortedPairsAscend(s: seq<string>, x: string, y: string)
    requires StrictlySorted(s) && (x, y) in Pairs(s)
    ensures LexLess(x, y)
  {
    PairsMembership(s, x, y);
  }

  /** Both columns of every candidate have the same number of rows. */
  predicate Comparable(cands: seq<(Column, Column)>)
  {
    forall k :: 0 <= k < |cands| ==> |cands[k].0.values| == |cands[k].1.values|
  }

  lemma {:induction false} PairsOfSameLength(frame: seq<Column>)
    requires SameLength(frame)
    ensures Comparable(Pairs(frame))
  {
    if frame != [] {
      assert SameLength(frame[1..]);
      PairsOfSameLength(frame[1..]);
    }
  }

  /** For every candidate with a bundle, the bundle is recomputed with the selector lags. */
  function MakeRow(stats: PairStats, hurst: LagMap, group: Group): (r: Row)
    requires hurst.Valid()
    ensures r.stats.hurst == hurst && r.averageHurst == Mean(hurst.Values())
  {
    Row(stats.(hurst := hurst), Mean(hurst.Values()), group)
  }

  /** `calculate_hurst_exponent(spread, [20, 50, 100, 200])` */
  function SelectorHurst(spread: seq<Float>, o: Oracles): (m: LagMap)
    ensures m.Valid()
  {
    HurstMap(spread, SelectorLags, o)
  }

  /** The selectors' call of the Hurst loop. */
  method SelectorHurstLoop(spread: seq<Float>, o: Oracles) returns (m: LagMap)
    ensures m == SelectorHurst(spread, o)
  {
    m := CalculateHurstExponent(spread, SelectorLags, o);
  }

  /** The row a candidate contributes: none when the pair statistics are None; otherwise the
      bundle with its Hurst map recomputed on the unaligned spread over the selector lags. */
  function Evaluate(c1: Column, c2: Column, group: Group, o: Oracles): Option<Row>
    requires |c1.values| == |c2.values|
  {
    match CalculatePairStatistics(c1, c2, SignificanceLevel, o)
    case None => None
    case Some(stats) => Some(MakeRow(stats, SelectorHurst(SubSeq(c1.values, c2.values), o), group))
  }

  /** The rows the candidates contribute, in candidate order. */
  function EvaluateAll(cands: seq<(Column, Column)>, group: Group, o: Oracles): seq<Row>
    requires Comparable(cands)
  {
    FlatMap(cands, (c: (Column, Column)) requires |c.0.values| == |c.1.values| => Contribution(c, group, o))
  }

  /** The zero or one rows a single candidate contributes: one exactly when the pair statistics
      exist, tagged with the group and averaging its own Hurst map. */
  function Contribution(cand: (Column, Column), group: Group, o: Oracles): (rs: seq<Row>)
    requires |cand.0.values| == |cand.1.values|
    ensures |rs| <= 1
    ensures rs == [] <==> CalculatePairStatistics(cand.0, cand.1, SignificanceLevel, o).None?
    ensures forall r :: r in rs ==> r.group == group && r.stats.hurst.Valid() && r.averageHurst == Mean(r.stats.hurst.Values())
    ensures forall r :: r in rs ==> r.stats.pair == (cand.0.name, cand.1.name)
  {
    if CalculatePairStatistics(cand.0, cand.1, SignificanceLevel, o).Some? then
      [Evaluate(cand.0, cand.1, group, o).value]
    else []
  }

  lemma EvaluateAllStep(cands: seq<(Column, Column)>, i: nat, group: Group, o: Oracles)
    requires Comparable(cands) && i < |cands|
    ensures EvaluateAll(cands[..i + 1], group, o) == EvaluateAll(cands[..i], group, o) + Contribution(cands[i], group, o)
  {
    assert cands[..i + 1][..i] == cands[..i];
  }

  /** The loop over candidates that builds `pair_results`. */
  method EvaluatePairs(cands: seq<(Column, Column)>, group: Group, o: Oracles) returns (rows: seq<Row>)
    requires Comparable(cands)
    ensures rows == EvaluateAll(cands, group, o)
  {
    rows := [];
    var i := 0;
    while i < |cands|
      invariant 0 <= i <= |cands|
      invariant rows == EvaluateAll(cands[..i], group, o)
    {
      EvaluateAllStep(cands, i, group, o);
      var (c1, c2) := cands[i];
      var stats := CalculatePairStatistics(c1, c2, SignificanceLevel, o);
      if stats.Some? {
        var hurst := SelectorHurstLoop(SubSeq(c1.values, c2.values), o);
        rows := rows + [MakeRow(stats.value, hurst, group)];
      }
      i := i + 1;
    }
    assert cands[..|cands|] == cands;
  }

  /** Each row comes from a candidate that yielded a bundle and carries the group and the mean of
      its own Hurst map; every candidate with a bundle yields its row. */
  lemma EvaluateAllRows(cands: seq<(Column, Column)>, group: Group, o: Oracles)
    requires Comparable(cands)
    ensures |EvaluateAll(cands, group, o)| <= |cands|
    ensures forall r :: r in EvaluateAll(cands, group, o) ==>
      exists k :: 0 <= k < |cands| && r in Contribution(cands[k], group, o)
    ensures forall k, r :: 0 <= k < |cands| && r in Contribution(cands[k], group, o) ==>
      r in EvaluateAll(cands, group, o)
    ensures forall r :: r in EvaluateAll(cands, group, o) ==>
      r.group == group && r.stats.hurst.Valid() && r.averageHurst == Mean(r.stats.hurst.Values())
    ensures forall r :: r in EvaluateAll(cands, group, o) ==>
      exists k :: 0 <= k < |cands| && r.stats.pair == (cands[k].0.name, cands[k].1.name)
  {
    var f := (c: (Column, Column)) requires |c.0.values| == |c.1.values| => Contribution(c, group, o);
    FlatMapMembership(cands, f);
    FlatMapLength(cands, f);
  }

  /** The pair names of an evaluated row are the names of the candidate's columns, in order. */
  lemma EvaluateNamesPair(c1: Column, c2: Column, group: Group, o: Oracles)
    requires |c1.values| == |c2.values|
    requires Evaluate(c1, c2, group, o).Some?
    ensures var r := Evaluate(c1, c2, group, o).value;
      && r.stats.pair == (c1.name, c2.name)
      && r.stats.hurst == SelectorHurst(SubSeq(c1.values, c2.values), o)
      && r.group == group
  {
  }

  // ---------------------------------------------------------------------------------------
  // The selection mask

  /** The six comparisons a row must pass against its group's threshold; NaN fails each. */
  predicate Passes(r: Row, threshold: Float, tradingDays: int)
  {
    && Ge(r.stats.correlation, Fin(CorrelationThreshold))
    && Le(r.stats.pvalue, Fin(PValueThreshold))
    && Le(r.stats.spreadStd, threshold)
    && Lt(r.averageHurst, Fin(HurstThreshold))
    && Ge(r.stats.halfLife, Fin(MinHalfLife))
    && Le(r.stats.halfLife, Fin(tradingDays as real))
  }

  /** A passing row has every statistic defined, a Hurst map with a lag, and the bounds hold. */
  lemma PassesMeans(r: Row, threshold: Float, tradingDays: int)
    requires Passes(r, threshold, tradingDays)
    requires r.stats.hurst.Valid() && r.averageHurst == Mean(r.stats.hurst.Values())
    ensures !threshold.NaN? && !r.stats.spreadStd.NaN?
    ensures r.stats.correlation.PosInf? || (r.stats.correlation.Fin? && r.stats.correlation.v >= CorrelationThreshold)
    ensures r.stats.pvalue.NegInf? || (r.stats.pvalue.Fin? && r.stats.pvalue.v <= PValueThreshold)
    ensures r.stats.halfLife.Fin? && MinHalfLife <= r.stats.halfLife.v <= tradingDays as real
    ensures r.stats.hurst.keys != []
  {
  }

  /** A row whose map has no lag (a spread of at most 20 points) is never selected. */
  lemma ShortSpreadNeverPasses(r: Row, threshold: Float, tradingDays: int)
    requires r.stats.hurst.Valid() && r.stats.hurst.keys == []
    requires r.averageHurst == Mean(r.stats.hurst.Values())
    ensures !Passes(r, threshold, tradingDays)
  {
  }

  function SpreadStds(rows: seq<Row>): (r: seq<Float>)
    ensures |r| == |rows|
    ensures forall i :: 0 <= i < |rows| ==> r[i] == rows[i].stats.spreadStd
  {
    seq(|rows|, i requires 0 <= i < |rows| => rows[i].stats.spreadStd)
  }

  /** `results_df.dropna(subset=['Correlation'])` */
  function DropNaNCorrelation(rows: seq<Row>): (r: seq<Row>)
    ensures forall x :: x in r <==> x in rows && !x.stats.correlation.NaN?
  {
    Filter(rows, (x: Row) => !x.stats.correlation.NaN?)
  }

  /** The rows of one group that pass the mask against that group's median Spread_STD. */
  function SelectGroup(groupRows: seq<Row>, tradingDays: int, o: Oracles): seq<Row>
  {
    var threshold := o.median(SpreadStds(groupRows));
    Filter(groupRows, (x: Row) => Passes(x, threshold, tradingDays))
  }

  /** `results_df[results_df[key] == g]` */
  function RowsOf(rows: seq<Row>, g: Group): (r: seq<Row>)
    ensures forall x :: x in r <==> x in rows && x.group == g
  {
    Filter(rows, (x: Row) => x.group == g)
  }

  /** The median Spread_STD of group `g` among `rows`. */
  function GroupThreshold(rows: seq<Row>, g: Group, o: Oracles): Float
  {
    o.median(SpreadStds(RowsOf(rows, g)))
  }

  /** The concatenation, in group order, of every group's selection. */
  function SelectGroups(rows: seq<Row>, groups: seq<Group>, tradingDays: int, o: Oracles): seq<Row>
  {
    if groups == [] then []
    else
      SelectGroups(rows, groups[..|groups| - 1], tradingDays, o)
        + SelectGroup(RowsOf(rows, groups[|groups| - 1]), tradingDays, o)
  }

  /** The loop over groups that grows `selected_pairs` by `concat`. */
  method SelectPerGroup(rows: seq<Row>, groups: seq<Group>, tradingDays: int, o: Oracles)
    returns (selected: seq<Row>)
    ensures selected == SelectGroups(rows, groups, tradingDays, o)
  {
    selected := [];
    var i := 0;
    while i < |groups|
      invariant 0 <= i <= |groups|
      invariant selected == SelectGroups(rows, groups[..i], tradingDays, o)
    {
      assert groups[..i + 1][..i] == groups[..i];
      var groupRows := RowsOf(rows, groups[i]);
      if groupRows == [] {
        assert SelectGroup(groupRows, tradingDays, o) == [];
      } else {
        var threshold := o.median(SpreadStds(groupRows));
        var filtered := Filter(groupRows, (x: Row) => Passes(x, threshold, tradingDays));
        selected := selected + filtered;
      }
      i := i + 1;
    }
    assert groups[..|groups|] == groups;
  }

  /** A row is selected exactly when it belongs to one of the groups and passes the mask against
      its own group's median. */
  lemma {:induction false} SelectGroupsExactly(rows: seq<Row>, groups: seq<Group>, tradingDays: int, o: Oracles)
    ensures forall x :: x in SelectGroups(rows, groups, tradingDays, o) <==>
      x in rows && x.group in groups && Passes(x, GroupThreshold(rows, x.group, o), tradingDays)
  {
    if groups != [] {
      var init, last := groups[..|groups| - 1], groups[|groups| - 1];
      SelectGroupsExactly(rows, init, tradingDays, o);
      assert groups == init + [last];
      forall x ensures x in SelectGroup(RowsOf(rows, last), tradingDays, o) <==>
        x in rows && x.group == last && Passes(x, GroupThreshold(rows, last, o), tradingDays)
      {
      }
    }
  }

  /** A group's selection lists rows in the order in which they were evaluated. */
  lemma GroupSelectionInOrder(rows: seq<Row>, g: Group, tradingDays: int, o: Oracles)
    ensures IsSubsequence(SelectGroup(RowsOf(rows, g), tradingDays, o), rows)
  {
    var groupRows := RowsOf(rows, g);
    var threshold := o.median(SpreadStds(groupRows));
    FilterIsSubsequence(rows, (x: Row) => x.group == g);
    FilterIsSubsequence(groupRows, (x: Row) => Passes(x, threshold, tradingDays));
    SubsequenceTrans(SelectGroup(groupRows, tradingDays, o), groupRows, rows);
  }

  /** A group that was not visited has no row in the selection. */
  lemma RowsOfUnvisited(rows: seq<Row>, groups: seq<Group>, g: Group, tradingDays: int, o: Oracles)
    requires g !in groups
    ensures RowsOf(SelectGroups(rows, groups, tradingDays, o), g) == []
  {
    var selected := SelectGroups(rows, groups, tradingDays, o);
    SelectGroupsExactly(rows, groups, tradingDays, o);
    forall i | 0 <= i < |selected| ensures selected[i].group != g {
      assert selected[i] in selected;
    }
  }

  /** A group's selection holds rows of that group only. */
  lemma RowsOfGroupSelection(rows: seq<Row>, last: Group, g: Group, tradingDays: int, o: Oracles)
    ensures var block := SelectGroup(RowsOf(rows, last), tradingDays, o);
      RowsOf(block, g) == if g == last then block else []
  {
    var block := SelectGroup(RowsOf(rows, last), tradingDays, o);
    assert forall i :: 0 <= i < |block| ==> block[i] in block;
    if g == last {
      FilterNone(block, (x: Row) => x.group == g);
    }
  }

  /** Visiting one more, new, group keeps every group's selected rows in evaluation order. */
  lemma SelectGroupsInOrderStep(rows: seq<Row>, init: seq<Group>, last: Group, g: Group, tradingDays: int, o: Oracles)
    requires last !in init
    requires IsSubsequence(RowsOf(SelectGroups(rows, init, tradingDays, o), g), rows)
    ensures IsSubsequence(RowsOf(SelectGroups(rows, init + [last], tradingDays, o), g), rows)
  {
    var groups := init + [last];
    assert groups[..|groups| - 1] == init && groups[|groups| - 1] == last;
    var earlier := SelectGroups(rows, init, tradingDays, o);
    var block := SelectGroup(RowsOf(rows, last), tradingDays, o);
    assert SelectGroups(rows, groups, tradingDays, o) == earlier + block;
    FilterConcat(earlier, block, (x: Row) => x.group == g);
    RowsOfGroupSelection(rows, last, g, tradingDays, o);
    if g == last {
      RowsOfUnvisited(rows, init, g, tradingDays, o);
      GroupSelectionInOrder(rows, g, tradingDays, o);
      assert RowsOf(earlier + block, g) == block;
    } else {
      assert RowsOf(earlier + block, g) == RowsOf(earlier, g);
    }
  }

  /** With each group visited once, the selection lists every group's rows in the order in which
      they were evaluated. */
  lemma {:induction false} SelectGroupsInOrder(rows: seq<Row>, groups: seq<Group>, tradingDays: int, o: Oracles)
    requires Distinct(groups)
    ensures forall g :: IsSubsequence(RowsOf(SelectGroups(rows, groups, tradingDays, o), g), rows)
  {
    if groups == [] {
      forall g ensures IsSubsequence(RowsOf([], g), rows) {
        assert SubsequenceAt(RowsOf([], g), rows, []);
      }
    } else {
      var n := |groups| - 1;
      var init, last := groups[..n], groups[n];
      assert forall i :: 0 <= i < n ==> init[i] == groups[i];
      assert groups == init + [last];
      SelectGroupsInOrder(rows, init, tradingDays, o);
      forall g ensures IsSubsequence(RowsOf(SelectGroups(rows, init + [last], tradingDays, o), g), rows) {
        SelectGroupsInOrderStep(rows, init, last, g, tradingDays, o);
      }
    }
  }

  /** Every selected row belongs to one of the listed groups. */
  lemma SelectedGroupIndex(rows: seq<Row>, groups: seq<Group>, k: nat, tradingDays: int, o: Oracles)
    returns (a: nat)
    requires k < |SelectGroups(rows, groups, tradingDays, o)|
    ensures a < |groups| && groups[a] == SelectGroups(rows, groups, tradingDays, o)[k].group
  {
    var sel := SelectGroups(rows, groups, tradingDays, o);
    SelectGroupsExactly(rows, groups, tradingDays, o);
    assert sel[k] in sel;
    a :| a < |groups| && groups[a] == sel[k].group;
  }

  /** Visiting one more, new, group appends a block of rows of that group after rows of other
      groups. */
  lemma SelectGroupsLastBlock(rows: seq<Row>, init: seq<Group>, last: Group, tradingDays: int, o: Oracles)
    requires last !in init
    ensures SelectGroups(rows, init + [last], tradingDays, o)
      == SelectGroups(rows, init, tradingDays, o) + SelectGroup(RowsOf(rows, last), tradingDays, o)
    ensures forall k :: 0 <= k < |SelectGroups(rows, init, tradingDays, o)| ==>
      SelectGroups(rows, init, tradingDays, o)[k].group != last
    ensures forall k :: 0 <= k < |SelectGroup(RowsOf(rows, last), tradingDays, o)| ==>
      SelectGroup(RowsOf(rows, last), tradingDays, o)[k].group == last
  {
    var groups := init + [last];
    assert groups[..|groups| - 1] == init && groups[|groups| - 1] == last;
    var earlier := SelectGroups(rows, init, tradingDays, o);
    var block := SelectGroup(RowsOf(rows, last), tradingDays, o);
    SelectGroupsExactly(rows, init, tradingDays, o);
    forall k | 0 <= k < |earlier| ensures earlier[k].group != last {
      assert earlier[k] in earlier;
    }
    forall k | 0 <= k < |block| ensures block[k].group == last {
      assert block[k] in block;
    }
  }

  /** In a block of other groups' rows followed by a block of one group's rows, a row belongs to
      that group exactly when it lies in the second block. */
  lemma ConcatGroupPosition(earlier: seq<Row>, block: seq<Row>, last: Group, k: nat)
    requires forall i :: 0 <= i < |earlier| ==> earlier[i].group != last
    requires forall i :: 0 <= i < |block| ==> block[i].group == last
    requires k < |earlier + block|
    ensures (earlier + block)[k].group == last <==> k >= |earlier|
    ensures k < |earlier| ==> (earlier + block)[k] == earlier[k]
  {
    if k >= |earlier| {
      assert (earlier + block)[k] == block[k - |earlier|];
    }
  }

  /** The selection lists the groups one after another: with each group visited once, every
      selected row of an earlier group comes before every selected row of a later one. */
  lemma {:induction false} SelectGroupsBlockOrder(rows: seq<Row>, groups: seq<Group>, a: nat, b: nat,
                                                  tradingDays: int, o: Oracles)
    requires Distinct(groups) && a < b < |groups|
    ensures forall p, q ::
      (&& 0 <= p < |SelectGroups(rows, groups, tradingDays, o)|
       && 0 <= q < |SelectGroups(rows, groups, tradingDays, o)|
       && SelectGroups(rows, groups, tradingDays, o)[p].group == groups[a]
       && SelectGroups(rows, groups, tradingDays, o)[q].group == groups[b]) ==> p < q
  {
    var n := |groups| - 1;
    var init, last := groups[..n], groups[n];
    assert groups == init + [last];
    assert last !in init by {
      forall k | 0 <= k < n ensures init[k] != last { assert groups[k] != groups[n]; }
    }
    var earlier := SelectGroups(rows, init, tradingDays, o);
    var block := SelectGroup(RowsOf(rows, last), tradingDays, o);
    var sel := SelectGroups(rows, groups, tradingDays, o);
    SelectGroupsLastBlock(rows, init, last, tradingDays, o);
    assert groups[a] != last;
    if b < n {
      assert Distinct(init) by {
        forall i, j | 0 <= i < j < n ensures init[i] != init[j] { assert groups[i] != groups[j]; }
      }
      SelectGroupsBlockOrder(rows, init, a, b, tradingDays, o);
      assert init[a] == groups[a] && init[b] == groups[b] && groups[b] != last;
      forall p, q | 0 <= p < |sel| && 0 <= q < |sel| && sel[p].group == groups[a] && sel[q].group == groups[b]
        ensures p < q
      {
        ConcatGroupPosition(earlier, block, last, p);
        ConcatGroupPosition(earlier, block, last, q);
      }
    } else {
      forall p, q | 0 <= p < |sel| && 0 <= q < |sel| && sel[p].group == groups[a] && sel[q].group == groups[b]
        ensures p < q
      {
        ConcatGroupPosition(earlier, block, last, p);
        ConcatGroupPosition(earlier, block, last, q);
      }
    }
  }

  // ---------------------------------------------------------------------------------------
  // Tagging

  function ToRecord(r: Row, methodName: string, w: Window): Record
  {
    Record(
      r.stats.pair,
      if r.group.Cluster? then Some(r.group.id) else None,
      methodName,
      r.stats.correlation,
      r.stats.tstat,
      r.stats.pvalue,
      r.stats.hurst,
      r.averageHurst,
      r.stats.halfLife,
      r.stats.spreadStd,
      w)
  }

  /** The selector's return value: an empty frame when nothing was selected, otherwise every
      selected row tagged with the method and the window, under the given column order. */
  function Emit(selected: seq<Row>, columns: seq<string>, methodName: string, w: Window): (t: Table)
    ensures t == EmptyTable <==> selected == []
    ensures selected != [] ==> t.columns == columns && |t.records| == |selected|
    ensures forall i :: 0 <= i < |t.records| ==>
      && t.records[i].pair == selected[i].stats.pair
      && t.records[i].methodName == methodName
      && t.records[i].window == w
      && t.records[i].averageHurst == selected[i].averageHurst
      && t.records[i].hurst == selected[i].stats.hurst
      && t.records[i].correlation == selected[i].stats.correlation
      && t.records[i].tstat == selected[i].stats.tstat
      && t.records[i].pvalue == selected[i].stats.pvalue
      && t.records[i].halfLife == selected[i].stats.halfLife
      && t.records[i].spreadStd == selected[i].stats.spreadStd
      && (selected[i].group.Cluster? ==> t.records[i].cluster == Some(selected[i].group.id))
      && (!selected[i].group.Cluster? ==> t.records[i].cluster == None)
  {
    if selected == [] then EmptyTable
    else Table(columns, seq(|selected|, i requires 0 <= i < |selected| => ToRecord(selected[i], methodName, w)))
  }
}
