/** The post-selection filter: the `Pair` text of the saved table is normalised and the rows that
    meet fixed "best pair" thresholds are kept. */
module Filtering {
  import opened Wrappers
  import opened Floats
  import opened Strings
  import opened Sequences
  import opened PairStatistics
  import opened Selection

  const BestCorrelation: real := 0.9
  const BestPValue: real := -3.5
  const BestHurst: real := 0.5
  const BestMinHalfLife: real := 30.0
  const BestMaxHalfLife: real := 60.0

  // ---------------------------------------------------------------------------------------
  // The saved table as read back

  /** A cell of the `Hurst_Exponent` column once the table has been written and read back: a
      number, or the text a per-lag dictionary is written as. */
  datatype Cell = Number(x: Float) | MapText(m: LagMap)

  /** One row of the saved table, with `Pair` as the text it was written as. */
  datatype CsvRow = CsvRow(
    pair: string,
    cluster: Option<int>,
    methodName: string,
    correlation: Float,
    tstat: Float,
    pvalue: Float,
    hurst: Cell,
    averageHurst: Float,
    halfLife: Float,
    spreadStd: Float,
    window: Window)

  /** `repr(a)` for a name without quotes or backslashes. */
  function Quoted(a: string): string
  {
    "'" + a + "'"
  }

  /** `str((a, b))` for two names without quotes or backslashes. */
  function TupleText(a: string, b: string): string
  {
    "(" + Quoted(a) + ", " + Quoted(b) + ")"
  }

  /** The row a selected record becomes in the saved table: the pair tuple as its text and the
      per-lag Hurst dictionary as its text. */
  function WrittenRow(r: Record): CsvRow
  {
    CsvRow(TupleText(r.pair.0, r.pair.1), r.cluster, r.methodName, r.correlation, r.tstat, r.pvalue,
           MapText(r.hurst), r.averageHurst, r.halfLife, r.spreadStd, r.window)
  }

  function WrittenRows(records: seq<Record>): (rows: seq<CsvRow>)
    ensures |rows| == |records|
    ensures forall i :: 0 <= i < |records| ==> rows[i] == WrittenRow(records[i])
  {
    seq(|records|, i requires 0 <= i < |records| => WrittenRow(records[i]))
  }

  // ---------------------------------------------------------------------------------------
  // Normalising the pair text

  /** The pair text with every `(`, `)` and `'` removed. */
  function Clean(s: string): (r: string)
    ensures '(' !in r && ')' !in r && '\'' !in r
    ensures forall x :: x in r ==> x in s
  {
    var a := RemoveChar(s, '(');
    var b := RemoveChar(a, ')');
    RemoveCharFacts(s, '(');
    RemoveCharFacts(a, ')');
    RemoveCharFacts(b, '\'');
    RemoveChar(b, '\'')
  }

  /** `'-'.join(sorted(x.replace("(", "").replace(")", "").replace("'", "").split(',')))` */
  function Normalise(s: string): string
  {
    Join(Sort(Split(Clean(s), ',')), '-')
  }

  /** Every character of a piece of a split occurs in the text that was split. */
  lemma {:induction false} SplitChars(s: string, sep: char)
    ensures forall i, x :: 0 <= i < |Split(s, sep)| && x in Split(s, sep)[i] ==> x in s
  {
    if s != [] {
      SplitChars(s[1..], sep);
      var rest, r := Split(s[1..], sep), Split(s, sep);
      assert s == [s[0]] + s[1..];
      forall i, x | 0 <= i < |r| && x in r[i] ensures x in s {
        if s[0] == sep {
          if i > 0 {
            assert r[i] == rest[i - 1];
          }
        } else if i == 0 {
          assert x in [s[0]] + rest[0];
        } else {
          assert r[i] == rest[i];
        }
      }
    }
  }

  /** The pieces of the cleaned text, in sorted order. */
  lemma PiecesAvoid(s: string, c: char)
    requires c !in Clean(s) || c == ','
    ensures forall i :: 0 <= i < |Sort(Split(Clean(s), ','))| ==> c !in Sort(Split(Clean(s), ','))[i]
  {
    var pieces := Split(Clean(s), ',');
    var sorted := Sort(pieces);
    SplitChars(Clean(s), ',');
    forall i | 0 <= i < |sorted| ensures c !in sorted[i] {
      assert sorted[i] in multiset(sorted);
      assert sorted[i] in pieces;
      var k :| 0 <= k < |pieces| && pieces[k] == sorted[i];
    }
  }

  /** The normalised pair holds none of the characters of the tuple text. */
  lemma NormaliseAvoids(s: string)
    ensures '(' !in Normalise(s) && ')' !in Normalise(s) && '\'' !in Normalise(s) && ',' !in Normalise(s)
  {
    var sorted := Sort(Split(Clean(s), ','));
    PiecesAvoid(s, '(');
    JoinAvoids(sorted, '-', '(');
    PiecesAvoid(s, ')');
    JoinAvoids(sorted, '-', ')');
    PiecesAvoid(s, '\'');
    JoinAvoids(sorted, '-', '\'');
    PiecesAvoid(s, ',');
    JoinAvoids(sorted, '-', ',');
  }

  /** When the text has no `-`, the `-`-separated pieces of the result are the comma-separated
      pieces of the cleaned text, each as often, in ascending order. */
  lemma NormalisePiecesSorted(s: string)
    requires '-' !in s
    ensures Sorted(Split(Normalise(s), '-'))
    ensures multiset(Split(Normalise(s), '-')) == multiset(Split(Clean(s), ','))
  {
    var pieces := Split(Clean(s), ',');
    var sorted := Sort(pieces);
    assert '-' !in Clean(s);
    PiecesAvoid(s, '-');
    assert |sorted| == |multiset(sorted)| == |multiset(pieces)| == |pieces| >= 1;
    SplitJoin(sorted, '-');
  }

  /** Normalising a normalised pair changes nothing. */
  lemma NormaliseIdempotent(s: string)
    ensures Normalise(Normalise(s)) == Normalise(s)
  {
    var n := Normalise(s);
    NormaliseAvoids(s);
    RemoveCharFacts(n, '(');
    RemoveCharFacts(n, ')');
    RemoveCharFacts(n, '\'');
    assert Clean(n) == n;
    SplitNoSeparator(n, ',');
    assert Sort([n]) == Insert(n, Sort([])) == [n];
  }

  /** A name as written by the selectors: non-empty, every character printable ASCII other than
      the space (so that `repr` writes it unescaped), and none of the characters that the tuple
      text or the normalisation treats specially. */
  predicate PlainName(a: string)
  {
    && a != []
    && forall k :: 0 <= k < |a| ==> ' ' < a[k] <= '~' && a[k] !in "(),'\\"
  }

  lemma CleanPlain(a: string)
    requires PlainName(a)
    ensures Clean(a) == a
  {
    assert '(' !in a && ')' !in a && '\'' !in a;
    RemoveCharFacts(a, '(');
    RemoveCharFacts(a, ')');
    RemoveCharFacts(a, '\'');
  }

  lemma CleanConcat(s: string, t: string)
    ensures Clean(s + t) == Clean(s) + Clean(t)
  {
    RemoveCharConcat(s, t, '(');
    RemoveCharConcat(RemoveChar(s, '('), RemoveChar(t, '('), ')');
    RemoveCharConcat(RemoveChar(RemoveChar(s, '('), ')'), RemoveChar(RemoveChar(t, '('), ')'), '\'');
  }

  /** Cleaning one character removes it exactly when it is tuple punctuation. */
  lemma CleanChar(x: char)
    ensures Clean([x]) == if x == '(' || x == ')' || x == '\'' then [] else [x]
  {
    RemoveCharSingle(x, '(');
    RemoveCharSingle(x, ')');
    RemoveCharSingle(x, '\'');
    assert RemoveChar([], ')') == [] && RemoveChar([], '\'') == [];
  }

  lemma CleanQuoted(a: string)
    requires PlainName(a)
    ensures Clean(Quoted(a)) == a
  {
    CleanPlain(a);
    CleanChar('\'');
    assert "'" == ['\''];
    CleanConcat("'", a);
    CleanConcat("'" + a, "'");
  }

  lemma CleanPunctuation()
    ensures Clean("(") == [] && Clean(")") == [] && Clean(", ") == ", "
  {
    CleanChar('(');
    CleanChar(')');
    assert "(" == ['('] && ")" == [')'];
    CleanChar(',');
    CleanChar(' ');
    assert ", " == [','] + [' '];
    CleanConcat([','], [' ']);
  }

  /** Removing the tuple punctuation leaves the two names around `", "`. */
  lemma CleanTuple(a: string, b: string)
    requires PlainName(a) && PlainName(b)
    ensures Clean(TupleText(a, b)) == a + ", " + b
  {
    CleanQuoted(a);
    CleanQuoted(b);
    CleanPunctuation();
    var t1 := "(" + Quoted(a);
    var t2 := t1 + ", ";
    var t3 := t2 + Quoted(b);
    assert TupleText(a, b) == t3 + ")";
    CleanConcat("(", Quoted(a));
    assert Clean(t1) == a;
    CleanConcat(t1, ", ");
    CleanConcat(t2, Quoted(b));
    CleanConcat(t3, ")");
  }

  /** Sorting two names where the second sorts first swaps them. */
  lemma SortSwap(a: string, b: string)
    requires LexLess(b, a)
    ensures Sort([a, b]) == [b, a]
  {
    assert [a, b][..1] == [a];
    assert [a][..0] == [];
    assert Sort([a]) == [a];
  }

  /** The tuple text of two plain names normalises to the second name after a space, a dash and
      the first name: the leading space sorts before every plain name, so the pair is reversed. */
  lemma NormaliseTuple(a: string, b: string)
    requires PlainName(a) && PlainName(b)
    ensures Normalise(TupleText(a, b)) == " " + b + "-" + a
  {
    CleanTuple(a, b);
    var second := " " + b;
    assert ',' !in a && ',' !in second;
    assert a + ", " + b == a + [','] + second;
    SplitAfterPiece(a, second, ',');
    SplitNoSeparator(second, ',');
    assert Split(Clean(TupleText(a, b)), ',') == [a, second];
    assert LexLess(second, a);
    SortSwap(a, second);
    assert Join([second, a], '-') == second + "-" + a;
  }

  /** The tuple `('A', 'B')` is written as `('A', 'B')`. */
  lemma TupleTextExample()
    ensures TupleText("A", "B") == "('A', 'B')"
  {
  }

  /** `('A', 'B')` becomes ` B-A`. */
  lemma NormaliseExample()
    ensures Normalise(TupleText("A", "B")) == " B-A"
  {
    assert PlainName("A") && PlainName("B");
    NormaliseTuple("A", "B");
    assert " " + "B" + "-" + "A" == " B-A";
  }

  /** `selected_pairs_df['Pair'] = ...apply(...)`: every row with its pair text normalised. */
  function NormalisePairs(rows: seq<CsvRow>): (r: seq<CsvRow>)
    ensures |r| == |rows|
    ensures forall i :: 0 <= i < |rows| ==> r[i] == rows[i].(pair := Normalise(rows[i].pair))
  {
    seq(|rows|, i requires 0 <= i < |rows| => rows[i].(pair := Normalise(rows[i].pair)))
  }

  // ---------------------------------------------------------------------------------------
  // The threshold mask

  /** The five comparisons of the mask, with `hurst` standing for the Hurst column compared. */
  predicate Best(x: CsvRow, hurst: Float)
  {
    && Ge(x.correlation, Fin(BestCorrelation))
    && Le(x.pvalue, Fin(BestPValue))
    && Lt(hurst, Fin(BestHurst))
    && Ge(x.halfLife, Fin(BestMinHalfLife))
    && Le(x.halfLife, Fin(BestMaxHalfLife))
  }

  /** The mask on the `Hurst_Exponent` column as written, where every cell is a number. */
  predicate BestAsWritten(x: CsvRow)
  {
    x.hurst.Number? && Best(x, x.hurst.x)
  }

  predicate HasMapText(rows: seq<CsvRow>)
  {
    exists i :: 0 <= i < |rows| && rows[i].hurst.MapText?
  }

  /** `filter_best_pairs` as written. A saved table without rows is the column-less frame the run
      starts from, which cannot be read back with a `Pair` column, so the filter aborts; otherwise
      comparing `Hurst_Exponent` with 0.5 raises once any cell of that column holds dictionary
      text, and when none does the rows that meet all five thresholds are kept. */
  function FilterBestPairs(rows: seq<CsvRow>): (r: Outcome<seq<CsvRow>>)
    ensures r.Fatal? <==> rows == [] || HasMapText(rows)
    ensures r.Fatal? ==> r.error == (if rows == [] then MissingPairColumn else InvalidComparison)
    ensures r.Ok? ==> forall x :: x in r.value <==> x in NormalisePairs(rows) && BestAsWritten(x)
  {
    if rows == [] then Fatal(MissingPairColumn)
    else if HasMapText(rows) then Fatal(InvalidComparison)
    else Ok(Filter(NormalisePairs(rows), BestAsWritten))
  }

  /** The filter with the Hurst threshold applied to `Average_Hurst`, the mean of the per-lag
      map, which is the column the selectors themselves compare with 0.5; reading back a table
      without rows still fails as in `FilterBestPairs`. */
  function FilterBestPairsCorrected(rows: seq<CsvRow>): (r: Outcome<seq<CsvRow>>)
    ensures r.Fatal? <==> rows == []
    ensures r.Fatal? ==> r.error == MissingPairColumn
    ensures r.Ok? ==> forall x :: x in r.value <==> x in NormalisePairs(rows) && Best(x, x.averageHurst)
  {
    if rows == [] then Fatal(MissingPairColumn)
    else Ok(Filter(NormalisePairs(rows), (x: CsvRow) => Best(x, x.averageHurst)))
  }

  /** Every table the run saves makes the filter as written abort: the empty one because it
      cannot be read back, any other because its Hurst cells are dictionary text. */
  lemma AsWrittenAbortsOnSavedTable(records: seq<Record>)
    ensures FilterBestPairs(WrittenRows(records)).Fatal?
    ensures FilterBestPairs(WrittenRows(records)).error ==
      (if records == [] then MissingPairColumn else InvalidComparison)
  {
    if records != [] {
      assert WrittenRows(records)[0].hurst.MapText?;
    }
  }

  /** A kept row meets every threshold, with its pair normalised and the rest of its fields as read. */
  lemma KeptRow(rows: seq<CsvRow>, x: CsvRow)
    requires FilterBestPairsCorrected(rows).Ok? && x in FilterBestPairsCorrected(rows).value
    ensures exists i :: 0 <= i < |rows| && x == rows[i].(pair := Normalise(rows[i].pair))
    ensures x.correlation.Fin? || x.correlation.PosInf?
    ensures x.halfLife.Fin? && BestMinHalfLife <= x.halfLife.v <= BestMaxHalfLife
    ensures Lt(x.averageHurst, Fin(BestHurst))
    ensures Ge(x.correlation, Fin(BestCorrelation)) && Le(x.pvalue, Fin(BestPValue))
  {
    var n := NormalisePairs(rows);
    var k :| 0 <= k < |n| && n[k] == x;
  }

  /** With a p-value threshold of -3.5 no row with a non-negative p-value is kept. */
  lemma NonNegativePValueNeverKept(rows: seq<CsvRow>, x: CsvRow)
    requires x in NormalisePairs(rows) && Ge(x.pvalue, Fin(0.0))
    ensures x !in FilterBestPairsCorrected(rows).value
    ensures FilterBestPairs(rows).Ok? ==> x !in FilterBestPairs(rows).value
  {
    PValueAboveThreshold(x.pvalue);
  }

  /** A non-negative p-value is never at most the threshold. */
  lemma PValueAboveThreshold(v: Float)
    requires Ge(v, Fin(0.0))
    ensures !Le(v, Fin(BestPValue))
  {
  }

  /** The kept rows are the normalised rows read at increasing positions. */
  lemma KeptInOrder(rows: seq<CsvRow>)
    requires rows != []
    ensures SubsequenceAt(FilterBestPairsCorrected(rows).value, NormalisePairs(rows),
                          FilterIndices(NormalisePairs(rows), (x: CsvRow) => Best(x, x.averageHurst)))
  {
    FilterPreservesOrder(NormalisePairs(rows), (x: CsvRow) => Best(x, x.averageHurst));
  }

  /** A saved record whose names are plain comes out of the filter with its pair reversed as
      `" " + second + "-" + first`. */
  lemma SavedPairText(r: Record)
    requires PlainName(r.pair.0) && PlainName(r.pair.1)
    ensures NormalisePairs([WrittenRow(r)])[0].pair == " " + r.pair.1 + "-" + r.pair.0
  {
    NormaliseTuple(r.pair.0, r.pair.1);
  }
}
