/** Cleaning of the downloaded price panel: duplicate dates dropped, gaps filled forward then
    backward, the adjusted-close columns extracted, and columns with missing or constant data
    removed, followed by the two final checks that abort the preprocessing. */
module Preprocess {
  import opened Wrappers
  import opened Floats
  import opened Strings
  import opened Sequences
  import opened PairStatistics
  import opened Selection

  const AdjCloseSuffix: string := "_adj_close"

  /** The panel: one date per row and the columns over those rows. */
  datatype Frame = Frame(dates: seq<int>, columns: seq<Column>)

  predicate WellFormed(f: Frame)
  {
    forall c :: 0 <= c < |f.columns| ==> |f.columns[c].values| == |f.dates|
  }

  // ---------------------------------------------------------------------------------------
  // Duplicate dates

  /** Row `t` holds the first occurrence of its date. */
  predicate FirstOccurrence(dates: seq<int>, t: nat)
  {
    t < |dates| && forall s :: 0 <= s < t ==> dates[s] != dates[t]
  }

  /** The rows `~df.index.duplicated(keep='first')` keeps, in order. */
  function FirstRows(dates: seq<int>): (r: seq<nat>)
    ensures forall k :: 0 <= k < |r| ==> r[k] < |dates| && FirstOccurrence(dates, r[k])
    ensures forall t: nat :: FirstOccurrence(dates, t) ==> t in r
    ensures forall k, l :: 0 <= k < l < |r| ==> r[k] < r[l]
  {
    Positions(|dates|, (t: nat) => FirstOccurrence(dates, t))
  }

  /** `df[~df.index.duplicated(keep='first')]` */
  function DropDuplicateDates(f: Frame): (r: Frame)
    requires WellFormed(f)
    ensures WellFormed(r) && |r.columns| == |f.columns|
    ensures forall c :: 0 <= c < |f.columns| ==> r.columns[c].name == f.columns[c].name
  {
    var rows := FirstRows(f.dates);
    Frame(Keep(f.dates, rows),
          seq(|f.columns|, c requires 0 <= c < |f.columns| => Column(f.columns[c].name, Keep(f.columns[c].values, rows))))
  }

  /** Some row repeats the date of an earlier one. */
  lemma EarliestOccurrence(dates: seq<int>, t: nat)
    requires t < |dates|
    ensures exists s: nat :: s <= t && FirstOccurrence(dates, s) && dates[s] == dates[t]
    decreases t
  {
    if !FirstOccurrence(dates, t) {
      var s :| 0 <= s < t && dates[s] == dates[t];
      EarliestOccurrence(dates, s);
    }
  }

  /** Dropping duplicates leaves every date exactly once, keeps the rows in their original
      order, and keeps of each date the row where it first occurs. */
  lemma DropDuplicateDatesFacts(f: Frame)
    requires WellFormed(f)
    ensures var r, rows := DropDuplicateDates(f), FirstRows(f.dates);
      && Distinct(r.dates)
      && (forall d :: d in r.dates <==> d in f.dates)
      && SubsequenceAt(r.dates, f.dates, rows)
      && (forall c, k :: 0 <= c < |f.columns| && 0 <= k < |rows| ==> r.columns[c].values[k] == f.columns[c].values[rows[k]])
      && (forall k :: 0 <= k < |rows| ==> FirstOccurrence(f.dates, rows[k]))
  {
    var r, rows := DropDuplicateDates(f), FirstRows(f.dates);
    forall k, l | 0 <= k < l < |r.dates| ensures r.dates[k] != r.dates[l] {
      assert FirstOccurrence(f.dates, rows[l]);
    }
    forall d | d in f.dates ensures d in r.dates {
      var t :| 0 <= t < |f.dates| && f.dates[t] == d;
      EarliestOccurrence(f.dates, t);
      var s: nat :| s <= t && FirstOccurrence(f.dates, s) && f.dates[s] == d;
      var k :| 0 <= k < |rows| && rows[k] == s;
      assert r.dates[k] == d;
    }
  }

  // ---------------------------------------------------------------------------------------
  // Filling gaps

  /** `ffill` on one column: a missing cell takes the nearest non-missing value above it. */
  function FFill(s: seq<Float>): (r: seq<Float>)
    ensures |r| == |s|
  {
    if s == [] then []
    else
      var init := FFill(s[..|s| - 1]);
      var last := s[|s| - 1];
      init + [if last.NaN? && init != [] then init[|init| - 1] else last]
  }

  /** A forward fill keeps a non-missing cell, and leaves a cell missing exactly when it and
      every cell above it are missing. */
  lemma {:induction false} FFillAt(s: seq<Float>, i: int)
    requires 0 <= i < |s|
    ensures !s[i].NaN? ==> FFill(s)[i] == s[i]
    ensures FFill(s)[i].NaN? <==> forall j :: 0 <= j <= i ==> s[j].NaN?
  {
    var n := |s| - 1;
    var init := s[..n];
    assert forall j :: 0 <= j < n ==> init[j] == s[j];
    if i < n {
      FFillAt(init, i);
      assert FFill(s)[i] == FFill(init)[i];
    } else if s[n].NaN? && n > 0 {
      FFillAt(init, n - 1);
      assert FFill(s)[n] == FFill(init)[n - 1];
    }
  }

  /** A missing cell below the first row takes whatever the forward fill put in the cell above. */
  lemma {:induction false} FFillCarries(s: seq<Float>, i: int)
    requires 0 < i < |s| && s[i].NaN?
    ensures FFill(s)[i] == FFill(s)[i - 1]
  {
    var n := |s| - 1;
    var init := s[..n];
    if i < n {
      assert init[i] == s[i];
      FFillCarries(init, i);
      assert FFill(s)[i] == FFill(init)[i] && FFill(s)[i - 1] == FFill(init)[i - 1];
    }
  }

  /** A forward-filled cell holds the nearest known value at or above it. */
  lemma {:induction false} FFillNearest(s: seq<Float>, i: int, j: int)
    requires 0 <= j <= i < |s| && !s[j].NaN?
    requires forall k :: j < k <= i ==> s[k].NaN?
    ensures FFill(s)[i] == s[j]
    decreases i
  {
    if i == j {
      FFillAt(s, i);
    } else {
      FFillCarries(s, i);
      FFillNearest(s, i - 1, j);
    }
  }

  /** After a forward fill, the cell before day `t` holds the last value known before `t`, and
      day `t` holds its own value or, when it has none, that same value. */
  lemma FFillDayAndBefore(s: seq<Float>, t: int, j: int)
    requires 0 <= j < t < |s| && !s[j].NaN?
    requires forall k :: j < k < t ==> s[k].NaN?
    ensures FFill(s)[t - 1] == s[j]
    ensures FFill(s)[t] == if s[t].NaN? then s[j] else s[t]
  {
    FFillNearest(s, t - 1, j);
    if s[t].NaN? {
      FFillNearest(s, t, j);
    } else {
      FFillAt(s, t);
    }
  }

  /** A column without gaps is left as it is by a forward fill. */
  lemma FFillKeepsGapFree(s: seq<Float>)
    requires NoMissing(s)
    ensures FFill(s) == s
  {
    forall i | 0 <= i < |s| ensures FFill(s)[i] == s[i] {
      FFillAt(s, i);
    }
  }

  /** `bfill` on one column: a missing cell takes the nearest non-missing value below it. */
  function BFill(s: seq<Float>): (r: seq<Float>)
    ensures |r| == |s|
  {
    if s == [] then []
    else
      var tail := BFill(s[1..]);
      [if s[0].NaN? && tail != [] then tail[0] else s[0]] + tail
  }

  /** A backward fill keeps a non-missing cell, and leaves a cell missing exactly when it and
      every cell below it are missing. */
  lemma {:induction false} BFillAt(s: seq<Float>, i: int)
    requires 0 <= i < |s|
    ensures !s[i].NaN? ==> BFill(s)[i] == s[i]
    ensures BFill(s)[i].NaN? <==> forall j :: i <= j < |s| ==> s[j].NaN?
  {
    var rest := s[1..];
    if i > 0 {
      BFillAt(rest, i - 1);
      assert BFill(s)[i] == BFill(rest)[i - 1];
      forall j | i <= j < |s| ensures s[j] == rest[j - 1] { }
      if BFill(s)[i].NaN? {
        forall j | i <= j < |s| ensures s[j].NaN? {
          assert rest[j - 1].NaN?;
        }
      }
    } else if |s| > 1 {
      BFillAt(rest, 0);
      if s[0].NaN? {
        assert BFill(s)[0] == BFill(rest)[0];
        if BFill(s)[0].NaN? {
          forall j | 0 <= j < |s| ensures s[j].NaN? {
            if j > 0 {
              assert rest[j - 1].NaN?;
            }
          }
        }
      }
    }
  }

  /** A missing cell above the last row takes whatever the backward fill put in the cell below. */
  lemma {:induction false} BFillCarries(s: seq<Float>, i: int)
    requires 0 <= i < |s| - 1 && s[i].NaN?
    ensures BFill(s)[i] == BFill(s)[i + 1]
  {
    var rest := s[1..];
    if i > 0 {
      assert rest[i - 1] == s[i];
      BFillCarries(rest, i - 1);
      assert BFill(s)[i] == BFill(rest)[i - 1] && BFill(s)[i + 1] == BFill(rest)[i];
    }
  }

  /** A backward-filled cell holds the nearest known value at or below it. */
  lemma {:induction false} BFillNearest(s: seq<Float>, i: int, j: int)
    requires 0 <= i <= j < |s| && !s[j].NaN?
    requires forall k :: i <= k < j ==> s[k].NaN?
    ensures BFill(s)[i] == s[j]
    decreases j - i
  {
    if i == j {
      BFillAt(s, i);
    } else {
      BFillCarries(s, i);
      BFillNearest(s, i + 1, j);
    }
  }

  /** One more cell of a forward fill. */
  lemma FFillStep(s: seq<Float>, i: nat)
    requires i < |s|
    ensures FFill(s[..i + 1]) == FFill(s[..i]) + [if s[i].NaN? && i > 0 then FFill(s[..i])[i - 1] else s[i]]
  {
    assert s[..i + 1][..i] == s[..i];
  }

  /** `ffill(inplace=True)` on one column. */
  method ForwardFill(a: array<Float>)
    modifies a
    ensures a[..] == FFill(old(a[..]))
  {
    ghost var original := a[..];
    var i := 0;
    while i < a.Length
      invariant 0 <= i <= a.Length
      invariant a[..i] == FFill(original[..i])
      invariant forall j :: i <= j < a.Length ==> a[j] == original[j]
    {
      FFillStep(original, i);
      ghost var before := a[..i];
      assert a[i] == original[i];
      assert i > 0 ==> a[i - 1] == before[i - 1];
      if i > 0 && a[i].NaN? {
        a[i] := a[i - 1];
      }
      assert a[..i + 1] == before + [a[i]];
      i := i + 1;
    }
    assert original[..a.Length] == original;
    assert a[..a.Length] == a[..];
  }

  /** `bfill(inplace=True)` on one column. */
  method BackwardFill(a: array<Float>)
    modifies a
    ensures a[..] == BFill(old(a[..]))
  {
    ghost var original := a[..];
    var i := a.Length;
    while i > 0
      invariant 0 <= i <= a.Length
      invariant a[i..] == BFill(original[i..])
      invariant a[..i] == original[..i]
    {
      i := i - 1;
      assert original[i..][1..] == original[i + 1..];
      assert a[i] == original[i];
      if i < a.Length - 1 && a[i].NaN? {
        a[i] := a[i + 1];
      }
      assert a[i..] == [a[i]] + a[i + 1..];
      assert a[..i] == original[..i];
    }
    assert original[0..] == original;
    assert a[0..] == a[..];
  }

  /** After filling forward then backward a cell is missing exactly when its whole column is. */
  lemma FillMissingExactly(s: seq<Float>, i: int)
    requires 0 <= i < |s|
    ensures BFill(FFill(s))[i].NaN? <==> forall j :: 0 <= j < |s| ==> s[j].NaN?
  {
    var f := FFill(s);
    BFillAt(f, i);
    if BFill(f)[i].NaN? {
      FFillAt(s, |s| - 1);
      assert f[|s| - 1].NaN?;
    } else {
      forall j | i <= j < |s| ensures f[j].NaN? <==> forall k :: 0 <= k <= j ==> s[k].NaN? {
        FFillAt(s, j);
      }
    }
  }

  /** Filling forward then backward leaves every non-missing cell as it was. */
  lemma FillKeepsValues(s: seq<Float>, i: int)
    requires 0 <= i < |s| && !s[i].NaN?
    ensures BFill(FFill(s))[i] == s[i]
  {
    BFillAt(FFill(s), i);
    FFillAt(s, i);
  }

  function FillColumn(c: Column): (r: Column)
    ensures r.name == c.name && |r.values| == |c.values|
  {
    Column(c.name, BFill(FFill(c.values)))
  }

  predicate AnyMissing(cols: seq<Column>)
  {
    exists c, i :: 0 <= c < |cols| && 0 <= i < |cols[c].values| && cols[c].values[i].NaN?
  }

  /** The frame after the duplicate check. */
  function Deduplicated(f: Frame): (r: Frame)
    requires WellFormed(f)
    ensures WellFormed(r) && |r.columns| == |f.columns|
    ensures forall c :: 0 <= c < |f.columns| ==> r.columns[c].name == f.columns[c].name
  {
    if !Distinct(f.dates) then DropDuplicateDates(f) else f
  }

  /** `validate_data` */
  function Validated(f: Frame): (r: Frame)
    requires WellFormed(f)
    ensures WellFormed(r) && |r.columns| == |f.columns|
    ensures forall c :: 0 <= c < |f.columns| ==> r.columns[c].name == f.columns[c].name
  {
    var d := Deduplicated(f);
    if AnyMissing(d.columns) then
      Frame(d.dates, FillColumns(d.columns))
    else d
  }

  /** One cell of the validated frame: a non-missing cell of the de-duplicated frame is
      unchanged, and a cell stays missing exactly when its whole de-duplicated column is. */
  lemma ValidatedCell(f: Frame, c: int, i: int)
    requires WellFormed(f)
    requires 0 <= c < |f.columns| && 0 <= i < |Deduplicated(f).dates|
    ensures var r, d := Validated(f).columns[c].values, Deduplicated(f).columns[c].values;
      && (!d[i].NaN? ==> r[i] == d[i])
      && (r[i].NaN? <==> forall j :: 0 <= j < |d| ==> d[j].NaN?)
  {
    var d := Deduplicated(f);
    var values := d.columns[c].values;
    if AnyMissing(d.columns) {
      assert Validated(f).columns[c] == FillColumn(d.columns[c]);
      FillMissingExactly(values, i);
      if !values[i].NaN? {
        FillKeepsValues(values, i);
      }
    } else {
      assert Validated(f) == d;
      assert !values[i].NaN?;
    }
  }

  /** The dates of the validated frame are distinct and are exactly the input's dates, and its
      column labels are the input's. */
  lemma ValidatedFacts(f: Frame)
    requires WellFormed(f)
    ensures var r := Validated(f);
      && Distinct(r.dates)
      && (forall x :: x in r.dates <==> x in f.dates)
      && Names(r.columns) == Names(f.columns)
  {
    if !Distinct(f.dates) {
      DropDuplicateDatesFacts(f);
    }
  }

  /** Every column of `cols` filled forward then backward. */
  function FillColumns(cols: seq<Column>): (r: seq<Column>)
    ensures |r| == |cols|
    ensures forall c :: 0 <= c < |cols| ==> r[c] == FillColumn(cols[c])
  {
    seq(|cols|, c requires 0 <= c < |cols| => FillColumn(cols[c]))
  }

  /** `ffill` then `bfill` of one column, in place on an array holding its values. */
  method FillOne(c: Column) returns (r: Column)
    ensures r == FillColumn(c)
  {
    var values := c.values;
    var a := new Float[|values|](i requires 0 <= i < |values| => values[i]);
    assert a[..] == values;
    ForwardFill(a);
    BackwardFill(a);
    r := Column(c.name, a[..]);
  }

  /** `df.ffill(inplace=True); df.bfill(inplace=True)` over the frame, column by column. */
  method FillFrame(cols: seq<Column>) returns (filled: seq<Column>)
    ensures filled == FillColumns(cols)
  {
    filled := [];
    var k := 0;
    while k < |cols|
      invariant 0 <= k <= |cols|
      invariant filled == FillColumns(cols[..k])
    {
      var column := FillOne(cols[k]);
      FillColumnsStep(cols, k);
      filled := filled + [column];
      k := k + 1;
    }
    assert cols[..|cols|] == cols;
  }

  lemma FillColumnsStep(cols: seq<Column>, k: nat)
    requires k < |cols|
    ensures FillColumns(cols[..k + 1]) == FillColumns(cols[..k]) + [FillColumn(cols[k])]
  {
    var a, b := FillColumns(cols[..k + 1]), FillColumns(cols[..k]) + [FillColumn(cols[k])];
    forall j | 0 <= j < k + 1 ensures a[j] == b[j] {
      assert cols[..k + 1][j] == cols[j];
      if j < k {
        assert cols[..k][j] == cols[j];
      }
    }
  }

  /** `validate_data`: drop the duplicate dates when there are any, then fill when anything is
      missing. */
  method ValidateData(f: Frame) returns (r: Frame)
    requires WellFormed(f)
    ensures r == Validated(f)
  {
    var d := f;
    if !Distinct(f.dates) {
      d := DropDuplicateDates(f);
    }
    if !AnyMissing(d.columns) {
      return d;
    }
    var filled := FillFrame(d.columns);
    r := Frame(d.dates, filled);
  }

  // ---------------------------------------------------------------------------------------
  // Column selection

  predicate IsAdjClose(c: Column)
  {
    EndsWith(c.name, AdjCloseSuffix)
  }

  /** `extract_adj_close`: the columns whose label ends in `_adj_close`, in order; none is fatal. */
  function ExtractAdjClose(f: Frame): (r: Outcome<Frame>)
    ensures r.Fatal? <==> forall c :: c in f.columns ==> !IsAdjClose(c)
    ensures r.Fatal? ==> r.error == NoAdjCloseColumns
    ensures r.Ok? ==> r.value.dates == f.dates && r.value.columns == Filter(f.columns, IsAdjClose)
  {
    var cols := Filter(f.columns, IsAdjClose);
    if cols == [] then Fatal(NoAdjCloseColumns) else Ok(Frame(f.dates, cols))
  }

  /** `df.drop(columns=[c.name for c in drop(df)])` when something is to be dropped: every column
      whose label is the label of a column to drop goes. */
  function DropWhere(cols: seq<Column>, drop: Column -> bool): (r: seq<Column>)
  {
    var bad := Filter(cols, drop);
    if bad != [] then Filter(cols, (c: Column) => c.name !in Names(bad)) else cols
  }

  /** What is dropped is dropped: the remaining columns are columns of the input, in order, and
      none of them satisfies `drop`. */
  lemma DropWhereKeeps(cols: seq<Column>, drop: Column -> bool)
    ensures forall c :: c in DropWhere(cols, drop) ==> c in cols && !drop(c)
    ensures exists idx :: SubsequenceAt(DropWhere(cols, drop), cols, idx)
  {
    var bad := Filter(cols, drop);
    var keep := (c: Column) => c.name !in Names(bad);
    if bad != [] {
      assert forall c :: c in DropWhere(cols, drop) ==> !drop(c);
      FilterPreservesOrder(cols, keep);
    } else {
      var idx := seq(|cols|, k requires 0 <= k < |cols| => k as nat);
      assert forall k :: 0 <= k < |idx| ==> idx[k] == k;
      assert DropWhere(cols, drop) == cols;
      assert SubsequenceAt(DropWhere(cols, drop), cols, idx);
    }
  }

  /** No two columns share a label. */
  predicate DistinctLabels(cols: seq<Column>)
  {
    forall i, j :: 0 <= i < j < |cols| ==> cols[i].name != cols[j].name
  }

  /** With distinct labels, a column's label is among those of the columns to drop exactly when
      the column itself is to be dropped. */
  lemma DropWhereAgrees(cols: seq<Column>, drop: Column -> bool, i: int)
    requires DistinctLabels(cols) && 0 <= i < |cols|
    ensures cols[i].name in Names(Filter(cols, drop)) <==> drop(cols[i])
  {
    var bad := Filter(cols, drop);
    var names := Names(bad);
    var c := cols[i];
    if c.name in names {
      var k :| 0 <= k < |names| && names[k] == c.name;
      var b := bad[k];
      assert b in bad;
      assert b in cols && drop(b);
      var j :| 0 <= j < |cols| && cols[j] == b;
      assert cols[j].name == c.name;
      assert j == i;
    }
  }

  /** With distinct labels, exactly the columns that satisfy `drop` are removed: what remains is
      the mask `keep`, the negation of `drop`. */
  lemma DropWhereExactly(cols: seq<Column>, drop: Column -> bool, keep: Column -> bool)
    requires DistinctLabels(cols)
    requires forall c :: keep(c) == !drop(c)
    ensures DropWhere(cols, drop) == Filter(cols, keep)
  {
    var bad := Filter(cols, drop);
    var unnamed := (c: Column) => c.name !in Names(bad);
    forall i | 0 <= i < |cols| ensures unnamed(cols[i]) == keep(cols[i]) {
      DropWhereAgrees(cols, drop, i);
    }
    if bad == [] {
      FilterNone(cols, keep);
    } else {
      FilterCongruent(cols, unnamed, keep);
    }
  }

  predicate HasMissing(c: Column)
  {
    !NoMissing(c.values)
  }

  predicate Complete(c: Column)
  {
    NoMissing(c.values)
  }

  /** `nunique() <= 1`: the column holds at most one distinct non-missing value. */
  predicate IsConstant(c: Column)
  {
    AtMostOneDistinct(c.values)
  }

  predicate Varying(c: Column)
  {
    !AtMostOneDistinct(c.values)
  }

  /** `remove_etfs_with_missing_data` */
  function RemoveMissingData(f: Frame): (r: Frame)
    ensures r.dates == f.dates
  {
    Frame(f.dates, DropWhere(f.columns, HasMissing))
  }

  /** `remove_etfs_with_constant_data` */
  function RemoveConstantData(f: Frame): (r: Frame)
    ensures r.dates == f.dates
  {
    Frame(f.dates, DropWhere(f.columns, IsConstant))
  }

  /** No remaining column has a missing value; the rest are columns of the input in order; with
      distinct labels, the removed columns are exactly those with a missing value. */
  lemma RemoveMissingDataFacts(f: Frame)
    ensures forall c :: c in RemoveMissingData(f).columns ==> c in f.columns && NoMissing(c.values)
    ensures exists idx :: SubsequenceAt(RemoveMissingData(f).columns, f.columns, idx)
    ensures DistinctLabels(f.columns) ==>
      RemoveMissingData(f).columns == Filter(f.columns, Complete)
  {
    DropWhereKeeps(f.columns, HasMissing);
    assert RemoveMissingData(f).columns == DropWhere(f.columns, HasMissing);
    if DistinctLabels(f.columns) {
      DropWhereExactly(f.columns, HasMissing, Complete);
    }
  }

  /** Every remaining column holds two distinct non-missing values; with distinct labels, the
      removed columns are exactly the constant ones. */
  lemma RemoveConstantDataFacts(f: Frame)
    ensures forall c :: c in RemoveConstantData(f).columns ==>
      && c in f.columns
      && exists i, j :: 0 <= i < |c.values| && 0 <= j < |c.values| && !c.values[i].NaN? && !c.values[j].NaN? && c.values[i] != c.values[j]
    ensures exists idx :: SubsequenceAt(RemoveConstantData(f).columns, f.columns, idx)
    ensures DistinctLabels(f.columns) ==>
      RemoveConstantData(f).columns == Filter(f.columns, Varying)
  {
    DropWhereKeeps(f.columns, IsConstant);
    assert RemoveConstantData(f).columns == DropWhere(f.columns, IsConstant);
    if DistinctLabels(f.columns) {
      DropWhereExactly(f.columns, IsConstant, Varying);
    }
  }

  // ---------------------------------------------------------------------------------------
  // The preprocessing run

  predicate AnyConstant(cols: seq<Column>)
  {
    exists c :: 0 <= c < |cols| && IsConstant(cols[c])
  }

  /** `main` of the preprocessing script, from the loaded frame to the frame it saves. */
  function PreprocessFrame(f: Frame): Outcome<Frame>
    requires WellFormed(f)
  {
    match ExtractAdjClose(Validated(f))
    case Fatal(e) => Fatal(e)
    case Ok(adj) =>
      var cleaned := RemoveConstantData(RemoveMissingData(adj));
      if AnyMissing(cleaned.columns) then Fatal(MissingValuesRemain)
      else if AnyConstant(cleaned.columns) then Fatal(ConstantColumnsRemain)
      else Ok(cleaned)
  }

  /** The two final checks never fire: the run aborts only when no label ends in `_adj_close`,
      and the frame it saves has distinct dates, only adjusted-close columns, no missing value
      and no constant column. */
  lemma FinalChecksPass(f: Frame)
    requires WellFormed(f)
    ensures PreprocessFrame(f).Fatal? <==> forall c :: c in f.columns ==> !IsAdjClose(c)
    ensures PreprocessFrame(f).Fatal? ==> PreprocessFrame(f).error == NoAdjCloseColumns
    ensures PreprocessFrame(f).Ok? ==>
      var r := PreprocessFrame(f).value;
      && Distinct(r.dates)
      && (forall c :: c in r.columns ==> IsAdjClose(c) && NoMissing(c.values) && !IsConstant(c))
  {
    FinalChecksAbort(f);
    FinalChecksOutput(f);
  }

  /** The run aborts exactly when no column is an adjusted close. */
  lemma FinalChecksAbort(f: Frame)
    requires WellFormed(f)
    ensures PreprocessFrame(f).Fatal? <==> forall c :: c in f.columns ==> !IsAdjClose(c)
    ensures PreprocessFrame(f).Fatal? ==> PreprocessFrame(f).error == NoAdjCloseColumns
  {
    AdjCloseSurvivesValidation(f);
    match ExtractAdjClose(Validated(f))
    case Fatal(_) =>
    case Ok(adj) =>
      CleanedFacts(adj);
  }

  /** The saved frame has distinct dates and only clean adjusted-close columns. */
  lemma FinalChecksOutput(f: Frame)
    requires WellFormed(f)
    ensures PreprocessFrame(f).Ok? ==>
      var r := PreprocessFrame(f).value;
      && Distinct(r.dates)
      && (forall c :: c in r.columns ==> IsAdjClose(c) && NoMissing(c.values) && !IsConstant(c))
  {
    ValidatedFacts(f);
    match ExtractAdjClose(Validated(f))
    case Fatal(_) =>
    case Ok(adj) =>
      CleanedFacts(adj);
  }

  /** Validation keeps every label, so it keeps whether some column is an adjusted close. */
  lemma AdjCloseSurvivesValidation(f: Frame)
    requires WellFormed(f)
    ensures (forall c :: c in f.columns ==> !IsAdjClose(c)) <==> (forall w :: w in Validated(f).columns ==> !IsAdjClose(w))
  {
    var v := Validated(f);
    ValidatedFacts(f);
    forall c | c in f.columns ensures IsAdjClose(c) <==> exists w :: w in v.columns && IsAdjClose(w) && w.name == c.name {
      var k :| 0 <= k < |f.columns| && f.columns[k] == c;
      assert Names(v.columns)[k] == Names(f.columns)[k];
      if exists w :: w in v.columns && IsAdjClose(w) && w.name == c.name {
        var w :| w in v.columns && IsAdjClose(w) && w.name == c.name;
      } else {
        assert v.columns[k] in v.columns;
      }
    }
    forall w | w in v.columns ensures exists c :: c in f.columns && c.name == w.name {
      var k :| 0 <= k < |v.columns| && v.columns[k] == w;
      assert Names(v.columns)[k] == Names(f.columns)[k];
      assert f.columns[k] in f.columns;
    }
  }

  /** After both removals no column has a missing value or is constant, so neither final
      check of main.py fires. */
  lemma CleanedFacts(adj: Frame)
    requires forall c :: c in adj.columns ==> IsAdjClose(c)
    ensures var cleaned := RemoveConstantData(RemoveMissingData(adj));
      && !AnyMissing(cleaned.columns)
      && !AnyConstant(cleaned.columns)
      && (forall c :: c in cleaned.columns ==> IsAdjClose(c) && NoMissing(c.values) && !IsConstant(c))
  {
    var m := RemoveMissingData(adj);
    var cleaned := RemoveConstantData(m);
    RemoveMissingDataFacts(adj);
    RemoveConstantDataFacts(m);
    forall c | c in cleaned.columns ensures IsAdjClose(c) && NoMissing(c.values) && !IsConstant(c) {
      assert c in m.columns;
    }
    assert !AnyMissing(cleaned.columns) by {
      forall c, i | 0 <= c < |cleaned.columns| && 0 <= i < |cleaned.columns[c].values|
        ensures !cleaned.columns[c].values[i].NaN?
      {
        assert cleaned.columns[c] in cleaned.columns;
      }
    }
    assert !AnyConstant(cleaned.columns) by {
      forall c | 0 <= c < |cleaned.columns| ensures !IsConstant(cleaned.columns[c]) {
        assert cleaned.columns[c] in cleaned.columns;
      }
    }
  }
}
