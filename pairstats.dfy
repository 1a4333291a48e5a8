/** The statistics bundle of one candidate pair (utils.py): the unit-root gate, the two-way
    Engle-Granger test, the lag-variance Hurst map, the AR(1) half-life and the bundle itself. */
module PairStatistics {
  import opened Wrappers
  import opened Floats
  import opened Oracles
  import opened Sequences

  /** The default significance level of the stationarity test. */
  const SignificanceLevel: real := 0.05

  /** The lags used when the bundle's Hurst map is first computed. */
  const ModuleLags: seq<nat> := [20, 100, 250, 500, 1000]

  /** `np.log(2)` as a double. */
  const LN2: real := 0.6931471805599453

  /** One price column of a frame: its label and its cells. */
  datatype Column = Column(name: string, values: seq<Float>)

  predicate NoMissing(s: seq<Float>)
  {
    forall i :: 0 <= i < |s| ==> !s[i].NaN?
  }

  // ---------------------------------------------------------------------------------------
  // Stationarity gate

  /** True when the series is treated as non-stationary; a constant series never reaches the test. */
  function IsNotStationary(s: seq<Float>, alpha: real, o: Oracles): bool
  {
    if AtMostOneDistinct(s) then true
    else
      match o.adfuller(s)
      case UnitRootRaised => true
      case UnitRootPValue(p) => Gt(p, Fin(alpha))
  }

  /** A series with at most one distinct value is non-stationary whatever the unit-root routine
      would say: the result is the same for every choice of routine, so it is never consulted. */
  lemma ConstantIsNotStationary(s: seq<Float>, alpha: real, o1: Oracles, o2: Oracles)
    requires AtMostOneDistinct(s)
    ensures IsNotStationary(s, alpha, o1) && IsNotStationary(s, alpha, o2)
  {
  }

  /** A non-constant series is stationary exactly when the test ran and its p-value is not strictly
      above the level; a NaN p-value therefore counts as stationary, and so does p == alpha. */
  lemma StationaryExactly(s: seq<Float>, alpha: real, o: Oracles)
    requires !AtMostOneDistinct(s)
    ensures !IsNotStationary(s, alpha, o) <==>
              o.adfuller(s).UnitRootPValue? && !Gt(o.adfuller(s).pvalue, Fin(alpha))
    ensures o.adfuller(s).UnitRootRaised? ==> IsNotStationary(s, alpha, o)
    ensures o.adfuller(s) == UnitRootPValue(NaN) ==> !IsNotStationary(s, alpha, o)
    ensures o.adfuller(s) == UnitRootPValue(Fin(alpha)) ==> !IsNotStationary(s, alpha, o)
  {
  }

  // ---------------------------------------------------------------------------------------
  // Two-way Engle-Granger test

  datatype CointStat = CointStat(tstat: Float, pvalue: Float)

  /** One regression direction; a ValueError contributes NaN to both fields. */
  function Direction(r: CointOutcome): CointStat
  {
    match r
    case CointRaised => CointStat(NaN, NaN)
    case CointComputed(t, p) => CointStat(t, p)
  }

  function CointBidirectional(a: seq<Float>, b: seq<Float>, o: Oracles): CointStat
  {
    if AtMostOneDistinct(a) || AtMostOneDistinct(b) then CointStat(NaN, NaN)
    else
      var d1 := Direction(o.coint(a, b));
      var d2 := Direction(o.coint(b, a));
      if d1.tstat.NaN? || (!d2.tstat.NaN? && Lt(d2.tstat, d1.tstat)) then d2 else d1
  }

  /** A constant input yields (NaN, NaN) without consulting either regression. */
  lemma CointConstant(a: seq<Float>, b: seq<Float>, o1: Oracles, o2: Oracles)
    requires AtMostOneDistinct(a) || AtMostOneDistinct(b)
    ensures CointBidirectional(a, b, o1) == CointBidirectional(a, b, o2) == CointStat(NaN, NaN)
  {
  }

  /** The second direction wins exactly when the first t-statistic is NaN or the second is a
      number strictly below it; a tie goes to the first.  The t-statistic and p-value always come
      from the same direction, and when both t-statistics are numbers the chosen one is the lower. */
  lemma CointChoosesLowerTStat(a: seq<Float>, b: seq<Float>, o: Oracles)
    requires !AtMostOneDistinct(a) && !AtMostOneDistinct(b)
    ensures var d1, d2, r := Direction(o.coint(a, b)), Direction(o.coint(b, a)), CointBidirectional(a, b, o);
      && ((d1.tstat.NaN? || (!d2.tstat.NaN? && Lt(d2.tstat, d1.tstat))) ==> r == d2)
      && (!(d1.tstat.NaN? || (!d2.tstat.NaN? && Lt(d2.tstat, d1.tstat))) ==> r == d1)
      && (d1.tstat == d2.tstat && !d1.tstat.NaN? ==> r == d1)
      && (!d1.tstat.NaN? && !d2.tstat.NaN? ==> Le(r.tstat, d1.tstat) && Le(r.tstat, d2.tstat))
      && (r.tstat.NaN? ==> d1.tstat.NaN? && d2.tstat.NaN?)
  {
    var d1, d2 := Direction(o.coint(a, b)), Direction(o.coint(b, a));
    if !d1.tstat.NaN? && !d2.tstat.NaN? {
      Trichotomy(d1.tstat, d2.tstat);
    }
  }

  // ---------------------------------------------------------------------------------------
  // Hurst map

  /** A Python dict from lag to estimate: its keys in insertion order and its entries. */
  datatype LagMap = LagMap(keys: seq<nat>, entries: map<nat, Float>)
  {
    ghost predicate Valid()
    {
      && (forall k :: k in keys <==> k in entries)
      && (forall i, j :: 0 <= i < j < |keys| ==> keys[i] != keys[j])
    }

    /** `d[k] = v`: a new key goes to the end, an existing key keeps its place. */
    function Put(k: nat, v: Float): (r: LagMap)
      requires Valid()
      ensures r.Valid()
      ensures r.entries == entries[k := v]
      ensures k in entries ==> r.keys == keys
      ensures k !in entries ==> r.keys == keys + [k]
    {
      LagMap(if k in entries then keys else keys + [k], entries[k := v])
    }

    /** `list(d.values())` */
    function Values(): (r: seq<Float>)
      requires Valid()
      ensures |r| == |keys|
      ensures forall i :: 0 <= i < |keys| ==> r[i] == entries[keys[i]]
    {
      seq(|keys|, i requires 0 <= i < |keys| => entries[keys[i]])
    }
  }

  const EmptyLagMap: LagMap := LagMap([], map[])

  predicate PositiveLags(lags: seq<nat>)
  {
    forall i :: 0 <= i < |lags| ==> lags[i] > 0
  }

  /** `p[lag:] - p[:-lag]` */
  function LagDifferences(p: seq<Float>, lag: nat): (d: seq<Float>)
    requires 0 < lag < |p|
    ensures |d| == |p| - lag
    ensures forall i {:trigger d[i]} :: 0 <= i < |d| ==> d[i] == Sub(p[i + lag], p[i])
  {
    SubSeq(p[lag..], p[..|p| - lag])
  }

  /** Half of log10(variance of the lag differences) over log10(lag). */
  function HurstAt(p: seq<Float>, lag: nat, o: Oracles): Float
    requires 0 < lag < |p|
  {
    Div(Div(Log10(o, o.variance(LagDifferences(p, lag))), Log10(o, Fin(lag as real))), Fin(2.0))
  }

  /** The dict `calculate_hurst_exponent` returns after visiting every lag in `lags`. */
  function HurstMap(p: seq<Float>, lags: seq<nat>, o: Oracles): (m: LagMap)
    requires PositiveLags(lags)
    ensures m.Valid()
  {
    if lags == [] then EmptyLagMap
    else
      var prev := HurstMap(p, lags[..|lags| - 1], o);
      var lag := lags[|lags| - 1];
      if lag >= |p| then prev else prev.Put(lag, HurstAt(p, lag, o))
  }

  method CalculateHurstExponent(p: seq<Float>, lags: seq<nat>, o: Oracles) returns (m: LagMap)
    requires PositiveLags(lags)
    ensures m == HurstMap(p, lags, o)
  {
    m := EmptyLagMap;
    var i := 0;
    while i < |lags|
      invariant 0 <= i <= |lags|
      invariant m == HurstMap(p, lags[..i], o)
    {
      assert lags[..i + 1][..i] == lags[..i];
      var lag := lags[i];
      if lag < |p| {
        m := m.Put(lag, HurstAt(p, lag, o));
      }
      i := i + 1;
    }
    assert lags[..|lags|] == lags;
  }

  /** The lags below `n`, in order. */
  function LagsBelow(lags: seq<nat>, n: nat): (r: seq<nat>)
    ensures forall x :: x in r <==> x in lags && x < n
  {
    if lags == [] then []
    else
      var init := LagsBelow(lags[..|lags| - 1], n);
      assert lags == lags[..|lags| - 1] + [lags[|lags| - 1]];
      if lags[|lags| - 1] < n then init + [lags[|lags| - 1]] else init
  }

  /** The keys of the Hurst map are exactly the lags below the series length, and each value is
      the estimate at that lag; lags at or above the length are skipped. */
  lemma {:induction false} HurstMapEntries(p: seq<Float>, lags: seq<nat>, o: Oracles)
    requires PositiveLags(lags)
    ensures forall lag :: lag in HurstMap(p, lags, o).entries <==> lag in lags && lag < |p|
    ensures forall lag :: lag in HurstMap(p, lags, o).entries ==>
              0 < lag < |p| && HurstMap(p, lags, o).entries[lag] == HurstAt(p, lag, o)
  {
    if lags != [] {
      var init := lags[..|lags| - 1];
      HurstMapEntries(p, init, o);
      assert lags == init + [lags[|lags| - 1]];
    }
  }

  /** Without repeated lags the keys are the lags below the series length, in input order. */
  lemma {:induction false} HurstMapKeyOrder(p: seq<Float>, lags: seq<nat>, o: Oracles)
    requires PositiveLags(lags)
    requires forall i, j :: 0 <= i < j < |lags| ==> lags[i] != lags[j]
    ensures HurstMap(p, lags, o).keys == LagsBelow(lags, |p|)
  {
    if lags != [] {
      var init := lags[..|lags| - 1];
      HurstMapKeyOrder(p, init, o);
      HurstMapEntries(p, init, o);
      assert lags == init + [lags[|lags| - 1]];
      assert lags[|lags| - 1] !in init;
    }
  }

  /** The selectors' lags [20, 50, 100, 200] on a series of 120 points keep 20, 50 and 100. */
  lemma HurstMapSkipsLongLags(p: seq<Float>, o: Oracles)
    requires |p| == 120
    ensures HurstMap(p, [20, 50, 100, 200], o).keys == [20, 50, 100]
  {
    var lags: seq<nat> := [20, 50, 100, 200];
    HurstMapKeyOrder(p, lags, o);
    assert lags[..3] == [20, 50, 100] && lags[..3][..2] == [20, 50] && lags[..3][..2][..1] == [20];
    assert LagsBelow([20], 120) == [20] by {
      assert [20][..0] == [];
    }
    assert LagsBelow([20, 50], 120) == [20, 50];
    assert LagsBelow([20, 50, 100], 120) == [20, 50, 100];
    assert LagsBelow(lags, 120) == [20, 50, 100];
  }

  // ---------------------------------------------------------------------------------------
  // Half-life

  function HalfLife(spread: seq<Float>, o: Oracles): Float
  {
    var s := DropNaN(spread);
    if |s| < 2 then NaN
    else
      var phi := o.arCoefficient(s);
      if Ge(phi, Fin(1.0)) || Le(phi, Fin(-1.0)) then NaN
      else
        var lambda := Neg(Ln(o, phi));
        if Le(lambda, Fin(0.0)) then NaN else Div(Fin(LN2), lambda)
  }

  /** The decay rate -ln(phi) of an AR(1) coefficient. */
  function DecayRate(phi: Float, o: Oracles): Float { Neg(Ln(o, phi)) }

  /** The half-life is undefined with fewer than two observations or |phi| >= 1; whenever it is
      defined, phi lies strictly inside (-1, 1), more precisely in [0, 1) because the logarithm of a
      negative coefficient is NaN, the decay rate is positive, and the half-life is ln 2 over it:
      a positive number for a finite rate, and 0 when phi == 0 makes the rate infinite. */
  lemma HalfLifeGuards(spread: seq<Float>, o: Oracles)
    ensures |DropNaN(spread)| < 2 ==> HalfLife(spread, o).NaN?
    ensures |DropNaN(spread)| >= 2 ==>
      var phi := o.arCoefficient(DropNaN(spread));
      && (Ge(phi, Fin(1.0)) || Le(phi, Fin(-1.0)) || phi.NaN? ==> HalfLife(spread, o).NaN?)
      && (phi.Fin? && phi.v < 0.0 ==> HalfLife(spread, o).NaN?)
      && (phi == Fin(0.0) ==> HalfLife(spread, o) == Fin(0.0))
    ensures !HalfLife(spread, o).NaN? ==>
      var phi := o.arCoefficient(DropNaN(spread));
      var lambda := DecayRate(phi, o);
      && |DropNaN(spread)| >= 2
      && phi.Fin? && 0.0 <= phi.v < 1.0
      && Gt(lambda, Fin(0.0))
      && HalfLife(spread, o) == Div(Fin(LN2), lambda)
      && (lambda.Fin? ==> HalfLife(spread, o) == Fin(LN2 / lambda.v) && LN2 / lambda.v > 0.0)
      && (lambda.PosInf? ==> HalfLife(spread, o) == Fin(0.0))
  {
  }

  // ---------------------------------------------------------------------------------------
  // The bundle

  datatype PairStats = PairStats(
    pair: (string, string),
    correlation: Float,
    tstat: Float,
    pvalue: Float,
    hurst: LagMap,
    halfLife: Float,
    spreadStd: Float)

  datatype Aligned = Aligned(first: seq<Float>, second: seq<Float>)

  /** `pd.concat([a, b], axis=1).dropna()`: the rows where neither series is missing. */
  function Align(a: seq<Float>, b: seq<Float>): (r: Aligned)
    requires |a| == |b|
    ensures |r.first| == |r.second| <= |a|
    ensures NoMissing(r.first) && NoMissing(r.second)
    ensures NoMissing(a) && NoMissing(b) ==> r == Aligned(a, b)
  {
    if a == [] then Aligned([], [])
    else
      var n := |a| - 1;
      var init := Align(a[..n], b[..n]);
      assert a == a[..n] + [a[n]] && b == b[..n] + [b[n]];
      if a[n].NaN? || b[n].NaN? then init
      else Aligned(init.first + [a[n]], init.second + [b[n]])
  }

  /** `s.pct_change()`: NaN first, then each value over its predecessor minus one. */
  function PctChange(s: seq<Float>): (r: seq<Float>)
    ensures |r| == |s|
    ensures |s| > 0 ==> r[0].NaN?
    ensures forall i {:trigger r[i]} :: 0 < i < |s| ==> r[i] == Sub(Div(s[i], s[i - 1]), Fin(1.0))
  {
    seq(|s|, i requires 0 <= i < |s| => if i == 0 then NaN else Sub(Div(s[i], s[i - 1]), Fin(1.0)))
  }

  /** `calculate_pair_statistics`: None when the aligned rows are empty or either series is
      stationary; otherwise the bundle of the spread `first - second`. */
  function CalculatePairStatistics(c1: Column, c2: Column, alpha: real, o: Oracles): Option<PairStats>
    requires |c1.values| == |c2.values|
  {
    var al := Align(c1.values, c2.values);
    if al.first == [] then None
    else if !(IsNotStationary(al.first, alpha, o) && IsNotStationary(al.second, alpha, o)) then None
    else Some(Bundle(c1.name, c2.name, al.first, al.second, o))
  }

  /** `calculate_hurst_exponent(spread.values, discrete_lags)` with the module-level lags. */
  function ModuleHurst(spread: seq<Float>, o: Oracles): (m: LagMap)
    ensures m.Valid()
  {
    HurstMap(spread, ModuleLags, o)
  }

  /** The statistics of two aligned, non-stationary series. */
  function Bundle(name1: string, name2: string, a: seq<Float>, b: seq<Float>, o: Oracles): PairStats
    requires |a| == |b|
  {
    var coint := CointBidirectional(a, b, o);
    var spread := SubSeq(a, b);
    PairStats(
      (name1, name2),
      o.pearson(DropNaN(PctChange(a)), DropNaN(PctChange(b))),
      coint.tstat,
      coint.pvalue,
      ModuleHurst(spread, o),
      HalfLife(spread, o),
      o.std(spread))
  }

  /** The positions of the rows where neither series is missing, in order. */
  function KnownRows(a: seq<Float>, b: seq<Float>): seq<nat>
    requires |a| == |b|
  {
    if a == [] then []
    else
      var n := |a| - 1;
      var init := KnownRows(a[..n], b[..n]);
      if a[n].NaN? || b[n].NaN? then init else init + [n]
  }

  /** `KnownRows` lists, in increasing order, exactly the positions where both values are known. */
  lemma {:induction false} KnownRowsFacts(a: seq<Float>, b: seq<Float>)
    requires |a| == |b|
    ensures forall k :: 0 <= k < |KnownRows(a, b)| ==> KnownRows(a, b)[k] < |a|
    ensures forall t :: 0 <= t < |a| ==> (t in KnownRows(a, b) <==> !a[t].NaN? && !b[t].NaN?)
    ensures forall k, l :: 0 <= k < l < |KnownRows(a, b)| ==> KnownRows(a, b)[k] < KnownRows(a, b)[l]
  {
    if a != [] {
      var n := |a| - 1;
      KnownRowsFacts(a[..n], b[..n]);
      assert forall t :: 0 <= t < n ==> a[..n][t] == a[t] && b[..n][t] == b[t];
    }
  }

  /** Alignment keeps exactly the rows where neither value is missing, in their original order:
      each aligned series is its input read at `KnownRows`. */
  lemma {:induction false} AlignKeepsKnownRows(a: seq<Float>, b: seq<Float>)
    requires |a| == |b|
    ensures var idx := KnownRows(a, b);
      && SubsequenceAt(Align(a, b).first, a, idx)
      && SubsequenceAt(Align(a, b).second, b, idx)
      && forall t :: 0 <= t < |a| ==> (t in idx <==> !a[t].NaN? && !b[t].NaN?)
  {
    KnownRowsFacts(a, b);
    if a != [] {
      var n := |a| - 1;
      var a', b' := a[..n], b[..n];
      AlignKeepsKnownRows(a', b');
      assert a == a' + [a[n]] && b == b' + [b[n]];
      var al, idx := Align(a', b'), KnownRows(a', b');
      SubsequenceGrow(al.first, a', a[n], idx);
      SubsequenceGrow(al.second, b', b[n], idx);
    }
  }

  /** The aligned series is the input read at the known rows. */
  lemma AlignIsKeep(a: seq<Float>, b: seq<Float>)
    requires |a| == |b|
    ensures forall k :: 0 <= k < |KnownRows(a, b)| ==> KnownRows(a, b)[k] < |a|
    ensures Align(a, b).first == Keep(a, KnownRows(a, b))
    ensures Align(a, b).second == Keep(b, KnownRows(a, b))
  {
    AlignKeepsKnownRows(a, b);
  }

  /** No bundle exactly when every row has a missing value, or either series, read at the
      rows where both are known, is stationary. */
  lemma PairStatisticsGate(c1: Column, c2: Column, alpha: real, o: Oracles)
    requires |c1.values| == |c2.values|
    ensures forall k :: 0 <= k < |KnownRows(c1.values, c2.values)| ==> KnownRows(c1.values, c2.values)[k] < |c1.values|
    ensures var idx := KnownRows(c1.values, c2.values);
      CalculatePairStatistics(c1, c2, alpha, o).None? <==>
        || (forall t :: 0 <= t < |c1.values| ==> c1.values[t].NaN? || c2.values[t].NaN?)
        || !IsNotStationary(Keep(c1.values, idx), alpha, o)
        || !IsNotStationary(Keep(c2.values, idx), alpha, o)
  {
    var idx := KnownRows(c1.values, c2.values);
    AlignIsKeep(c1.values, c2.values);
    AlignKeepsKnownRows(c1.values, c2.values);
    if idx != [] {
      assert idx[0] in idx;
    }
  }

  /** A bundle names the pair in argument order; its correlation is that of the returns, its
      cointegration result the two-way test, and its Hurst map, half-life and standard deviation
      those of the spread, all over the two series read at the rows where both are known. */
  lemma PairStatisticsBundle(c1: Column, c2: Column, alpha: real, o: Oracles)
    requires |c1.values| == |c2.values|
    requires CalculatePairStatistics(c1, c2, alpha, o).Some?
    ensures forall k :: 0 <= k < |KnownRows(c1.values, c2.values)| ==> KnownRows(c1.values, c2.values)[k] < |c1.values|
    ensures var r, idx := CalculatePairStatistics(c1, c2, alpha, o).value, KnownRows(c1.values, c2.values);
      var a, b := Keep(c1.values, idx), Keep(c2.values, idx);
      && r.pair == (c1.name, c2.name)
      && r.correlation == o.pearson(DropNaN(PctChange(a)), DropNaN(PctChange(b)))
      && r.tstat == CointBidirectional(a, b, o).tstat
      && r.pvalue == CointBidirectional(a, b, o).pvalue
      && r.hurst == ModuleHurst(SubSeq(a, b), o)
      && r.halfLife == HalfLife(SubSeq(a, b), o)
      && r.spreadStd == o.std(SubSeq(a, b))
  {
    AlignIsKeep(c1.values, c2.values);
  }

  /** On gap-free columns a bundle exists exactly when the columns are non-empty and both are
      non-stationary, and its statistics are those of the columns themselves and of their
      difference. */
  lemma PairStatisticsOfCleanColumns(c1: Column, c2: Column, alpha: real, o: Oracles)
    requires |c1.values| == |c2.values| && NoMissing(c1.values) && NoMissing(c2.values)
    ensures var a, b := c1.values, c2.values;
      CalculatePairStatistics(c1, c2, alpha, o).Some? <==>
        |a| > 0 && IsNotStationary(a, alpha, o) && IsNotStationary(b, alpha, o)
    ensures var a, b := c1.values, c2.values;
      CalculatePairStatistics(c1, c2, alpha, o).Some? ==>
        var r := CalculatePairStatistics(c1, c2, alpha, o).value;
        && r.pair == (c1.name, c2.name)
        && r.correlation == o.pearson(DropNaN(PctChange(a)), DropNaN(PctChange(b)))
        && r.tstat == CointBidirectional(a, b, o).tstat
        && r.pvalue == CointBidirectional(a, b, o).pvalue
        && r.hurst == ModuleHurst(SubSeq(a, b), o)
        && r.halfLife == HalfLife(SubSeq(a, b), o)
        && r.spreadStd == o.std(SubSeq(a, b))
  {
  }

  /** Two series under the same label make `pd.concat` produce a frame with that label twice,
      so selecting the label yields a two-column frame and the constant-series test cannot be
      decided: the call raises whenever some row survives alignment. */
  predicate PairStatisticsRaises(c1: Column, c2: Column)
    requires |c1.values| == |c2.values|
  {
    c1.name == c2.name && Align(c1.values, c2.values).first != []
  }

  /** A column paired with itself raises exactly when it has a known value. */
  lemma SelfPairRaises(c: Column)
    ensures PairStatisticsRaises(c, c) <==> exists t :: 0 <= t < |c.values| && !c.values[t].NaN?
  {
    AlignKeepsKnownRows(c.values, c.values);
    var idx := KnownRows(c.values, c.values);
    if idx != [] {
      assert idx[0] in idx;
    }
  }
}
