/** The statistical routines the pipeline calls (statsmodels, scipy, numpy, pandas, scikit-learn),
    kept uninterpreted.  Each is a field of `Oracles`, so every property proved about the model
    holds whatever these routines compute.  Where the source catches an exception from a routine,
    its result type has a case for "raised". */
module Oracles {
  import opened Floats

  /** `adfuller(series, regression="ct", autolag="AIC")`: raised, or its p-value. */
  datatype UnitRootOutcome = UnitRootRaised | UnitRootPValue(pvalue: Float)

  /** `coint(y, x)`: raised a ValueError, or its t-statistic and p-value. */
  datatype CointOutcome = CointRaised | CointComputed(tstat: Float, pvalue: Float)

  /** `PCA(n_components=10).fit_transform(X)`: raised a ValueError, or one row of components per sample. */
  datatype PcaOutcome = PcaRaised | Projected(components: seq<seq<Float>>)

  datatype Oracles = Oracles(
    adfuller: seq<Float> -> UnitRootOutcome,
    coint: (seq<Float>, seq<Float>) -> CointOutcome,
    /** `np.var` */
    variance: seq<Float> -> Float,
    /** `np.log10` on a positive finite argument */
    log10: real -> real,
    /** `np.log` on a positive finite argument */
    ln: real -> real,
    /** the lag-1 coefficient of `AutoReg(series, lags=1).fit()` */
    arCoefficient: seq<Float> -> Float,
    /** `pearsonr(x, y)[0]` */
    pearson: (seq<Float>, seq<Float>) -> Float,
    /** `Series.std()` (ddof = 1) */
    std: seq<Float> -> Float,
    /** `Series.median()` */
    median: seq<Float> -> Float,
    pca: seq<seq<Float>> -> PcaOutcome,
    /** the OPTICS(min_samples=2, xi=0.05, min_cluster_size=0.1) label of sample k */
    opticsLabel: (seq<seq<Float>>, nat) -> int
  )

  /** A logarithm with IEEE special cases around an uninterpreted value on positive finite inputs. */
  function Log(f: real -> real, x: Float): (r: Float)
    ensures x.NaN? || x.NegInf? || (x.Fin? && x.v < 0.0) ==> r.NaN?
    ensures x == Fin(0.0) ==> r.NegInf?
    ensures x.PosInf? ==> r.PosInf?
    ensures x.Fin? && x.v > 0.0 ==> r == Fin(f(x.v))
  {
    match x
    case NaN => NaN
    case NegInf => NaN
    case PosInf => PosInf
    case Fin(v) => if v < 0.0 then NaN else if v == 0.0 then NegInf else Fin(f(v))
  }

  function Log10(o: Oracles, x: Float): Float { Log(o.log10, x) }

  function Ln(o: Oracles, x: Float): Float { Log(o.ln, x) }
}
