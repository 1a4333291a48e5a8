/** The walk-forward driver: a formation window of 730 days followed by a trading window of 182
    days, both advanced by 182 days while the trading window ends inside the data; in each
    window the three selectors run on the formation slice and their results are appended.
    Dates are day numbers. */
module WalkForward {
  import opened Wrappers
  import opened Floats
  import opened Oracles
  import opened Strings
  import opened Sequences
  import opened PairStatistics
  import opened Selection
  import NoClustering
  import ThemeClustering
  import Optics

  const FormationDays: int := 730
  const ValidationDays: int := 90
  const TradingDays: int := 182
  const StepDays: int := 182

  /** `int(n * 0.01)`: the double nearest 0.01 lies just above 1/100, so the product never rounds
      below an integer and the truncation is n / 100. */
  function EmbargoStep(n: nat): nat
  {
    n / 100
  }

  /** The price panel: one date per row and the columns over those rows. */
  datatype Panel = Panel(dates: seq<int>, columns: seq<Column>)

  predicate WellFormed(p: Panel)
  {
    forall c :: 0 <= c < |p.columns| ==> |p.columns[c].values| == |p.dates|
  }

  // ---------------------------------------------------------------------------------------
  // Embargo map

  function Zip(a: seq<int>, b: seq<int>): (r: seq<(int, int)>)
    requires |a| == |b|
    ensures |r| == |a|
    ensures forall i :: 0 <= i < |a| ==> r[i] == (a[i], b[i])
  {
    seq(|a|, i requires 0 <= i < |a| => (a[i], b[i]))
  }

  function Min(a: int, b: int): int
  {
    if a <= b then a else b
  }

  /** `getEmbargoTimes(times, 0.01)` as its (index, value) entries: with a zero step every time
      maps to itself; otherwise each time maps to the time `step` rows later, and the last
      `step` times map to the last time. */
  function EmbargoTimes(times: seq<int>): seq<(int, int)>
  {
    var n := |times|;
    var step := EmbargoStep(n);
    if step == 0 then Zip(times, times) else Shifted(times, step)
  }

  /** `times[step:]` indexed by `times[:-step]`, then the last time for the last `step` times. */
  function Shifted(times: seq<int>, step: nat): seq<(int, int)>
    requires 0 < step <= |times|
  {
    var n := |times|;
    Zip(times[..n - step], times[step..]) + Zip(times[n - step..], seq(step, _ => times[n - 1]))
  }

  /** The map has one entry per time, keyed by that time, and sends `times[i]` to
      `times[min(i + step, n - 1)]`. */
  lemma EmbargoClosedForm(times: seq<int>)
    ensures var r := EmbargoTimes(times);
      && |r| == |times|
      && forall i :: 0 <= i < |times| ==>
        r[i] == (times[i], times[Min(i + EmbargoStep(|times|), |times| - 1)])
  {
    if EmbargoStep(|times|) > 0 {
      EmbargoShifted(times);
    } else {
      EmbargoIdentity(times);
    }
  }

  lemma EmbargoShifted(times: seq<int>)
    requires EmbargoStep(|times|) > 0
    ensures var r := EmbargoTimes(times);
      && |r| == |times|
      && forall i :: 0 <= i < |times| ==>
        r[i] == (times[i], times[Min(i + EmbargoStep(|times|), |times| - 1)])
  {
    var step := EmbargoStep(|times|);
    assert step <= |times|;
    ShiftedEntries(times, step);
    assert EmbargoTimes(times) == Shifted(times, step);
  }

  lemma EmbargoIdentity(times: seq<int>)
    requires EmbargoStep(|times|) == 0
    ensures var r := EmbargoTimes(times);
      && |r| == |times|
      && forall i :: 0 <= i < |times| ==>
        r[i] == (times[i], times[Min(i + EmbargoStep(|times|), |times| - 1)])
  {
    var n := |times|;
    assert EmbargoTimes(times) == Zip(times, times);
    forall i | 0 <= i < n
      ensures EmbargoTimes(times)[i] == (times[i], times[Min(i + EmbargoStep(n), n - 1)])
    {
      assert Min(i + EmbargoStep(n), n - 1) == i;
    }
  }

  /** The two concatenated series of a non-zero step, entry by entry. */
  lemma ShiftedEntries(times: seq<int>, step: nat)
    requires 0 < step <= |times|
    ensures |Shifted(times, step)| == |times|
    ensures forall i :: 0 <= i < |times| ==> Shifted(times, step)[i] == (times[i], times[Min(i + step, |times| - 1)])
  {
    var n := |times|;
    var head := Zip(times[..n - step], times[step..]);
    var tail := Zip(times[n - step..], seq(step, _ => times[n - 1]));
    var r := Shifted(times, step);
    assert r == head + tail;
    forall i | 0 <= i < n
      ensures r[i] == (times[i], times[Min(i + step, n - 1)])
    {
      if i < n - step {
        assert r[i] == head[i];
      } else {
        assert r[i] == tail[i - (n - step)];
      }
    }
  }

  /** Fewer than 100 rows give a zero step, and the map is the identity. */
  lemma EmbargoShortIndex(times: seq<int>)
    requires |times| < 100
    ensures forall i :: 0 <= i < |times| ==> EmbargoTimes(times)[i] == (times[i], times[i])
  {
  }

  /** On an ascending index no time is sent backwards. */
  lemma EmbargoForward(times: seq<int>)
    requires forall i, j :: 0 <= i < j < |times| ==> times[i] <= times[j]
    ensures forall e :: e in EmbargoTimes(times) ==> e.0 <= e.1
  {
    var r := EmbargoTimes(times);
    var n, step := |times|, EmbargoStep(|times|);
    EmbargoClosedForm(times);
    forall e | e in r ensures e.0 <= e.1 {
      var i :| 0 <= i < |r| && r[i] == e;
      var j := Min(i + step, n - 1);
      assert r[i] == (times[i], times[j]);
      if i < j {
        assert times[i] <= times[j];
      }
    }
  }

  // ---------------------------------------------------------------------------------------
  // Slices

  /** The positions of `df[a:b]`: the rows dated from `a` through `b`, both included. */
  function SliceRows(dates: seq<int>, a: int, b: int): (r: seq<nat>)
    ensures forall k :: 0 <= k < |r| ==> r[k] < |dates| && a <= dates[r[k]] <= b
    ensures forall t: nat :: t < |dates| && a <= dates[t] <= b ==> t in r
  {
    Positions(|dates|, (t: nat) => t < |dates| && a <= dates[t] <= b)
  }

  /** `df[a:b]` */
  function Slice(p: Panel, a: int, b: int): (r: seq<Column>)
    requires WellFormed(p)
    ensures |r| == |p.columns|
    ensures forall c :: 0 <= c < |r| ==>
      r[c] == Column(p.columns[c].name, Keep(p.columns[c].values, SliceRows(p.dates, a, b)))
    ensures SameLength(r)
  {
    var rows := SliceRows(p.dates, a, b);
    seq(|p.columns|, c requires 0 <= c < |p.columns| =>
      Column(p.columns[c].name, Keep(p.columns[c].values, rows)))
  }

  /** Label slices include both ends: the row dated at the formation end belongs to the formation
      slice and to the trading slice that starts on the same day. */
  lemma BoundaryInBothSlices(dates: seq<int>, w: Window, t: nat)
    requires w.formationStart <= w.formationEnd == w.tradingStart <= w.tradingEnd
    requires t < |dates| && dates[t] == w.formationEnd
    ensures t in SliceRows(dates, w.formationStart, w.formationEnd)
    ensures t in SliceRows(dates, w.tradingStart, w.tradingEnd)
  {
  }

  // ---------------------------------------------------------------------------------------
  // The schedule

  function Initial(start: int): Window
  {
    Window(start, start + FormationDays, start + FormationDays, start + FormationDays + TradingDays)
  }

  /** All four boundaries `+= step_size`. */
  function Advance(w: Window): Window
  {
    Window(w.formationStart + StepDays, w.formationEnd + StepDays,
           w.tradingStart + StepDays, w.tradingEnd + StepDays)
  }

  /** The windows the loop visits from `w` on. */
  function WindowsFrom(w: Window, end: int): seq<Window>
    decreases end - w.tradingEnd
  {
    if w.tradingEnd > end then [] else [w] + WindowsFrom(Advance(w), end)
  }

  /** `df.index.min()` and `df.index.max()`; None for an empty index, whose missing bounds fail
      every comparison. */
  function DataRange(dates: seq<int>): (r: Option<(int, int)>)
    ensures r.None? <==> dates == []
    ensures r.Some? ==> r.value.0 in dates && r.value.1 in dates
    ensures r.Some? ==> forall d :: d in dates ==> r.value.0 <= d <= r.value.1
  {
    if dates == [] then None
    else if |dates| == 1 then Some((dates[0], dates[0]))
    else
      var rest := DataRange(dates[1..]).value;
      assert dates == [dates[0]] + dates[1..];
      Some((if dates[0] < rest.0 then dates[0] else rest.0, if dates[0] > rest.1 then dates[0] else rest.1))
  }

  function Schedule(dates: seq<int>): seq<Window>
  {
    match DataRange(dates)
    case None => []
    case Some((start, end)) => WindowsFrom(Initial(start), end)
  }

  /** How many windows fit between `start` and `end`. */
  function WindowCount(start: int, end: int): nat
  {
    if end - start >= FormationDays + TradingDays then (end - start - FormationDays - TradingDays) / StepDays + 1
    else 0
  }

  lemma {:induction false} WindowsFromCount(w: Window, end: int)
    ensures |WindowsFrom(w, end)| == if w.tradingEnd <= end then (end - w.tradingEnd) / StepDays + 1 else 0
    decreases end - w.tradingEnd
  {
    if w.tradingEnd <= end {
      WindowsFromCount(Advance(w), end);
      var d := end - w.tradingEnd;
      if d >= StepDays {
        assert (d - StepDays) / StepDays + 1 == d / StepDays;
      }
    }
  }

  /** The loop runs floor((D - F - T) / S) + 1 times when the data span D holds one formation and
      one trading window, and not at all otherwise. */
  lemma ScheduleCount(start: int, end: int)
    ensures |WindowsFrom(Initial(start), end)| == WindowCount(start, end)
  {
    WindowsFromCount(Initial(start), end);
  }

  /** The k-th window is the first shifted by k steps. */
  function Shift(w: Window, d: int): Window
  {
    Window(w.formationStart + d, w.formationEnd + d, w.tradingStart + d, w.tradingEnd + d)
  }

  lemma {:induction false} WindowsFromShape(w: Window, end: int)
    ensures forall k :: 0 <= k < |WindowsFrom(w, end)| ==>
      && WindowsFrom(w, end)[k] == Shift(w, k * StepDays)
      && WindowsFrom(w, end)[k].tradingEnd <= end
    decreases end - w.tradingEnd
  {
    if w.tradingEnd <= end {
      var rest := WindowsFrom(Advance(w), end);
      WindowsFromShape(Advance(w), end);
      forall k | 0 < k < |WindowsFrom(w, end)|
        ensures WindowsFrom(w, end)[k] == Shift(w, k * StepDays)
      {
        assert WindowsFrom(w, end)[k] == rest[k - 1];
        assert (k - 1) * StepDays + StepDays == k * StepDays;
      }
    }
  }

  /** Every visited window keeps the gaps of the first: 730 formation days, a trading window that
      starts where formation ends and lasts 182 days, inside the data; consecutive windows are one
      step apart. */
  lemma ScheduleShape(dates: seq<int>)
    ensures var ws := Schedule(dates);
      && (forall k :: 0 <= k < |ws| ==>
        && ws[k].formationEnd - ws[k].formationStart == FormationDays
        && ws[k].tradingStart == ws[k].formationEnd
        && ws[k].tradingEnd - ws[k].tradingStart == TradingDays
        && ws[k].tradingEnd <= DataRange(dates).value.1
        && ws[k].formationStart == DataRange(dates).value.0 + k * StepDays)
      && (forall k :: 0 < k < |ws| ==> ws[k] == Advance(ws[k - 1]))
  {
    if dates != [] {
      var (start, end) := DataRange(dates).value;
      WindowsFromShape(Initial(start), end);
      var ws := Schedule(dates);
      forall k | 0 < k < |ws| ensures ws[k] == Advance(ws[k - 1]) {
        assert (k - 1) * StepDays + StepDays == k * StepDays;
      }
    }
  }

  // ---------------------------------------------------------------------------------------
  // The run

  /** The records one window adds: no-clustering, then theme, then OPTICS, on the formation slice
      with the trading days of the window; the first selector that aborts aborts the run. */
  function Period(p: Panel, info: seq<ThemeClustering.TickerInfo>, themeOrder: seq<Column> -> seq<string>,
                  w: Window, o: Oracles): Outcome<seq<Record>>
    requires WellFormed(p)
  {
    Selectors(Slice(p, w.formationStart, w.formationEnd), info, themeOrder, w, ActualDays(w), o)
  }

  /** `(trading_end_date - trading_start_date).days` */
  function ActualDays(w: Window): int
  {
    w.tradingEnd - w.tradingStart
  }

  /** The three selectors on one formation frame, in order. */
  function Selectors(formation: seq<Column>, info: seq<ThemeClustering.TickerInfo>,
                     themeOrder: seq<Column> -> seq<string>, w: Window, days: int, o: Oracles): Outcome<seq<Record>>
    requires SameLength(formation)
  {
    match NoClustering.NoClusteringSelection(formation, w, days, o)
    case Fatal(e) => Fatal(e)
    case Ok(a) =>
      match ThemeClustering.ThemeSelection(formation, info, themeOrder(formation), w, days, o)
      case Fatal(e) => Fatal(e)
      case Ok(b) =>
        match Optics.OpticsSelection(formation, w, days, o)
        case Fatal(e) => Fatal(e)
        case Ok(c) => Ok(a.records + b.records + c.records)
  }

  /** The steps of one run as a function of the window. */
  function PeriodOf(p: Panel, info: seq<ThemeClustering.TickerInfo>, themeOrder: seq<Column> -> seq<string>,
                    o: Oracles): Window -> Outcome<seq<Record>>
    requires WellFormed(p)
  {
    w => Period(p, info, themeOrder, w, o)
  }

  /** `all_selected_pairs` after the windows `ws`: each window's records appended in turn; the
      first window that aborts aborts the run. */
  function Accumulate(ws: seq<Window>, period: Window -> Outcome<seq<Record>>): Outcome<seq<Record>>
  {
    if ws == [] then Ok([])
    else
      match Accumulate(ws[..|ws| - 1], period)
      case Fatal(e) => Fatal(e)
      case Ok(acc) =>
        match period(ws[|ws| - 1])
        case Fatal(e) => Fatal(e)
        case Ok(recs) => Ok(acc + recs)
  }

  /** Once a window aborts, the run stays aborted with the same error. */
  lemma {:induction false} AbortIsFinal(ws: seq<Window>, more: seq<Window>, period: Window -> Outcome<seq<Record>>)
    requires Accumulate(ws, period).Fatal?
    ensures Accumulate(ws + more, period) == Accumulate(ws, period)
  {
    if more != [] {
      var init := more[..|more| - 1];
      AbortIsFinal(ws, init, period);
      assert (ws + more)[..|ws + more| - 1] == ws + init;
    } else {
      assert ws + more == ws;
    }
  }

  /** The accumulation is append-only: a run that completes extends the records of every
      shorter run over a prefix of its windows. */
  lemma {:induction false} AppendOnly(ws: seq<Window>, more: seq<Window>, period: Window -> Outcome<seq<Record>>)
    requires Accumulate(ws + more, period).Ok?
    ensures Accumulate(ws, period).Ok?
    ensures var before, after := Accumulate(ws, period).value, Accumulate(ws + more, period).value;
      |before| <= |after| && before == after[..|before|]
  {
    if more == [] {
      assert ws + more == ws;
    } else {
      var init := more[..|more| - 1];
      assert (ws + more)[..|ws + more| - 1] == ws + init;
      AppendOnly(ws, init, period);
    }
  }

  /** A window that fits in the data is scheduled, followed by the windows one step later. */
  lemma WindowsFromStep(w: Window, end: int)
    requires w.tradingEnd <= end
    ensures WindowsFrom(w, end) == [w] + WindowsFrom(Advance(w), end)
  {
  }

  /** A window that completes appends its records. */
  lemma AccumulateStep(done: seq<Window>, w: Window, period: Window -> Outcome<seq<Record>>)
    requires Accumulate(done, period).Ok? && period(w).Ok?
    ensures Accumulate(done + [w], period) == Ok(Accumulate(done, period).value + period(w).value)
  {
    assert (done + [w])[..|done|] == done;
  }

  /** An abort in window `w` is the abort of every schedule that reaches `w`. */
  lemma Aborted(done: seq<Window>, w: Window, end: int, period: Window -> Outcome<seq<Record>>)
    requires w.tradingEnd <= end
    requires Accumulate(done, period).Ok? && period(w).Fatal?
    ensures Accumulate(done + WindowsFrom(w, end), period) == period(w)
  {
    assert (done + [w])[..|done|] == done;
    AbortIsFinal(done + [w], WindowsFrom(Advance(w), end), period);
    assert done + WindowsFrom(w, end) == done + [w] + WindowsFrom(Advance(w), end);
  }

  /** One window of the loop that did not abort: the records are appended and the remaining
      schedule starts at the advanced window. */
  lemma StepOk(schedule: seq<Window>, done: seq<Window>, w: Window, end: int,
               period: Window -> Outcome<seq<Record>>, all: seq<Record>)
    requires w.tradingEnd <= end && schedule == done + WindowsFrom(w, end)
    requires Accumulate(done, period) == Ok(all) && period(w).Ok?
    ensures schedule == (done + [w]) + WindowsFrom(Advance(w), end)
    ensures Accumulate(done + [w], period) == Ok(all + period(w).value)
  {
    WindowsFromStep(w, end);
    AccumulateStep(done, w, period);
  }

  /** One window of the loop that aborted: its error is the outcome of the whole schedule. */
  lemma StepFatal(schedule: seq<Window>, done: seq<Window>, w: Window, end: int,
                  period: Window -> Outcome<seq<Record>>)
    requires w.tradingEnd <= end && schedule == done + WindowsFrom(w, end)
    requires Accumulate(done, period).Ok? && period(w).Fatal?
    ensures Accumulate(schedule, period) == period(w)
  {
    Aborted(done, w, end, period);
  }

  /** The `while` loop of `main` over the windows from `Initial(start)` to `end`; `period` is what
      one iteration computes. */
  method RunSchedule(start: int, end: int, period: Window -> Outcome<seq<Record>>)
    returns (out: Outcome<seq<Record>>)
    ensures out == Accumulate(WindowsFrom(Initial(start), end), period)
  {
    var formationStart := start;
    var formationEnd := formationStart + FormationDays;
    var tradingStart := formationEnd;
    var tradingEnd := tradingStart + TradingDays;
    var all: seq<Record> := [];
    ghost var done: seq<Window> := [];
    ghost var schedule := WindowsFrom(Initial(start), end);
    assert schedule == done + schedule;
    while tradingEnd <= end
      invariant schedule == done + WindowsFrom(Window(formationStart, formationEnd, tradingStart, tradingEnd), end)
      invariant Accumulate(done, period) == Ok(all)
      decreases end - tradingEnd
    {
      var w := Window(formationStart, formationEnd, tradingStart, tradingEnd);
      var result := period(w);
      if result.Fatal? {
        StepFatal(schedule, done, w, end, period);
        return Fatal(result.error);
      }
      StepOk(schedule, done, w, end, period, all);
      all := all + result.value;
      done := done + [w];
      formationStart := formationStart + StepDays;
      formationEnd := formationEnd + StepDays;
      tradingStart := tradingStart + StepDays;
      tradingEnd := tradingEnd + StepDays;
      assert Window(formationStart, formationEnd, tradingStart, tradingEnd) == Advance(w);
    }
    assert done + [] == done;
    out := Ok(all);
  }

  /** `main` after loading the table: the window loop from the first to the last date, each
      iteration running the three selectors on its formation slice. `themeOrder` stands for the
      order in which `list(set(...))` lists a frame's prefixes, so every window meets the
      precondition of `RunWindow`. */
  method WalkForwardRun(p: Panel, info: seq<ThemeClustering.TickerInfo>,
                        themeOrder: seq<Column> -> seq<string>, o: Oracles)
    returns (out: Outcome<seq<Record>>)
    requires WellFormed(p)
    requires forall f :: IsSetOrder(themeOrder(f), Prefixes(AdjCloseColumns(f)))
    ensures out == Accumulate(Schedule(p.dates), PeriodOf(p, info, themeOrder, o))
  {
    if p.dates == [] {
      return Ok([]);
    }
    var (start, end) := DataRange(p.dates).value;
    out := RunSchedule(start, end, PeriodOf(p, info, themeOrder, o));
  }

  /** One iteration's three selector calls on the formation slice. */
  method RunSelectors(formation: seq<Column>, info: seq<ThemeClustering.TickerInfo>,
                      themeOrder: seq<Column> -> seq<string>, w: Window, days: int, o: Oracles)
    returns (r: Outcome<seq<Record>>)
    requires SameLength(formation)
    requires IsSetOrder(themeOrder(formation), Prefixes(AdjCloseColumns(formation)))
    ensures r == Selectors(formation, info, themeOrder, w, days, o)
  {
    var noCluster := NoClustering.SelectPairsNoClustering(formation, w, days, o);
    if noCluster.Fatal? {
      return Fatal(noCluster.error);
    }
    var theme := ThemeClustering.SelectPairsThemeClustering(formation, info, themeOrder(formation), w, days, o);
    if theme.Fatal? {
      return Fatal(theme.error);
    }
    var optics := Optics.SelectPairsOptics(formation, w, days, o);
    if optics.Fatal? {
      return Fatal(optics.error);
    }
    r := Ok(noCluster.value.records + theme.value.records + optics.value.records);
  }

  /** One iteration: slice the formation window and run the three selectors on it. */
  method RunWindow(p: Panel, info: seq<ThemeClustering.TickerInfo>, themeOrder: seq<Column> -> seq<string>,
                   w: Window, o: Oracles)
    returns (r: Outcome<seq<Record>>)
    requires WellFormed(p)
    requires IsSetOrder(themeOrder(Slice(p, w.formationStart, w.formationEnd)), Prefixes(AdjCloseColumns(Slice(p, w.formationStart, w.formationEnd))))
    ensures r == PeriodOf(p, info, themeOrder, o)(w)
  {
    var formation := Slice(p, w.formationStart, w.formationEnd);
    var days := ActualDays(w);
    r := RunSelectors(formation, info, themeOrder, w, days, o);
  }
}
