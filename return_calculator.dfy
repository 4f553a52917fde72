/** `EventReturnCalculator` (return_calculator.py): daily returns against the previous
    row, the event window of returns, the market-model estimation sample and the
    abnormal returns of the window. The natural logarithm and the least-squares fit are
    not modelled: they are parameters. */
module ReturnCalculator {
  import opened Wrappers
  import opened PriceFetcher
  import opened Calendar

  /** Simple returns, or log returns with the logarithm `ln` (`np.log`). */
  datatype ReturnMode = Simple | Log(ln: real -> real)

  /** The result of `ols("stock_return ~ index_return")`: its two parameters, its
      R-squared and its residuals. */
  datatype Fit = Fit(intercept: real, beta: real, rsquared: real, residual: seq<real>)

  /** A window row with its abnormal return and the market-model diagnostics. */
  datatype AbnormalRow = AbnormalRow(
    drift: int, date: int, stock: real, index: real, abnormal: real,
    rsquared: real, residual: seq<real>, intercept: real, beta: real)

  /** What a calculator is built from: the stock, the event date, the index, where the
      prices come from and how returns are computed. */
  datatype Setup = Setup(ticker: string, event: int, index: string, source: PriceSource, mode: ReturnMode)
  {
    /** Selecting a column missing from the local table raises `KeyError`. */
    predicate Valid() {
      Covers(source, ticker, index)
    }
  }

  /** Days of prices fetched on each side of the event per day of window (line 109). */
  const WindowRangeMultiplier := 7

  /** Days of prices fetched per return of the estimation period (line 129). */
  const EstimationRangeMultiplier := 2

  // ---------------------------------------------------------------------------------
  // Returns (lines 33-54).

  /** The return of one price against its lag (lines 46-51). A simple return against a
      zero lag is missing. */
  function Growth(mode: ReturnMode, price: real, lag: real): Option<real> {
    match mode
    case Simple => if lag == 0.0 then None else Some((price - lag) / lag)
    case Log(ln) => Some(ln(price) - ln(lag))
  }

  /** The return row of `cur` against the row `prev` before it, or `None` when either
      return is missing (line 52 drops such rows). */
  function StepReturn(mode: ReturnMode, prev: Quote, cur: Quote): Option<ReturnRow> {
    var s := Growth(mode, cur.stock, prev.stock);
    var i := Growth(mode, cur.index, prev.index);
    if s.Some? && i.Some? then Some(ReturnRow(cur.date, s.value, i.value)) else None
  }

  /** Lines 44-54 on a price table: every row against the row before it; the first row,
      whose lag is missing, and rows with a missing return are dropped. */
  function Returns(mode: ReturnMode, q: seq<Quote>): seq<ReturnRow>
    decreases |q|
  {
    if |q| < 2 then []
    else
      var last := StepReturn(mode, q[|q| - 2], q[|q| - 1]);
      Returns(mode, q[..|q| - 1]) + (if last.Some? then [last.value] else [])
  }

  /** `_calculate_return(start, end)`: `None` when the prices are unavailable. */
  function ReturnTable(c: Setup, start: int, end: int): Option<seq<ReturnRow>>
    requires c.Valid()
  {
    var prices := Fetch(c.source, c.ticker, c.index, start, end);
    if prices.None? then None else Some(Returns(c.mode, prices.value))
  }

  // ---------------------------------------------------------------------------------
  // The event window (lines 109-127).

  /** The first day of prices fetched for a window of `w` days (line 121). */
  function RangeStart(c: Setup, w: int): int {
    c.event - w * WindowRangeMultiplier
  }

  /** The last day of prices fetched for a window of `w` days (line 122). */
  function RangeEnd(c: Setup, w: int): int {
    c.event + w * WindowRangeMultiplier
  }

  /** Lines 124-127 on a return table: `None` when it is unavailable or empty, otherwise
      the window found in it. */
  function WindowOf(table: Option<seq<ReturnRow>>, event: int, w: int): Option<seq<WindowRow>> {
    if table.None? || |table.value| == 0 then None else WindowReturns(table.value, event, w)
  }

  /** `_calculate_window_return(w)`. */
  function WindowReturn(c: Setup, w: int): Option<seq<WindowRow>>
    requires c.Valid()
  {
    WindowOf(ReturnTable(c, RangeStart(c, w), RangeEnd(c, w)), c.event, w)
  }

  // ---------------------------------------------------------------------------------
  // The market model (lines 129-151).

  /** Where `iloc[-p:]` starts in `n` rows: `n - p` clamped at `0` for positive `p`, and
      `-p` clamped at `n` otherwise (`-0` is `0`, so `p == 0` keeps every row). */
  function SampleStart(n: nat, p: int): (k: nat)
    ensures k <= n
  {
    if p > 0 then (if p <= n then n - p else 0)
    else if -p <= n then -p else n
  }

  /** `return_df.iloc[-p:]` (line 145). */
  function EstimationSample(rows: seq<ReturnRow>, p: int): seq<ReturnRow> {
    rows[SampleStart(|rows|, p)..]
  }

  /** The last day of the estimation range (line 137). */
  function EstimationEnd(c: Setup, distance: int): int {
    c.event - distance
  }

  /** The first day of the estimation range (line 139). */
  function EstimationStart(c: Setup, distance: int, p: int): int {
    EstimationEnd(c, distance) - p * EstimationRangeMultiplier
  }

  /** Lines 141-151 on a return table: no fit (all four outputs `None`) when it is
      unavailable or shorter than `p`, otherwise the fit of its last `p` rows. */
  function FitOf(table: Option<seq<ReturnRow>>, ols: seq<ReturnRow> -> Fit, p: int): Option<Fit> {
    if table.None? || |table.value| < p then None else Some(ols(EstimationSample(table.value, p)))
  }

  /** `_estimate_market_model(distance, p)`. */
  function MarketModel(c: Setup, ols: seq<ReturnRow> -> Fit, distance: int, p: int): Option<Fit>
    requires c.Valid()
  {
    FitOf(ReturnTable(c, EstimationStart(c, distance, p), EstimationEnd(c, distance)), ols, p)
  }

  // ---------------------------------------------------------------------------------
  // Abnormal returns (lines 153-171).

  /** One window row with its abnormal return `stock - intercept - beta * index` and the
      fit's diagnostics (lines 165-170). */
  function Abnormal(r: WindowRow, f: Fit): AbnormalRow {
    AbnormalRow(r.drift, r.date, r.stock, r.index, r.stock - f.intercept - f.beta * r.index,
                f.rsquared, f.residual, f.intercept, f.beta)
  }

  /** The window with the abnormal-return and diagnostic columns of `fit` added. */
  function AbnormalColumns(window: seq<WindowRow>, fit: Fit): seq<AbnormalRow> {
    seq(|window|, i requires 0 <= i < |window| => Abnormal(window[i], fit))
  }

  /** Lines 163-171: `None` when the window or the fit is missing. */
  function AbnormalOf(window: Option<seq<WindowRow>>, fit: Option<Fit>): Option<seq<AbnormalRow>> {
    if window.None? || fit.None? then None else Some(AbnormalColumns(window.value, fit.value))
  }

  /** `calculate_window_abnormal(w, distance, p)`. */
  function WindowAbnormal(c: Setup, ols: seq<ReturnRow> -> Fit, w: int, distance: int, p: int)
    : Option<seq<AbnormalRow>>
    requires c.Valid()
  {
    AbnormalOf(WindowReturn(c, w), MarketModel(c, ols, distance, p))
  }

  /** Lines 165-170: the new columns are filled in one row at a time. */
  method AddAbnormalColumns(window: seq<WindowRow>, fit: Fit) returns (rows: seq<AbnormalRow>)
    ensures rows == AbnormalColumns(window, fit)
  {
    rows := [];
    var i := 0;
    while i < |window|
      invariant 0 <= i <= |window|
      invariant rows == AbnormalColumns(window[..i], fit)
    {
      assert AbnormalColumns(window[..i + 1], fit) == rows + [Abnormal(window[i], fit)];
      rows := rows + [Abnormal(window[i], fit)];
      i := i + 1;
    }
    assert window[..i] == window;
  }

  /** The calculator object: the fields set by `__init__` (lines 10-31). */
  class EventReturnCalculator {
    const ticker: string
    const eventDate: int
    const stockIndex: string
    const source: PriceSource
    const mode: ReturnMode

    function Config(): Setup {
      Setup(ticker, eventDate, stockIndex, source, mode)
    }

    constructor (ticker: string, eventDate: int, stockIndex: string, source: PriceSource, mode: ReturnMode)
      ensures Config() == Setup(ticker, eventDate, stockIndex, source, mode)
    {
      this.ticker := ticker;
      this.eventDate := eventDate;
      this.stockIndex := stockIndex;
      this.source := source;
      this.mode := mode;
    }

    /** `_calculate_return`: the lag and return columns are built row by row. */
    method CalculateReturn(start: int, end: int) returns (r: Option<seq<ReturnRow>>)
      requires Config().Valid()
      ensures r == ReturnTable(Config(), start, end)
    {
      var c := Config();
      var prices := Fetch(c.source, c.ticker, c.index, start, end);
      if prices.None? {
        return None;
      }
      var q := prices.value;
      var rows: seq<ReturnRow> := [];
      var k := 0;
      while k < |q|
        invariant 0 <= k <= |q|
        invariant rows == Returns(c.mode, q[..k])
      {
        ReturnsPrefixStep(c.mode, q, k);
        if k > 0 {
          var step := StepReturn(c.mode, q[k - 1], q[k]);
          if step.Some? {
            rows := rows + [step.value];
          }
        }
        k := k + 1;
      }
      assert q[..|q|] == q;
      return Some(rows);
    }

    /** `_calculate_window_return`. */
    method CalculateWindowReturn(w: int) returns (r: Option<seq<WindowRow>>)
      requires Config().Valid()
      ensures r == WindowReturn(Config(), w)
    {
      var c := Config();
      var table := CalculateReturn(RangeStart(c, w), RangeEnd(c, w));
      if table.None? || |table.value| == 0 {
        return None;
      }
      return WindowReturns(table.value, c.event, w);
    }

    /** `_estimate_market_model`. */
    method EstimateMarketModel(ols: seq<ReturnRow> -> Fit, distance: int, p: int) returns (fit: Option<Fit>)
      requires Config().Valid()
      ensures fit == MarketModel(Config(), ols, distance, p)
    {
      var c := Config();
      var table := CalculateReturn(EstimationStart(c, distance, p), EstimationEnd(c, distance));
      if table.None? || |table.value| < p {
        return None;
      }
      return Some(ols(EstimationSample(table.value, p)));
    }

    /** `calculate_window_abnormal`. */
    method CalculateWindowAbnormal(ols: seq<ReturnRow> -> Fit, w: int, distance: int, p: int)
      returns (r: Option<seq<AbnormalRow>>)
      requires Config().Valid()
      ensures r == WindowAbnormal(Config(), ols, w, distance, p)
    {
      var window := CalculateWindowReturn(w);
      var fit := EstimateMarketModel(ols, distance, p);
      if window.None? || fit.None? {
        return None;
      }
      var rows := AddAbnormalColumns(window.value, fit.value);
      return Some(rows);
    }
  }

  // ---------------------------------------------------------------------------------
  // Properties of returns.

  /** A simple return is the relative change from the lag: the price is recovered as
      `lag * (1 + g)`. A log return is the change of logarithms. */
  lemma GrowthRecoversPrice(mode: ReturnMode, price: real, lag: real)
    ensures mode.Simple? ==> (Growth(mode, price, lag).None? <==> lag == 0.0)
    ensures mode.Simple? && lag != 0.0 ==> lag * (1.0 + Growth(mode, price, lag).value) == price
    ensures mode.Log? ==> mode.ln(lag) + Growth(mode, price, lag).value == mode.ln(price)
  {
    if mode.Simple? && lag != 0.0 {
      var g := (price - lag) / lag;
      assert lag * g == price - lag;
      assert lag * (1.0 + g) == lag + lag * g;
    }
  }

  lemma ReturnsUnfold(mode: ReturnMode, q: seq<Quote>)
    requires |q| >= 2
    ensures Returns(mode, q) == Returns(mode, q[..|q| - 1])
              + (if StepReturn(mode, q[|q| - 2], q[|q| - 1]).Some? then [StepReturn(mode, q[|q| - 2], q[|q| - 1]).value] else [])
  {
  }

  /** One more quote in the prefix adds at most the return against the quote before it. */
  lemma ReturnsPrefixStep(mode: ReturnMode, q: seq<Quote>, k: nat)
    requires k < |q|
    ensures k == 0 ==> Returns(mode, q[..k + 1]) == []
    ensures k > 0 ==>
              var step := StepReturn(mode, q[k - 1], q[k]);
              Returns(mode, q[..k + 1]) == Returns(mode, q[..k]) + (if step.Some? then [step.value] else [])
  {
    if k > 0 {
      var p := q[..k + 1];
      assert p[..k] == q[..k] && p[k - 1] == q[k - 1] && p[k] == q[k];
      ReturnsUnfold(mode, p);
    }
  }

  /** Every return row is some row taken against the row just before it, and every row
      whose returns both exist gives a return row. */
  lemma ReturnsLag(mode: ReturnMode, q: seq<Quote>, r: ReturnRow)
    ensures r in Returns(mode, q) <==> exists k :: 1 <= k < |q| && StepReturn(mode, q[k - 1], q[k]) == Some(r)
  {
    if r in Returns(mode, q) {
      ReturnHasLag(mode, q, r);
    }
    if exists k :: 1 <= k < |q| && StepReturn(mode, q[k - 1], q[k]) == Some(r) {
      var k :| 1 <= k < |q| && StepReturn(mode, q[k - 1], q[k]) == Some(r);
      LagGivesReturn(mode, q, k);
    }
  }

  lemma {:induction false} ReturnHasLag(mode: ReturnMode, q: seq<Quote>, r: ReturnRow)
    requires r in Returns(mode, q)
    ensures exists k :: 1 <= k < |q| && StepReturn(mode, q[k - 1], q[k]) == Some(r)
    decreases |q|
  {
    var init := q[..|q| - 1];
    ReturnsUnfold(mode, q);
    if r in Returns(mode, init) {
      ReturnHasLag(mode, init, r);
      var k :| 1 <= k < |init| && StepReturn(mode, init[k - 1], init[k]) == Some(r);
      assert init[k - 1] == q[k - 1] && init[k] == q[k];
    } else {
      assert StepReturn(mode, q[|q| - 2], q[|q| - 1]) == Some(r);
    }
  }

  lemma {:induction false} LagGivesReturn(mode: ReturnMode, q: seq<Quote>, k: int)
    requires 1 <= k < |q| && StepReturn(mode, q[k - 1], q[k]).Some?
    ensures StepReturn(mode, q[k - 1], q[k]).value in Returns(mode, q)
    decreases |q|
  {
    var init := q[..|q| - 1];
    ReturnsUnfold(mode, q);
    if k < |q| - 1 {
      assert init[k - 1] == q[k - 1] && init[k] == q[k];
      LagGivesReturn(mode, init, k);
    }
  }

  /** In log mode every row but the first gives a return: the table is one row shorter
      than the prices. */
  lemma {:induction false} LogReturnsCount(ln: real -> real, q: seq<Quote>)
    requires q != []
    ensures |Returns(Log(ln), q)| == |q| - 1
    decreases |q|
  {
    if |q| >= 2 {
      LogReturnsCount(ln, q[..|q| - 1]);
    }
  }

  /** A return row's date is the date of its price row; a price table in ascending date
      order gives a return table in ascending date order. */
  lemma {:induction false} ReturnsAscending(mode: ReturnMode, q: seq<Quote>)
    requires forall i, j :: 0 <= i < j < |q| ==> q[i].date < q[j].date
    ensures Ascending(Returns(mode, q))
    ensures forall r :: r in Returns(mode, q) ==> q != [] && q[0].date < r.date <= q[|q| - 1].date
    decreases |q|
  {
    if |q| >= 2 {
      var init := q[..|q| - 1];
      ReturnsAscending(mode, init);
      ReturnsUnfold(mode, q);
      assert forall k :: 0 <= k < |init| ==> init[k] == q[k];
    }
  }

  /** Every return row is dated within the fetched range. */
  lemma ReturnTableDates(c: Setup, start: int, end: int)
    requires c.Valid()
    requires ReturnTable(c, start, end).Some?
    ensures forall r :: r in ReturnTable(c, start, end).value ==> start <= r.date <= end
  {
    var q := Fetch(c.source, c.ticker, c.index, start, end).value;
    FetchSpec(c.source, c.ticker, c.index, start, end);
    forall r | r in ReturnTable(c, start, end).value ensures start <= r.date <= end {
      ReturnsLag(c.mode, q, r);
      var k :| 1 <= k < |q| && StepReturn(c.mode, q[k - 1], q[k]) == Some(r);
      assert q[k] in q;
    }
  }

  // ---------------------------------------------------------------------------------
  // Properties of the window.

  /** No window exactly when the returns are unavailable, empty, or all before the
      event; a window row carries the returns of its own day, and its drift is
      non-negative exactly when it is on or after the event. */
  lemma WindowOfRows(table: Option<seq<ReturnRow>>, event: int, w: int)
    ensures WindowOf(table, event, w).None? <==>
              table.None? || forall k :: 0 <= k < |table.value| ==> table.value[k].date < event
    ensures WindowOf(table, event, w).Some? ==>
              forall r :: r in WindowOf(table, event, w).value ==>
                && ReturnRow(r.date, r.stock, r.index) in table.value
                && (r.drift >= 0 <==> r.date >= event)
  {
    if table.Some? && |table.value| > 0 {
      WindowNoneIff(table.value, event, w);
      if WindowReturns(table.value, event, w).Some? {
        WindowRowsObserved(table.value, event, w);
      }
    }
  }

  /** The window's trading-day drifts are consecutive and within `[-w, w]`. */
  lemma WindowOfShape(table: Option<seq<ReturnRow>>, event: int, w: int)
    requires WindowOf(table, event, w).Some?
    ensures var win := WindowOf(table, event, w).value;
            && (forall i :: 0 <= i < |win| ==> -w <= win[i].drift <= w)
            && (forall i :: 0 < i < |win| ==> win[i].drift == win[i - 1].drift + 1)
  {
    WindowReturnsShape(table.value, event, w);
  }

  /** The window's dates lie in the fetched range `event ± 7w`. */
  lemma WindowWithinFetchedRange(c: Setup, w: int)
    requires c.Valid()
    requires WindowReturn(c, w).Some?
    ensures forall r :: r in WindowReturn(c, w).value ==> RangeStart(c, w) <= r.date <= RangeEnd(c, w)
  {
    var start, end := RangeStart(c, w), RangeEnd(c, w);
    var table := ReturnTable(c, start, end);
    WindowOfRows(table, c.event, w);
    ReturnTableDates(c, start, end);
  }

  // ---------------------------------------------------------------------------------
  // Properties of the market model.

  /** The estimation sample is the last `p` return rows when `p` is positive. */
  lemma SampleIsLastRows(rows: seq<ReturnRow>, p: int)
    requires 0 < p <= |rows|
    ensures |EstimationSample(rows, p)| == p
    ensures forall i :: 0 <= i < p ==> EstimationSample(rows, p)[i] == rows[|rows| - p + i]
  {
  }

  /** The sample holds rows of the table only, so it keeps any bound on their dates. */
  lemma SampleMembers(rows: seq<ReturnRow>, p: int, lo: int, hi: int)
    ensures forall r :: r in EstimationSample(rows, p) ==> r in rows
    ensures (forall r :: r in rows ==> lo <= r.date <= hi) ==>
              forall r :: r in EstimationSample(rows, p) ==> lo <= r.date <= hi
  {
  }

  /** No fit exactly when the returns are unavailable or fewer than `p`; otherwise the
      fit of the sample, which has `p` rows for positive `p`. */
  lemma FitOfSample(table: Option<seq<ReturnRow>>, ols: seq<ReturnRow> -> Fit, p: int)
    ensures FitOf(table, ols, p).None? <==> table.None? || |table.value| < p
    ensures FitOf(table, ols, p).Some? ==> FitOf(table, ols, p).value == ols(EstimationSample(table.value, p))
    ensures FitOf(table, ols, p).Some? && p > 0 ==> |EstimationSample(table.value, p)| == p
  {
  }

  /** The sample the market model is fitted on is dated within the estimation range
      `[event - distance - 2p, event - distance]`. */
  lemma SampleWithinRange(c: Setup, distance: int, p: int)
    requires c.Valid()
    requires ReturnTable(c, EstimationStart(c, distance, p), EstimationEnd(c, distance)).Some?
    ensures forall r :: r in EstimationSample(ReturnTable(c, EstimationStart(c, distance, p), EstimationEnd(c, distance)).value, p) ==>
              EstimationStart(c, distance, p) <= r.date <= EstimationEnd(c, distance)
  {
    var start, end := EstimationStart(c, distance, p), EstimationEnd(c, distance);
    ReturnTableDates(c, start, end);
    SampleMembers(ReturnTable(c, start, end).value, p, start, end);
  }

  // ---------------------------------------------------------------------------------
  // Properties of the abnormal returns.

  /** The abnormal table is missing exactly when the window or the fit is; otherwise it
      has one row per window row, with the same drift, date and returns, the abnormal
      return `stock - intercept - beta * index` and the fit's diagnostics on every row. */
  lemma AbnormalRows(window: Option<seq<WindowRow>>, fit: Option<Fit>)
    ensures AbnormalOf(window, fit).None? <==> window.None? || fit.None?
    ensures AbnormalOf(window, fit).Some? ==>
              var r, win, f := AbnormalOf(window, fit).value, window.value, fit.value;
              && |r| == |win|
              && forall i :: 0 <= i < |r| ==>
                   && r[i].drift == win[i].drift
                   && r[i].date == win[i].date
                   && r[i].stock == win[i].stock
                   && r[i].index == win[i].index
                   && r[i].abnormal + f.intercept + f.beta * r[i].index == r[i].stock
                   && r[i].rsquared == f.rsquared
                   && r[i].residual == f.residual
                   && r[i].intercept == f.intercept
                   && r[i].beta == f.beta
  {
  }
}
