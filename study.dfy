/** The event-study driver (study.py): the check that every symbol of the events has a
    column in the price table, the choice of the number of workers, the layout of the
    result columns, one result row per event (filled only when the event window is
    complete) and the event-by-event run. The worker pool is modelled as a sequential
    map: it collects the results in submission order. */
module Study {
  import opened Wrappers
  import opened Text
  import opened Seqs
  import opened PriceFetcher
  import opened Calendar
  import opened ReturnCalculator

  /** One row of the event table: the event date, the stock and the index symbol, and
      the other columns, which pass through to the output unchanged. */
  datatype Event = Event(date: int, ticker: string, index: string, extra: seq<string>)

  /** The `num_process` argument: not given, an `int`, or a value of another type. */
  datatype Workers = Unspecified | Count(n: int) | Other

  /** One field of a result row. */
  datatype Field = Null | Day(date: int) | Value(x: real) | Residuals(rs: seq<real>)

  /** One output row: the event's own columns followed by its result columns. */
  datatype Output = Output(event: Event, cells: seq<Field>)

  /** What `event_study` returns when the check passes: the output rows and the number
      of workers the run was given. */
  datatype StudyResult = StudyResult(rows: seq<Output>, workers: int)

  // ---------------------------------------------------------------------------------
  // `event_study_check` (lines 66-86).

  /** `set(df[ticker_column])` (line 79). */
  function Tickers(events: seq<Event>): set<string> {
    set e | e in events :: e.ticker
  }

  /** `set(df[stock_index_column])` (line 80). */
  function Indices(events: seq<Event>): set<string> {
    set e | e in events :: e.index
  }

  /** Every stock and index symbol named by the events (line 81). */
  function Symbols(events: seq<Event>): set<string> {
    Tickers(events) + Indices(events)
  }

  /** Without a price table there is nothing to check; otherwise every symbol must be a
      column of the table (lines 77-86). */
  predicate Check(events: seq<Event>, table: Option<PriceTable>) {
    table.None? || Symbols(events) <= table.value.columns
  }

  /** The symbols of one event are columns of the table, when there is one. */
  predicate Listed(table: Option<PriceTable>, e: Event) {
    table.Some? ==> e.ticker in table.value.columns && e.index in table.value.columns
  }

  /** The check passes exactly when both symbols of every event are columns. */
  lemma CheckListsEvents(events: seq<Event>, table: Option<PriceTable>)
    ensures Check(events, table) ==> forall e :: e in events ==> Listed(table, e)
  {
    if Check(events, table) && table.Some? {
      forall e | e in events ensures Listed(table, e) {
        assert e.ticker in Tickers(events) && e.index in Indices(events);
      }
    }
  }

  lemma ListedEventsPass(events: seq<Event>, table: Option<PriceTable>)
    ensures (forall e :: e in events ==> Listed(table, e)) ==> Check(events, table)
  {
    if (forall e :: e in events ==> Listed(table, e)) && table.Some? {
      forall s | s in Symbols(events) ensures s in table.value.columns {
        if s in Tickers(events) {
          var e :| e in events && e.ticker == s;
          assert Listed(table, e);
        } else {
          var e :| e in events && e.index == s;
          assert Listed(table, e);
        }
      }
    }
  }

  // ---------------------------------------------------------------------------------
  // The number of workers (lines 115-121).

  /** One worker when none is asked for, the `int` given as is, and otherwise one less
      than the `cpus` processors, but at least one. */
  function WorkerCount(w: Workers, cpus: int): int {
    match w
    case Unspecified => 1
    case Count(n) => n
    case Other => if cpus > 1 then cpus - 1 else 1
  }

  /** An explicit count is used as given; otherwise at least one worker runs, and as many
      as there are processors but one when that is more. */
  lemma WorkerCountRule(w: Workers, cpus: int)
    ensures w.Count? ==> WorkerCount(w, cpus) == w.n
    ensures w.Unspecified? ==> WorkerCount(w, cpus) == 1
    ensures w.Other? ==> WorkerCount(w, cpus) >= 1 && WorkerCount(w, cpus) >= cpus - 1
    ensures w.Other? ==> WorkerCount(w, cpus) == 1 || WorkerCount(w, cpus) == cpus - 1
  {
  }

  // ---------------------------------------------------------------------------------
  // The result columns (lines 151-168).

  /** The number of days in `range(-w, w + 1)`. */
  function Span(w: int): nat {
    if w < 0 then 0 else 2 * w + 1
  }

  /** `"<prefix>{day}"`. */
  function DayLabel(prefix: string, d: int): string {
    prefix + IntToString(d)
  }

  /** `["<prefix>{day}" for day in range(-w, w + 1)]`. */
  function DayLabels(prefix: string, w: int): seq<string> {
    seq(Span(w), i => DayLabel(prefix, i - w))
  }

  /** The four market-model columns, spelled as in the source. */
  const DiagnosticLabels: seq<string> := ["rsqured", "intercept", "beta", "residual"]

  /** Dates, returns and abnormal returns for each day of the window, then the
      diagnostics (lines 163-168). */
  function ColumnLabels(w: int): seq<string> {
    DayLabels("date t", w) + DayLabels("return t", w) + DayLabels("ab return t", w) + DiagnosticLabels
  }

  /** The label of day `d` of a group. */
  lemma DayLabelAt(prefix: string, w: int, d: int)
    requires -w <= d <= w
    ensures |DayLabels(prefix, w)| == Span(w)
    ensures 0 <= d + w < Span(w) && DayLabels(prefix, w)[d + w] == DayLabel(prefix, d)
  {
    assert DayLabels(prefix, w)[d + w] == DayLabel(prefix, (d + w) - w);
  }

  /** The layout has `3 * (2w + 1) + 4` columns for a non-negative `w`, the label of each
      day column names its day, and the diagnostics come last. */
  lemma ColumnLayout(w: int)
    ensures |ColumnLabels(w)| == 3 * Span(w) + 4
    ensures w >= 0 ==> |ColumnLabels(w)| == 6 * w + 7
    ensures forall d :: -w <= d <= w ==>
              && ColumnLabels(w)[d + w] == DayLabel("date t", d)
              && ColumnLabels(w)[Span(w) + d + w] == DayLabel("return t", d)
              && ColumnLabels(w)[2 * Span(w) + d + w] == DayLabel("ab return t", d)
    ensures ColumnLabels(w)[3 * Span(w)..] == DiagnosticLabels
  {
    var n := Span(w);
    var a, b, c := DayLabels("date t", w), DayLabels("return t", w), DayLabels("ab return t", w);
    var labels := a + b + c + DiagnosticLabels;
    assert ColumnLabels(w) == labels;
    assert |a| == n && |b| == n && |c| == n;
    forall d | -w <= d <= w
      ensures labels[d + w] == DayLabel("date t", d)
      ensures labels[n + d + w] == DayLabel("return t", d)
      ensures labels[2 * n + d + w] == DayLabel("ab return t", d)
    {
      DayLabelAt("date t", w, d);
      DayLabelAt("return t", w, d);
      DayLabelAt("ab return t", w, d);
      assert labels[n + d + w] == b[d + w];
      assert labels[2 * n + d + w] == c[d + w];
    }
    assert labels[3 * n..] == DiagnosticLabels;
  }

  /** Every day label starts with its prefix. */
  lemma DayLabelPrefix(prefix: string, w: int, x: string)
    requires x in DayLabels(prefix, w)
    ensures |x| > |prefix| && x[..|prefix|] == prefix
  {
    var i :| 0 <= i < Span(w) && DayLabels(prefix, w)[i] == x;
    assert x == DayLabel(prefix, i - w) == prefix + IntToString(i - w);
    assert |IntToString(i - w)| >= 1;
  }

  /** Day labels with one prefix name different days. */
  lemma DayLabelsDistinct(prefix: string, w: int)
    ensures NoDuplicates(DayLabels(prefix, w))
  {
    var name := (d: int) => DayLabel(prefix, d);
    forall a, b | name(a) == name(b) ensures a == b {
      DayLabelInjective(prefix, a, b);
    }
    InjectiveLabels(DayLabels(prefix, w), name, w);
  }

  lemma DayLabelInjective(prefix: string, a: int, b: int)
    ensures DayLabel(prefix, a) == DayLabel(prefix, b) ==> a == b
  {
    PrefixedInjective(prefix, a, b);
  }

  /** Labels given by an injective function of the position are distinct. */
  lemma InjectiveLabels(s: seq<string>, name: int -> string, w: int)
    requires forall i :: 0 <= i < |s| ==> s[i] == name(i - w)
    requires forall a, b :: name(a) == name(b) ==> a == b
    ensures NoDuplicates(s)
  {
    forall i, j | 0 <= i < j < |s| ensures s[i] != s[j] {
      assert s[i] == name(i - w) && s[j] == name(j - w);
    }
  }

  lemma DistinctConcat(a: seq<string>, b: seq<string>)
    requires NoDuplicates(a) && NoDuplicates(b)
    requires forall x, y :: x in a && y in b ==> x != y
    ensures NoDuplicates(a + b)
  {
    var s := a + b;
    forall i, j | 0 <= i < j < |s| ensures s[i] != s[j] {
      if i < |a| && j >= |a| {
        assert s[i] in a && s[j] == b[j - |a|];
        assert s[j] in b;
      } else if j < |a| {
        assert s[i] == a[i] && s[j] == a[j];
      } else {
        assert s[i] == b[i - |a|] && s[j] == b[j - |a|];
      }
    }
  }

  /** No two result columns share a label, so the result series is well indexed. */
  lemma ColumnLabelsDistinct(w: int)
    ensures NoDuplicates(ColumnLabels(w))
  {
    var a, b, c := DayLabels("date t", w), DayLabels("return t", w), DayLabels("ab return t", w);
    DayLabelsDistinct("date t", w);
    DayLabelsDistinct("return t", w);
    DayLabelsDistinct("ab return t", w);
    forall x, y | x in a && y in b ensures x != y {
      DayLabelPrefix("date t", w, x);
      DayLabelPrefix("return t", w, y);
      assert x[0] == 'd' && y[0] == 'r';
    }
    DistinctConcat(a, b);
    forall x, y | x in a + b && y in c ensures x != y {
      DayLabelPrefix("ab return t", w, y);
      if x in a {
        DayLabelPrefix("date t", w, x);
      } else {
        DayLabelPrefix("return t", w, x);
      }
      assert x[0] != 'a' && y[0] == 'a';
    }
    DistinctConcat(a + b, c);
    var d := DiagnosticLabels;
    forall x, y | x in a + b + c && y in d ensures x != y {
      assert y == "rsqured" || y == "intercept" || y == "beta" || y == "residual";
      if x in a {
        DayLabelPrefix("date t", w, x);
        assert x[0] == 'd' && y[0] != 'd';
      } else if x in b {
        DayLabelPrefix("return t", w, x);
        assert x[0] == 'r' && x[1] == 'e' && x[2] == 't';
        assert |y| >= 3 && !(y[0] == 'r' && y[1] == 'e' && y[2] == 't');
      } else {
        DayLabelPrefix("ab return t", w, x);
        assert x[0] == 'a' && y[0] != 'a';
      }
    }
    DistinctConcat(a + b + c, d);
    assert ColumnLabels(w) == a + b + c + d;
  }

  // ---------------------------------------------------------------------------------
  // One result row (lines 170-187).

  /** A complete window has one row per day of `range(-w, w + 1)`. */
  predicate Complete(window: Option<seq<AbnormalRow>>, w: int) {
    window.Some? && |window.value| == 2 * w + 1
  }

  /** Lines 172-186: a complete window gives its dates, its stock returns, its abnormal
      returns and the diagnostics of the row labelled 0 (the middle row, whose
      trading-day drift is 0: `WindowCentre`); anything else gives a row of `None`s of
      the same length. */
  function ResultRow(window: Option<seq<AbnormalRow>>, w: int): seq<Field> {
    if Complete(window, w) then
      var rows := window.value;
      var centre := rows[w];
      seq(|rows|, i => if 0 <= i < |rows| then Day(rows[i].date) else Null)
      + seq(|rows|, i => if 0 <= i < |rows| then Value(rows[i].stock) else Null)
      + seq(|rows|, i => if 0 <= i < |rows| then Value(rows[i].abnormal) else Null)
      + [Value(centre.rsquared), Value(centre.intercept), Value(centre.beta), Residuals(centre.residual)]
    else
      seq(|ColumnLabels(w)|, _ => Null)
  }

  /** A result row has one field per column, and it is all `None` exactly when the
      window is missing or incomplete. */
  lemma ResultRowShape(window: Option<seq<AbnormalRow>>, w: int)
    ensures |ResultRow(window, w)| == |ColumnLabels(w)|
    ensures (forall k :: 0 <= k < |ResultRow(window, w)| ==> ResultRow(window, w)[k] == Null)
            <==> !Complete(window, w)
  {
    ColumnLayout(w);
    if Complete(window, w) {
      assert ResultRow(window, w)[0] == Day(window.value[0].date);
    }
  }

  /** In the row of a complete window the field of day `i - w` holds the window's `i`-th
      date, stock return and abnormal return, and the last four fields hold the
      diagnostics of the row labelled 0. */
  lemma ResultRowFields(window: Option<seq<AbnormalRow>>, w: int)
    requires Complete(window, w)
    ensures var r, rows, n := ResultRow(window, w), window.value, Span(w);
            && |r| == 3 * n + 4
            && (forall i :: 0 <= i < n ==>
                  && r[i] == Day(rows[i].date)
                  && r[n + i] == Value(rows[i].stock)
                  && r[2 * n + i] == Value(rows[i].abnormal))
            && r[3 * n..] == [Value(rows[w].rsquared), Value(rows[w].intercept),
                              Value(rows[w].beta), Residuals(rows[w].residual)]
  {
  }

  /** Each row after the first of a window of consecutive drifts is one day further. */
  lemma {:induction false} ConsecutiveDrifts(rows: seq<AbnormalRow>, i: int)
    requires forall k :: 0 < k < |rows| ==> rows[k].drift == rows[k - 1].drift + 1
    requires 0 <= i < |rows|
    ensures rows[i].drift == rows[0].drift + i
  {
    if i > 0 {
      ConsecutiveDrifts(rows, i - 1);
    }
  }

  /** A complete abnormal window over a window of consecutive drifts within `[-w, w]`
      has drift `i - w` at position `i`. */
  lemma CompleteDrifts(window: Option<seq<WindowRow>>, fit: Option<Fit>, w: int)
    requires window.Some? ==>
               && (forall i :: 0 <= i < |window.value| ==> -w <= window.value[i].drift <= w)
               && (forall i :: 0 < i < |window.value| ==> window.value[i].drift == window.value[i - 1].drift + 1)
    requires Complete(AbnormalOf(window, fit), w)
    ensures var rows := AbnormalOf(window, fit).value;
            forall i :: 0 <= i < |rows| ==> rows[i].drift == i - w
  {
    var rows := AbnormalOf(window, fit).value;
    assert forall i :: 0 <= i < |rows| ==> rows[i].drift == window.value[i].drift;
    ConsecutiveDrifts(rows, 2 * w);
    forall i | 0 <= i < |rows| ensures rows[i].drift == i - w {
      ConsecutiveDrifts(rows, i);
    }
  }

  /** In a complete abnormal window the `i`-th row has trading-day drift `i - w`, so the
      day columns `t-w .. tw` hold the rows of those drifts and the row labelled 0 is the
      middle one. */
  lemma WindowCentre(c: Setup, ols: seq<ReturnRow> -> Fit, w: int, distance: int, p: int)
    requires c.Valid()
    requires Complete(WindowAbnormal(c, ols, w, distance, p), w)
    ensures var rows := WindowAbnormal(c, ols, w, distance, p).value;
            forall i :: 0 <= i < |rows| ==> rows[i].drift == i - w
  {
    var table := ReturnTable(c, RangeStart(c, w), RangeEnd(c, w));
    var window := WindowOf(table, c.event, w);
    var fit := MarketModel(c, ols, distance, p);
    assert WindowAbnormal(c, ols, w, distance, p) == AbnormalOf(window, fit);
    if window.Some? {
      WindowOfShape(table, c.event, w);
    }
    CompleteDrifts(window, fit, w);
  }

  // ---------------------------------------------------------------------------------
  // One event (lines 123-130 and 193-230).

  /** Line 126: only the event's two symbol columns of the table are passed on. */
  function Project(t: PriceTable, e: Event): PriceTable {
    var keep := {e.ticker, e.index};
    PriceTable(
      t.columns * keep,
      seq(|t.rows|, k requires 0 <= k < |t.rows| =>
        TableRow(t.rows[k].date, map s | s in t.rows[k].cells && s in keep :: t.rows[k].cells[s])))
  }

  /** Where the event's prices come from: its columns of the table, or the download when
      there is no table (line 130). */
  function SourceFor(table: Option<PriceTable>, download: (string, int, int) -> Option<seq<Point>>, e: Event)
    : PriceSource
  {
    if table.None? then Remote(download) else Local(Project(table.value, e))
  }

  /** The calculator `one_event_study` builds for the event (lines 217-228). */
  function SetupFor(table: Option<PriceTable>, download: (string, int, int) -> Option<seq<Point>>,
                    mode: ReturnMode, e: Event): Setup
  {
    Setup(e.ticker, e.date, e.index, SourceFor(table, download, e), mode)
  }

  /** What `one_event_study` computes for an event on its price source. */
  function OneEvent(e: Event, source: PriceSource, mode: ReturnMode, ols: seq<ReturnRow> -> Fit,
                    w: int, distance: int, p: int)
    : Option<seq<AbnormalRow>>
    requires Covers(source, e.ticker, e.index)
  {
    WindowAbnormal(Setup(e.ticker, e.date, e.index, source, mode), ols, w, distance, p)
  }

  /** The abnormal window of one event of the study. */
  function EventWindow(table: Option<PriceTable>, download: (string, int, int) -> Option<seq<Point>>,
                       mode: ReturnMode, ols: seq<ReturnRow> -> Fit, w: int, distance: int, p: int, e: Event)
    : Option<seq<AbnormalRow>>
    requires Listed(table, e)
  {
    OneEvent(e, SourceFor(table, download, e), mode, ols, w, distance, p)
  }

  /** The abnormal windows of every event, in order. */
  function EventWindows(table: Option<PriceTable>, download: (string, int, int) -> Option<seq<Point>>,
                        mode: ReturnMode, ols: seq<ReturnRow> -> Fit, w: int, distance: int, p: int,
                        events: seq<Event>)
    : seq<Option<seq<AbnormalRow>>>
    requires forall e :: e in events ==> Listed(table, e)
  {
    seq(|events|, j requires 0 <= j < |events| => EventWindow(table, download, mode, ols, w, distance, p, events[j]))
  }

  /** The event's calculator can select both of its symbols from its price source. */
  lemma SourceCovers(table: Option<PriceTable>, download: (string, int, int) -> Option<seq<Point>>, e: Event)
    requires Listed(table, e)
    ensures Covers(SourceFor(table, download, e), e.ticker, e.index)
  {
  }

  /** The projected table covers the event's symbols whenever the full table does. */
  lemma ProjectCovers(t: PriceTable, e: Event)
    requires e.ticker in t.columns && e.index in t.columns
    ensures Covers(Local(Project(t, e)), e.ticker, e.index)
  {
  }

  /** Handing the calculator only the event's two columns changes none of its prices. */
  lemma ProjectKeepsFetch(t: PriceTable, e: Event, start: int, end: int)
    requires e.ticker in t.columns && e.index in t.columns
    ensures Fetch(Local(Project(t, e)), e.ticker, e.index, start, end)
         == Fetch(Local(t), e.ticker, e.index, start, end)
  {
    var u := Project(t, e);
    forall k | 0 <= k < |t.rows|
      ensures Cell(u.rows[k], e.ticker) == Cell(t.rows[k], e.ticker)
      ensures Cell(u.rows[k], e.index) == Cell(t.rows[k], e.index)
    {
    }
    FetchReadsTwoColumns(u, t, e.ticker, e.index, start, end);
  }

  /** Two setups that fetch the same prices compute the same return table. */
  lemma SameFetchSameReturns(c1: Setup, c2: Setup, start: int, end: int)
    requires c1.Valid() && c2.Valid() && c1.mode == c2.mode
    requires Fetch(c1.source, c1.ticker, c1.index, start, end) == Fetch(c2.source, c2.ticker, c2.index, start, end)
    ensures ReturnTable(c1, start, end) == ReturnTable(c2, start, end)
  {
  }

  /** The event's abnormal window is the one computed on the whole table. */
  lemma ProjectKeepsWindow(t: PriceTable, download: (string, int, int) -> Option<seq<Point>>, mode: ReturnMode,
                           ols: seq<ReturnRow> -> Fit, w: int, distance: int, p: int, e: Event)
    requires e.ticker in t.columns && e.index in t.columns
    ensures EventWindow(Some(t), download, mode, ols, w, distance, p, e)
         == WindowAbnormal(Setup(e.ticker, e.date, e.index, Local(t), mode), ols, w, distance, p)
  {
    var c1 := SetupFor(Some(t), download, mode, e);
    var c2 := Setup(e.ticker, e.date, e.index, Local(t), mode);
    var ws, we := RangeStart(c1, w), RangeEnd(c1, w);
    var es, ee := EstimationStart(c1, distance, p), EstimationEnd(c1, distance);
    assert ws == RangeStart(c2, w) && we == RangeEnd(c2, w);
    assert es == EstimationStart(c2, distance, p) && ee == EstimationEnd(c2, distance);
    ProjectKeepsFetch(t, e, ws, we);
    ProjectKeepsFetch(t, e, es, ee);
    SameFetchSameReturns(c1, c2, ws, we);
    SameFetchSameReturns(c1, c2, es, ee);
  }

  /** `one_event_study`: a calculator for the event, asked for its abnormal window. */
  method OneEventStudy(e: Event, source: PriceSource, mode: ReturnMode, ols: seq<ReturnRow> -> Fit,
                       w: int, distance: int, p: int)
    returns (r: Option<seq<AbnormalRow>>)
    requires Covers(source, e.ticker, e.index)
    ensures r == OneEvent(e, source, mode, ols, w, distance, p)
  {
    var calculator := new EventReturnCalculator(e.ticker, e.date, e.index, source, mode);
    r := calculator.CalculateWindowAbnormal(ols, w, distance, p);
  }

  // ---------------------------------------------------------------------------------
  // The whole study (lines 11-63 and 89-190).

  /** Lines 169-187: one result row per window, in order. */
  method AssembleRows(results: seq<Option<seq<AbnormalRow>>>, w: int) returns (rows: seq<seq<Field>>)
    ensures |rows| == |results|
    ensures forall k :: 0 <= k < |results| ==> rows[k] == ResultRow(results[k], w)
  {
    rows := [];
    var k := 0;
    while k < |results|
      invariant 0 <= k <= |results|
      invariant |rows| == k
      invariant forall j :: 0 <= j < k ==> rows[j] == ResultRow(results[j], w)
    {
      rows := rows + [ResultRow(results[k], w)];
      k := k + 1;
    }
  }

  /** Appending the next element of `s` to its prefix of length `k` gives the prefix of
      length `k + 1`. */
  lemma PrefixStep<T>(s: seq<T>, prefix: seq<T>, x: T, k: int)
    requires 0 <= k < |s| && prefix == s[..k] && x == s[k]
    ensures prefix + [x] == s[..k + 1]
  {
  }

  /** Lines 123-148: each event is studied on its own price source, and the results
      are collected in submission order. */
  method RunEvents(events: seq<Event>, table: Option<PriceTable>,
                   download: (string, int, int) -> Option<seq<Point>>, mode: ReturnMode,
                   ols: seq<ReturnRow> -> Fit, w: int, distance: int, p: int)
    returns (results: seq<Option<seq<AbnormalRow>>>)
    requires forall e :: e in events ==> Listed(table, e)
    ensures results == EventWindows(table, download, mode, ols, w, distance, p, events)
  {
    ghost var expected := EventWindows(table, download, mode, ols, w, distance, p, events);
    results := [];
    var k := 0;
    while k < |events|
      invariant 0 <= k <= |events|
      invariant results == expected[..k]
    {
      var e := events[k];
      var source := SourceFor(table, download, e);
      SourceCovers(table, download, e);
      var r := OneEventStudy(e, source, mode, ols, w, distance, p);
      assert r == expected[k] by {
        assert expected[k] == EventWindow(table, download, mode, ols, w, distance, p, e);
      }
      PrefixStep(expected, results, r, k);
      results := results + [r];
      k := k + 1;
    }
  }

  /** `multi_event_study`: every event is studied on its own columns, in input order;
      the results are laid out and paired with their events. */
  method MultiEventStudy(events: seq<Event>, table: Option<PriceTable>,
                         download: (string, int, int) -> Option<seq<Point>>, mode: ReturnMode,
                         ols: seq<ReturnRow> -> Fit, w: int, distance: int, p: int,
                         workers: Workers, cpus: int)
    returns (out: seq<Output>, workerNum: int)
    requires Check(events, table)
    ensures workerNum == WorkerCount(workers, cpus)
    ensures |out| == |events|
    ensures forall k :: 0 <= k < |events| ==>
              && Listed(table, events[k])
              && out[k] == Output(events[k], ResultRow(EventWindow(table, download, mode, ols, w, distance, p, events[k]), w))
  {
    workerNum := WorkerCount(workers, cpus);
    CheckListsEvents(events, table);
    var results := RunEvents(events, table, download, mode, ols, w, distance, p);
    var rows := AssembleRows(results, w);
    out := seq(|events|, j requires 0 <= j < |events| => Output(events[j], rows[j]));
  }

  /** `event_study`: nothing is computed unless the check passes; without a price table
      the prices are downloaded and a single worker is used. */
  method EventStudy(events: seq<Event>, table: Option<PriceTable>,
                    download: (string, int, int) -> Option<seq<Point>>, mode: ReturnMode,
                    ols: seq<ReturnRow> -> Fit, w: int, distance: int, p: int,
                    workers: Workers, cpus: int)
    returns (r: Option<StudyResult>)
    ensures r.None? <==> !Check(events, table)
    ensures r.Some? ==> r.value.workers == if table.None? then 1 else WorkerCount(workers, cpus)
    ensures r.Some? ==> |r.value.rows| == |events|
    ensures r.Some? ==>
              forall k :: 0 <= k < |events| ==>
                && Listed(table, events[k])
                && r.value.rows[k].event == events[k]
                && r.value.rows[k].cells == ResultRow(EventWindow(table, download, mode, ols, w, distance, p, events[k]), w)
  {
    if !Check(events, table) {
      return None;
    }
    var given := if table.None? then Count(1) else workers;
    var out, workerNum := MultiEventStudy(events, table, download, mode, ols, w, distance, p, given, cpus);
    return Some(StudyResult(out, workerNum));
  }
}
