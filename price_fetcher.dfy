/** `PriceFetcher.fetch` (price_fetcher.py): the stock and index price series are joined
    on date, clipped to the requested range (as far as the data reaches) and stripped of
    rows with a missing price. Dates are day numbers. */
module PriceFetcher {
  import opened Wrappers
  import opened Seqs

  /** One row of the wide local price table: a date and one cell per symbol column.
      A symbol without a cell, or with `None`, is a NaN cell. */
  datatype TableRow = TableRow(date: int, cells: map<string, Option<real>>)

  /** The local price table: the names of its symbol columns and its rows. */
  datatype PriceTable = PriceTable(columns: set<string>, rows: seq<TableRow>)

  /** One row of a single-symbol series: a date and its close price. */
  datatype Point = Point(date: int, price: Option<real>)

  /** One row of the stock/index merge, before rows with a missing price are dropped. */
  datatype Joined = Joined(date: int, stock: Option<real>, index: Option<real>)

  /** One row of the fetched table: a date with both prices present. */
  datatype Quote = Quote(date: int, stock: real, index: real)

  /** Where prices come from: the local table, or the Yahoo download, which is not
      modelled and may fail for any symbol and range. */
  datatype PriceSource =
    | Local(table: PriceTable)
    | Remote(download: (string, int, int) -> Option<seq<Point>>)

  /** Selecting a column that the local table does not have raises `KeyError`; callers
      (the check in study.py) make sure both symbols are columns. */
  predicate Covers(source: PriceSource, ticker: string, index: string) {
    source.Local? ==> ticker in source.table.columns && index in source.table.columns
  }

  function Cell(row: TableRow, symbol: string): Option<real> {
    if symbol in row.cells then row.cells[symbol] else None
  }

  /** `data_df[[date_column] + [symbol]]`: the date column and one symbol's column. */
  function Column(table: PriceTable, symbol: string): seq<Point> {
    seq(|table.rows|, k requires 0 <= k < |table.rows| => Point(table.rows[k].date, Cell(table.rows[k], symbol)))
  }

  /** One symbol's series from the source, or `None` when the download fails. */
  function Series(source: PriceSource, symbol: string, start: int, end: int): Option<seq<Point>> {
    match source
    case Local(table) => Some(Column(table, symbol))
    case Remote(download) => download(symbol, start, end)
  }

  /** The rows of `b` on the date of `p`, each paired with `p`, in the order of `b`. */
  function Matches(p: Point, b: seq<Point>): (r: seq<Joined>)
    ensures forall j :: j in r ==> j.date == p.date && j.stock == p.price && Point(j.date, j.index) in b
  {
    if b == [] then []
    else
      var here := if b[0].date == p.date then [Joined(p.date, p.price, b[0].price)] else [];
      assert forall j :: j in Matches(p, b[1..]) ==> Point(j.date, j.index) in b[1..];
      here + Matches(p, b[1..])
  }

  /** `a.merge(b, on=date)`: an inner join on date that keeps the order of `a` and, for
      each row of `a`, the order of its partners in `b`. */
  function InnerJoin(a: seq<Point>, b: seq<Point>): (r: seq<Joined>)
    ensures forall j :: j in r ==> Point(j.date, j.stock) in a && Point(j.date, j.index) in b
  {
    if a == [] then []
    else
      assert forall j :: j in InnerJoin(a[1..], b) ==> Point(j.date, j.stock) in a[1..];
      Matches(a[0], b) + InnerJoin(a[1..], b)
  }

  /** Every row of `b` on the date of `p` is matched. */
  lemma {:induction false} MatchesComplete(p: Point, b: seq<Point>, y: Point)
    requires y in b && y.date == p.date
    ensures Joined(p.date, p.price, y.price) in Matches(p, b)
  {
    if b[0] != y {
      MatchesComplete(p, b[1..], y);
    }
  }

  /** A stock row and an index row on the same date are joined: with the ensures of
      `InnerJoin`, a row is in the join iff it pairs two such rows. */
  lemma {:induction false} InnerJoinComplete(a: seq<Point>, b: seq<Point>, x: Point, y: Point)
    requires x in a && y in b && x.date == y.date
    ensures Joined(x.date, x.price, y.price) in InnerJoin(a, b)
  {
    if a[0] == x {
      MatchesComplete(x, b, y);
    } else {
      InnerJoinComplete(a[1..], b, x, y);
    }
  }

  /** The start actually used: the requested start, or the first joined date if the
      request starts before it. */
  function EffectiveStart(start: int, joined: seq<Joined>): int
    requires joined != []
  {
    if start - joined[0].date < 0 then joined[0].date else start
  }

  /** The end actually used: the requested end, or the last joined date if the request
      ends after it. */
  function EffectiveEnd(end: int, joined: seq<Joined>): int
    requires joined != []
  {
    if end - joined[|joined| - 1].date > 0 then joined[|joined| - 1].date else end
  }

  function Between(lo: int, hi: int): Joined -> bool {
    (r: Joined) => lo <= r.date <= hi
  }

  predicate HasPrices(r: Joined) {
    r.stock.Some? && r.index.Some?
  }

  function AsJoined(q: Quote): Joined {
    Joined(q.date, Some(q.stock), Some(q.index))
  }

  /** `dropna()`: the rows with both prices, as quotes. */
  function Complete(rows: seq<Joined>): seq<Quote> {
    var kept := Filter(rows, HasPrices);
    seq(|kept|, k requires 0 <= k < |kept| => Quote(kept[k].date, kept[k].stock.value, kept[k].index.value))
  }

  /** Lines 60-73 on a non-empty join: clip to the effective range, then drop missing prices. */
  function Clip(joined: seq<Joined>, start: int, end: int): seq<Quote>
    requires joined != []
  {
    Complete(Filter(joined, Between(EffectiveStart(start, joined), EffectiveEnd(end, joined))))
  }

  /** `fetch` as written: `price_df.iloc[0]` on an empty join raises `IndexError`. */
  function FetchAsWritten(source: PriceSource, ticker: string, index: string, start: int, end: int)
    : Py<Option<seq<Quote>>>
    requires Covers(source, ticker, index)
  {
    var stock := Series(source, ticker, start, end);
    var bench := Series(source, index, start, end);
    if stock.None? || bench.None? then Ok(None)
    else
      var joined := InnerJoin(stock.value, bench.value);
      if joined == [] then Raised(IndexError) else Ok(Some(Clip(joined, start, end)))
  }

  /** `fetch`, with an empty join giving an empty table instead of `IndexError`. */
  function Fetch(source: PriceSource, ticker: string, index: string, start: int, end: int)
    : Option<seq<Quote>>
    requires Covers(source, ticker, index)
  {
    var stock := Series(source, ticker, start, end);
    var bench := Series(source, index, start, end);
    if stock.None? || bench.None? then None
    else
      var joined := InnerJoin(stock.value, bench.value);
      if joined == [] then Some([]) else Some(Clip(joined, start, end))
  }

  /** The fetch is `None` exactly when a series is unavailable, which never happens with
      the local table; every fetched row is a date on which both series have a price,
      within the requested range. */
  lemma FetchSpec(source: PriceSource, ticker: string, index: string, start: int, end: int)
    requires Covers(source, ticker, index)
    ensures var r := Fetch(source, ticker, index, start, end);
            && (r.None? <==> Series(source, ticker, start, end).None? || Series(source, index, start, end).None?)
            && (source.Local? ==> r.Some?)
            && (r.Some? ==> forall q :: q in r.value ==>
                  && Point(q.date, Some(q.stock)) in Series(source, ticker, start, end).value
                  && Point(q.date, Some(q.index)) in Series(source, index, start, end).value
                  && start <= q.date <= end)
  {
    var stock := Series(source, ticker, start, end);
    var bench := Series(source, index, start, end);
    if stock.Some? && bench.Some? {
      var joined := InnerJoin(stock.value, bench.value);
      if joined != [] {
        var lo, hi := EffectiveStart(start, joined), EffectiveEnd(end, joined);
        var inRange := Filter(joined, Between(lo, hi));
        var r := Complete(inRange);
        forall q | q in r
          ensures && Point(q.date, Some(q.stock)) in stock.value
                  && Point(q.date, Some(q.index)) in bench.value
                  && start <= q.date <= end
        {
          CompleteMember(inRange, q);
          FilterMember(joined, Between(lo, hi), AsJoined(q));
        }
      }
    }
  }

  /** Dropping incomplete rows and reading the rest as quotes loses nothing: the quotes,
      read back as joined rows, are exactly the complete rows. */
  lemma CompleteIsFiltered(rows: seq<Joined>)
    ensures var r := Complete(rows);
            seq(|r|, k requires 0 <= k < |r| => AsJoined(r[k])) == Filter(rows, HasPrices)
  {
  }

  lemma CompleteMember(rows: seq<Joined>, q: Quote)
    requires q in Complete(rows)
    ensures AsJoined(q) in rows
  {
    CompleteIsFiltered(rows);
    var r := Complete(rows);
    var k :| 0 <= k < |r| && r[k] == q;
    var asJoined := seq(|r|, k requires 0 <= k < |r| => AsJoined(r[k]));
    assert asJoined[k] == AsJoined(q);
    FilterMember(rows, HasPrices, AsJoined(q));
  }

  /** The fetch agrees with the code as written whenever the join is not empty. */
  lemma FetchMatchesAsWritten(source: PriceSource, ticker: string, index: string, start: int, end: int)
    requires Covers(source, ticker, index)
    ensures FetchAsWritten(source, ticker, index, start, end).Raised?
            <==> Fetch(source, ticker, index, start, end) == Some([])
                 && InnerJoin(Series(source, ticker, start, end).value, Series(source, index, start, end).value) == []
    ensures FetchAsWritten(source, ticker, index, start, end).Ok?
            ==> FetchAsWritten(source, ticker, index, start, end).value == Fetch(source, ticker, index, start, end)
  {
  }

  /** A local table with no rows: the join is empty and the code as written raises. */
  lemma EmptyTableRaises(columns: set<string>, ticker: string, index: string, start: int, end: int)
    requires ticker in columns && index in columns
    ensures FetchAsWritten(Local(PriceTable(columns, [])), ticker, index, start, end) == Raised(IndexError)
    ensures Fetch(Local(PriceTable(columns, [])), ticker, index, start, end) == Some([])
  {
  }

  /** Every fetched date lies in the effective range: no earlier than the requested start
      or the first joined date, no later than the requested end or the last joined date. */
  lemma FetchWithinEffectiveRange(source: PriceSource, ticker: string, index: string, start: int, end: int)
    requires Covers(source, ticker, index)
    requires Fetch(source, ticker, index, start, end).Some?
    ensures var joined := InnerJoin(Series(source, ticker, start, end).value, Series(source, index, start, end).value);
            forall q :: q in Fetch(source, ticker, index, start, end).value ==>
              joined != [] && EffectiveStart(start, joined) <= q.date <= EffectiveEnd(end, joined)
  {
    var joined := InnerJoin(Series(source, ticker, start, end).value, Series(source, index, start, end).value);
    if joined != [] {
      var lo, hi := EffectiveStart(start, joined), EffectiveEnd(end, joined);
      var inRange := Filter(joined, Between(lo, hi));
      var r := Complete(inRange);
      forall q | q in r ensures lo <= q.date <= hi {
        CompleteMember(inRange, q);
        FilterMember(joined, Between(lo, hi), AsJoined(q));
      }
    }
  }

  /** The fetched rows are the joined rows with some removed: none altered or reordered. */
  lemma FetchKeepsOrder(source: PriceSource, ticker: string, index: string, start: int, end: int)
    requires Covers(source, ticker, index)
    requires Fetch(source, ticker, index, start, end).Some?
    ensures var r := Fetch(source, ticker, index, start, end).value;
            IsSubseq(seq(|r|, k requires 0 <= k < |r| => AsJoined(r[k])),
                     InnerJoin(Series(source, ticker, start, end).value, Series(source, index, start, end).value))
  {
    var joined := InnerJoin(Series(source, ticker, start, end).value, Series(source, index, start, end).value);
    if joined != [] {
      var inRange := Filter(joined, Between(EffectiveStart(start, joined), EffectiveEnd(end, joined)));
      FilterIsSubseq(joined, Between(EffectiveStart(start, joined), EffectiveEnd(end, joined)));
      FilterIsSubseq(inRange, HasPrices);
      CompleteIsFiltered(inRange);
      SubseqTransitive(Filter(inRange, HasPrices), inRange, joined);
    }
  }

  /** In local mode only the date column and the two symbols' columns are read. */
  lemma FetchReadsTwoColumns(t1: PriceTable, t2: PriceTable, ticker: string, index: string, start: int, end: int)
    requires ticker in t1.columns && index in t1.columns && ticker in t2.columns && index in t2.columns
    requires |t1.rows| == |t2.rows|
    requires forall k :: 0 <= k < |t1.rows| ==>
               && t1.rows[k].date == t2.rows[k].date
               && Cell(t1.rows[k], ticker) == Cell(t2.rows[k], ticker)
               && Cell(t1.rows[k], index) == Cell(t2.rows[k], index)
    ensures Fetch(Local(t1), ticker, index, start, end) == Fetch(Local(t2), ticker, index, start, end)
  {
    assert Column(t1, ticker) == Column(t2, ticker);
    assert Column(t1, index) == Column(t2, index);
  }
}
