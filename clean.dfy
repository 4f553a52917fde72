/** Cleaning a news table before features are computed: `clean_df` normalises one text
    column of a DataFrame, and `delete_duplicate_news` drops, for one ticker, the news
    that repeat an earlier, recent item. */
module Clean {
  import opened Wrappers
  import opened Text
  import opened Seqs

  /** A DataFrame cell: text, a missing value (None or NaN), or a value of another type
      (a number, say), known here only by its printed form. */
  datatype Cell = Str(text: string) | Null | Other(repr: string)

  /** One row of a DataFrame: its index label and its cells by column name. */
  datatype Record = Record(index: int, cells: map<string, Cell>)

  /** The row's cell in `column`; a cell the row does not hold reads as missing. */
  function Value(r: Record, column: string): Cell {
    if column in r.cells then r.cells[column] else Null
  }

  /** The column `column` of a table, top to bottom. */
  function Values(rs: seq<Record>, column: string): seq<Cell> {
    Map(rs, (r: Record) => Value(r, column))
  }

  /** A pandas DataFrame: a set of column names and its rows in order. */
  class Frame {
    var columns: set<string>
    var records: seq<Record>

    constructor (columns: set<string>, records: seq<Record>)
      ensures this.columns == columns && this.records == records
    {
      this.columns := columns;
      this.records := records;
    }

    /** `drop_duplicates(subset=[column], inplace=True)`. */
    method DropDuplicates(column: string)
      modifies this
      ensures records == Dedup(old(records), column, {}) && columns == old(columns)
    {
      records := Dedup(records, column, {});
    }

    /** `dropna(subset=[column], inplace=True)`. */
    method DropNa(column: string)
      modifies this
      ensures records == Filter(old(records), Present(column)) && columns == old(columns)
    {
      records := Filter(records, Present(column));
    }

    /** `self[column] = self[column].apply(lambda x: " ".join(x.split()))`. */
    method CollapseColumn(column: string)
      modifies this
      ensures records == Map(old(records), Normalizer(column)) && columns == old(columns)
    {
      records := Map(records, Normalizer(column));
    }

    /** `reset_index(drop=True, inplace=True)`. */
    method ResetIndex()
      modifies this
      ensures records == Relabel(old(records)) && columns == old(columns)
    {
      records := Relabel(records);
    }
  }

  /** The rows of `rs` whose value in `column` is not in `seen` and did not occur
      higher up: pandas' `keep="first"`, under which two missing values are equal. */
  function Dedup(rs: seq<Record>, column: string, seen: set<Cell>): seq<Record> {
    if rs == [] then []
    else if Value(rs[0], column) in seen then Dedup(rs[1..], column, seen)
    else [rs[0]] + Dedup(rs[1..], column, seen + {Value(rs[0], column)})
  }

  function Present(column: string): Record -> bool {
    r => Value(r, column) != Null
  }

  function IsText(column: string): Record -> bool {
    r => Value(r, column).Str?
  }

  function NonEmpty(column: string): Record -> bool {
    r => Value(r, column) != Str("")
  }

  /** The row with the text in `column` reduced to its words, one space apart. */
  function Normalizer(column: string): Record -> Record {
    r => if Value(r, column).Str? then r.(cells := r.cells[column := Str(Collapse(Value(r, column).text))])
         else r
  }

  /** The rows relabelled `0, 1, …, n-1` in order. */
  function Relabel(rs: seq<Record>): seq<Record> {
    seq(|rs|, k requires 0 <= k < |rs| => rs[k].(index := k))
  }

  /** The rows that `clean_df` keeps, before their text is normalised. */
  function Survivors(rs: seq<Record>, column: string): seq<Record> {
    Filter(Filter(Dedup(rs, column, {}), Present(column)), IsText(column))
  }

  /** The table `clean_df` returns for a frame holding `rs` and a known `column`. */
  function Cleaned(rs: seq<Record>, column: string): seq<Record> {
    Relabel(Filter(Map(Survivors(rs, column), Normalizer(column)), NonEmpty(column)))
  }

  /** `clean_df(df, column)`. The caller's frame keeps the first two steps, which
      pandas does in place; the later steps build new frames, the last of which is
      returned. A column the frame lacks makes the first step raise `KeyError`. */
  method CleanDf(df: Frame, column: string) returns (r: Py<Frame>)
    modifies df
    ensures column !in old(df.columns) ==> r == Raised(KeyError) && df.records == old(df.records)
    ensures column in old(df.columns) ==>
      df.records == Filter(Dedup(old(df.records), column, {}), Present(column)) &&
      r.Ok? && fresh(r.value) && r.value.records == Cleaned(old(df.records), column) &&
      r.value.columns == old(df.columns)
    ensures df.columns == old(df.columns)
  {
    if column !in df.columns {
      return Raised(KeyError);
    }
    df.DropDuplicates(column);
    df.DropNa(column);
    var texts := new Frame(df.columns, Filter(df.records, IsText(column)));
    texts.CollapseColumn(column);
    var result := new Frame(texts.columns, Filter(texts.records, NonEmpty(column)));
    result.ResetIndex();
    r := Ok(result);
  }

  /** No two rows share their value in `column`. */
  predicate UniqueIn(rs: seq<Record>, column: string) {
    forall i, j :: 0 <= i < j < |rs| ==> Value(rs[i], column) != Value(rs[j], column)
  }

  /** The row at `i` is the first with its value in `column`. */
  predicate FirstOf(rs: seq<Record>, column: string, i: int)
    requires 0 <= i < |rs|
  {
    forall j :: 0 <= j < i ==> Value(rs[j], column) != Value(rs[i], column)
  }

  lemma ValuesCons(x: Record, rs: seq<Record>, column: string)
    ensures Values([x] + rs, column) == [Value(x, column)] + Values(rs, column)
  {
  }

  /** Dedup keeps rows in order, never two with the same value, none with a value in
      `seen`, and every value the rows hold outside `seen`. */
  lemma {:induction false} DedupShape(rs: seq<Record>, column: string, seen: set<Cell>)
    ensures IsSubseq(Dedup(rs, column, seen), rs)
    ensures UniqueIn(Dedup(rs, column, seen), column)
    ensures forall v :: v in Values(Dedup(rs, column, seen), column) <==>
      v in Values(rs, column) && v !in seen
  {
    if rs != [] {
      var v := Value(rs[0], column);
      ValuesCons(rs[0], rs[1..], column);
      assert rs == [rs[0]] + rs[1..];
      if v in seen {
        DedupShape(rs[1..], column, seen);
      } else {
        var rest := Dedup(rs[1..], column, seen + {v});
        DedupShape(rs[1..], column, seen + {v});
        var d := [rs[0]] + rest;
        ValuesCons(rs[0], rest, column);
        assert d[0] == rs[0] && d[1..] == rest;
        forall i, j | 0 <= i < j < |d|
          ensures Value(d[i], column) != Value(d[j], column)
        {
          if i == 0 {
            assert Value(d[j], column) == Values(rest, column)[j - 1];
          } else {
            assert d[i] == rest[i - 1] && d[j] == rest[j - 1];
          }
        }
      }
    }
  }

  /** Dedup keeps the first row of each value that is not in `seen`. */
  lemma {:induction false} DedupKeepsFirst(rs: seq<Record>, column: string, seen: set<Cell>, i: int)
    requires 0 <= i < |rs| && FirstOf(rs, column, i) && Value(rs[i], column) !in seen
    ensures rs[i] in Dedup(rs, column, seen)
  {
    var v := Value(rs[0], column);
    if i > 0 {
      var seen' := if v in seen then seen else seen + {v};
      assert Value(rs[i], column) != v;
      assert FirstOf(rs[1..], column, i - 1) by {
        forall j | 0 <= j < i - 1
          ensures Value(rs[1..][j], column) != Value(rs[1..][i - 1], column)
        {
          assert rs[1..][j] == rs[j + 1];
        }
      }
      DedupKeepsFirst(rs[1..], column, seen', i - 1);
    }
  }

  /** Relabelling changes only the labels. */
  lemma RelabelCells(rs: seq<Record>)
    ensures Map(Relabel(rs), (r: Record) => r.cells) == Map(rs, (r: Record) => r.cells)
  {
  }

  /** Every value `clean_df` returns is non-empty text whose words are single-spaced. */
  lemma {:induction false} CleanedValues(rs: seq<Record>, column: string)
    ensures forall k :: 0 <= k < |Cleaned(rs, column)| ==>
      Value(Cleaned(rs, column)[k], column).Str? &&
      Value(Cleaned(rs, column)[k], column).text != "" &&
      Collapse(Value(Cleaned(rs, column)[k], column).text) == Value(Cleaned(rs, column)[k], column).text
  {
    var survivors := Survivors(rs, column);
    var normal := Map(survivors, Normalizer(column));
    var kept := Filter(normal, NonEmpty(column));
    forall k | 0 <= k < |Cleaned(rs, column)|
      ensures Value(Cleaned(rs, column)[k], column).Str?
      ensures Value(Cleaned(rs, column)[k], column).text != ""
      ensures Collapse(Value(Cleaned(rs, column)[k], column).text) == Value(Cleaned(rs, column)[k], column).text
    {
      var r := kept[k];
      assert Value(Cleaned(rs, column)[k], column) == Value(r, column);
      FilterMember(normal, NonEmpty(column), r);
      assert r in normal;
      var j :| 0 <= j < |normal| && normal[j] == r;
      var s := survivors[j];
      FilterMember(Filter(Dedup(rs, column, {}), Present(column)), IsText(column), s);
      assert Value(s, column).Str?;
      var text := Value(s, column).text;
      assert Value(r, column) == Str(Collapse(text));
      CollapseIdempotent(text);
    }
  }

  /** `clean_df` labels its rows `0 … n-1`. */
  lemma CleanedLabels(rs: seq<Record>, column: string)
    ensures forall k :: 0 <= k < |Cleaned(rs, column)| ==> Cleaned(rs, column)[k].index == k
  {
  }

  /** The rows `clean_df` returns are input rows, in their input order, each with its
      text collapsed; no row is invented or reordered. */
  lemma CleanedOrder(rs: seq<Record>, column: string)
    ensures IsSubseq(Map(Cleaned(rs, column), (r: Record) => r.cells),
                     Map(Map(rs, Normalizer(column)), (r: Record) => r.cells))
  {
    var deduped := Dedup(rs, column, {});
    var present := Filter(deduped, Present(column));
    var survivors := Survivors(rs, column);
    var normal := Map(survivors, Normalizer(column));
    var kept := Filter(normal, NonEmpty(column));
    DedupShape(rs, column, {});
    FilterIsSubseq(deduped, Present(column));
    FilterIsSubseq(present, IsText(column));
    SubseqTransitive(present, deduped, rs);
    SubseqTransitive(survivors, present, rs);
    MapSubseq(survivors, rs, Normalizer(column));
    FilterIsSubseq(normal, NonEmpty(column));
    SubseqTransitive(kept, normal, Map(rs, Normalizer(column)));
    MapSubseq(kept, Map(rs, Normalizer(column)), (r: Record) => r.cells);
    RelabelCells(kept);
  }

  /** Uniqueness holds on the raw values: the rows kept hold distinct raw values, and
      every raw text of the input is kept at its first occurrence. */
  lemma SurvivorsUnique(rs: seq<Record>, column: string)
    ensures UniqueIn(Survivors(rs, column), column)
    ensures forall i :: 0 <= i < |rs| && Value(rs[i], column).Str? && FirstOf(rs, column, i) ==>
      rs[i] in Survivors(rs, column)
  {
    var deduped := Dedup(rs, column, {});
    var present := Filter(deduped, Present(column));
    DedupShape(rs, column, {});
    FilterIsSubseq(deduped, Present(column));
    FilterIsSubseq(present, IsText(column));
    SubseqUnique(present, deduped, column);
    SubseqUnique(Survivors(rs, column), present, column);
    forall i | 0 <= i < |rs| && Value(rs[i], column).Str? && FirstOf(rs, column, i)
      ensures rs[i] in Survivors(rs, column)
    {
      DedupKeepsFirst(rs, column, {}, i);
      FilterMember(deduped, Present(column), rs[i]);
      FilterMember(present, IsText(column), rs[i]);
    }
  }

  lemma {:induction false} SubseqUnique(a: seq<Record>, b: seq<Record>, column: string)
    requires IsSubseq(a, b) && UniqueIn(b, column)
    ensures UniqueIn(a, column)
    decreases |b|
  {
    if a != [] {
      assert UniqueIn(b[1..], column) by {
        forall i, j | 0 <= i < j < |b[1..]|
          ensures Value(b[1..][i], column) != Value(b[1..][j], column)
        {
          assert b[1..][i] == b[i + 1] && b[1..][j] == b[j + 1];
        }
      }
      if a[0] == b[0] && IsSubseq(a[1..], b[1..]) {
        SubseqUnique(a[1..], b[1..], column);
        forall j | 0 < j < |a|
          ensures Value(a[0], column) != Value(a[j], column)
        {
          SubseqMember(a[1..], b[1..], a[j]);
          var k :| 0 <= k < |b[1..]| && b[1..][k] == a[j];
          assert b[k + 1] == a[j];
        }
      } else {
        SubseqUnique(a, b[1..], column);
      }
    }
  }

  /** Two texts that differ only in their spacing are both kept, and come out equal. */
  lemma SpacingVariantsSurvive(column: string, s: string, t: string)
    requires s != t && Collapse(s) == Collapse(t) && Collapse(s) != ""
    ensures |Cleaned([Record(0, map[column := Str(s)]), Record(1, map[column := Str(t)])], column)| == 2
    ensures var c := Cleaned([Record(0, map[column := Str(s)]), Record(1, map[column := Str(t)])], column);
      Value(c[0], column) == Value(c[1], column) == Str(Collapse(s))
  {
    var a := Record(0, map[column := Str(s)]);
    var b := Record(1, map[column := Str(t)]);
    var rs := [a, b];
    assert Value(a, column) == Str(s) && Value(b, column) == Str(t);
    assert [b][1..] == [];
    assert Dedup([b], column, {Str(s)}) == [b] + Dedup([], column, {Str(s), Str(t)});
    assert rs[0] == a && rs[1..] == [b];
    var none: set<Cell> := {};
    assert none + {Str(s)} == {Str(s)};
    assert Dedup(rs, column, {}) == [a] + Dedup([b], column, {Str(s)});
    assert Filter([a, b], Present(column)) == [a, b] by {
      assert Present(column)(a) && Present(column)(b);
    }
    assert Filter([a, b], IsText(column)) == [a, b] by {
      assert IsText(column)(a) && IsText(column)(b);
    }
    var normal := Map([a, b], Normalizer(column));
    assert Value(normal[0], column) == Str(Collapse(s));
    assert Value(normal[1], column) == Str(Collapse(t));
    assert Filter(normal, NonEmpty(column)) == normal by {
      assert NonEmpty(column)(normal[0]) && NonEmpty(column)(normal[1]);
    }
  }

  /** A news row of one ticker's table: its index label, its date as a day number and
      its title embedding. `delete_duplicate_news` reads no other column. */
  datatype News<E> = News(index: int, date: int, embedding: E)

  /** `date` is one of `end, end-1, …, end-(lookBack-1)`, the dates of the look-back range. */
  predicate InWindow(end: int, date: int, lookBack: int) {
    0 <= end - date < lookBack
  }

  /** The rows `row` is compared with: in its look-back range, above it by label and
      not dropped yet. */
  function Candidate<E>(row: News<E>, dropped: seq<int>, lookBack: int): News<E> -> bool {
    (r: News<E>) => InWindow(row.date, r.date, lookBack) && r.index < row.index && r.index !in dropped
  }

  /** `check_news`: the rows of the table that `row` is compared with. */
  function Compared<E>(rows: seq<News<E>>, row: News<E>, dropped: seq<int>, lookBack: int): seq<News<E>> {
    Filter(rows, Candidate(row, dropped, lookBack))
  }

  /** `scores`: how alike `row` is to each of the rows it is compared with. */
  function Scores<E>(row: News<E>, check: seq<News<E>>, similarity: (E, E) -> real): seq<real> {
    Map(check, (r: News<E>) => similarity(row.embedding, r.embedding))
  }

  /** Some row of the table that `row` is compared with is at least `minSimilarity` alike. */
  predicate Repeats<E>(rows: seq<News<E>>, row: News<E>, dropped: seq<int>, lookBack: int,
                       minSimilarity: real, similarity: (E, E) -> real)
  {
    exists j :: 0 <= j < |rows| && InWindow(row.date, rows[j].date, lookBack) &&
      rows[j].index < row.index && rows[j].index !in dropped &&
      similarity(row.embedding, rows[j].embedding) >= minSimilarity
  }

  /** `drop_index_list` after the first `n` rows have been visited. */
  function DropList<E>(rows: seq<News<E>>, n: nat, lookBack: int, minSimilarity: real,
                       similarity: (E, E) -> real): seq<int>
    requires n <= |rows|
  {
    if n == 0 then [] else
      var dropped := DropList(rows, n - 1, lookBack, minSimilarity, similarity);
      if Repeats(rows, rows[n - 1], dropped, lookBack, minSimilarity, similarity)
      then dropped + [rows[n - 1].index] else dropped
  }

  function Undropped<E>(dropped: seq<int>): News<E> -> bool {
    (r: News<E>) => r.index !in dropped
  }

  /** The table `delete_duplicate_news` returns. */
  function Deduplicated<E>(rows: seq<News<E>>, lookBack: int, minSimilarity: real,
                           similarity: (E, E) -> real): seq<News<E>>
  {
    Filter(rows, Undropped(DropList(rows, |rows|, lookBack, minSimilarity, similarity)))
  }

  /** Python's `max` of a non-empty list. */
  function Max(s: seq<real>): (m: real)
    requires s != []
    ensures m in s
    ensures forall k :: 0 <= k < |s| ==> s[k] <= m
  {
    if |s| == 1 then s[0] else
      var rest := Max(s[1..]);
      if s[0] >= rest then s[0] else rest
  }

  /** The test the source makes, `len(check_news) != 0` and then `max(scores) >=
      min_similarity`, decides exactly whether the row repeats an earlier one. */
  lemma ComparedDecides<E>(rows: seq<News<E>>, row: News<E>, dropped: seq<int>, lookBack: int,
                           minSimilarity: real, similarity: (E, E) -> real)
    ensures var check := Compared(rows, row, dropped, lookBack);
      (check != [] && Max(Scores(row, check, similarity)) >= minSimilarity) <==>
      Repeats(rows, row, dropped, lookBack, minSimilarity, similarity)
  {
    var check := Compared(rows, row, dropped, lookBack);
    var scores := Scores(row, check, similarity);
    if check != [] && Max(scores) >= minSimilarity {
      var k :| 0 <= k < |scores| && scores[k] == Max(scores);
      assert check[k] in check;
      FilterMember(rows, Candidate(row, dropped, lookBack), check[k]);
      var j :| 0 <= j < |rows| && rows[j] == check[k];
      assert Candidate(row, dropped, lookBack)(rows[j]);
    }
    if Repeats(rows, row, dropped, lookBack, minSimilarity, similarity) {
      var j :| 0 <= j < |rows| && InWindow(row.date, rows[j].date, lookBack) &&
        rows[j].index < row.index && rows[j].index !in dropped &&
        similarity(row.embedding, rows[j].embedding) >= minSimilarity;
      FilterMember(rows, Candidate(row, dropped, lookBack), rows[j]);
      var k :| 0 <= k < |check| && check[k] == rows[j];
      assert scores[k] <= Max(scores);
    }
  }

  /** `delete_duplicate_news(rows, look_back, ..., min_similarity)`, with the cosine
      similarity of two embeddings given as `similarity`. */
  method DeleteDuplicateNews<E>(rows: seq<News<E>>, lookBack: int, minSimilarity: real,
                                similarity: (E, E) -> real)
    returns (kept: seq<News<E>>)
    ensures kept == Deduplicated(rows, lookBack, minSimilarity, similarity)
  {
    var dropped: seq<int> := [];
    var i := 0;
    while i < |rows|
      invariant 0 <= i <= |rows|
      invariant dropped == DropList(rows, i, lookBack, minSimilarity, similarity)
    {
      var row := rows[i];
      ComparedDecides(rows, row, dropped, lookBack, minSimilarity, similarity);
      var check := Compared(rows, row, dropped, lookBack);
      if |check| != 0 {
        var scores := Scores(row, check, similarity);
        if Max(scores) >= minSimilarity {
          dropped := dropped + [row.index];
        }
      }
      i := i + 1;
    }
    kept := Filter(rows, Undropped(dropped));
  }

  /** The table holds the labels `0 … n-1`, as it does after `reset_index(drop=True)`. */
  predicate ResetIndexed<E>(rows: seq<News<E>>) {
    forall k :: 0 <= k < |rows| ==> rows[k].index == k
  }

  /** In a reset-indexed table, label `l` is on the drop list after `n` rows exactly
      when `l < n` and row `l` repeated a row compared with it when it was visited. */
  lemma {:induction false} DroppedAt<E>(rows: seq<News<E>>, n: nat, lookBack: int, minSimilarity: real,
                                        similarity: (E, E) -> real, l: int)
    requires ResetIndexed(rows) && n <= |rows|
    ensures l in DropList(rows, n, lookBack, minSimilarity, similarity) <==>
      0 <= l < n &&
      Repeats(rows, rows[l], DropList(rows, l, lookBack, minSimilarity, similarity),
              lookBack, minSimilarity, similarity)
  {
    if n > 0 {
      assert rows[n - 1].index == n - 1;
      if l == n - 1 {
        DropListBelow(rows, n - 1, lookBack, minSimilarity, similarity, l);
      } else {
        DroppedAt(rows, n - 1, lookBack, minSimilarity, similarity, l);
      }
    }
  }

  /** In a reset-indexed table only labels of visited rows are on the drop list. */
  lemma {:induction false} DropListBelow<E>(rows: seq<News<E>>, n: nat, lookBack: int, minSimilarity: real,
                                            similarity: (E, E) -> real, l: int)
    requires ResetIndexed(rows) && n <= |rows|
    ensures l in DropList(rows, n, lookBack, minSimilarity, similarity) ==> 0 <= l < n
  {
    if n > 0 {
      assert rows[n - 1].index == n - 1;
      DropListBelow(rows, n - 1, lookBack, minSimilarity, similarity, l);
    }
  }

  /** Seen from row `i` of a reset-indexed table, a row `j` above it is kept iff it was
      not dropped before `i` was visited. */
  lemma KeptAbove<E>(rows: seq<News<E>>, lookBack: int, minSimilarity: real,
                     similarity: (E, E) -> real, i: int, j: int)
    requires ResetIndexed(rows) && 0 <= j < i < |rows|
    ensures rows[j] in Deduplicated(rows, lookBack, minSimilarity, similarity) <==>
      j !in DropList(rows, i, lookBack, minSimilarity, similarity)
  {
    var all := DropList(rows, |rows|, lookBack, minSimilarity, similarity);
    DroppedAt(rows, |rows|, lookBack, minSimilarity, similarity, j);
    DroppedAt(rows, i, lookBack, minSimilarity, similarity, j);
    FilterMember(rows, Undropped(all), rows[j]);
  }

  /** A row is dropped iff a row above it in its look-back range, itself kept, is at
      least `minSimilarity` alike. */
  lemma DroppedIff<E>(rows: seq<News<E>>, lookBack: int, minSimilarity: real,
                      similarity: (E, E) -> real, i: int)
    requires ResetIndexed(rows) && 0 <= i < |rows|
    ensures rows[i] !in Deduplicated(rows, lookBack, minSimilarity, similarity) <==>
      exists j :: 0 <= j < i && rows[j] in Deduplicated(rows, lookBack, minSimilarity, similarity) &&
        InWindow(rows[i].date, rows[j].date, lookBack) &&
        similarity(rows[i].embedding, rows[j].embedding) >= minSimilarity
  {
    var all := DropList(rows, |rows|, lookBack, minSimilarity, similarity);
    var before := DropList(rows, i, lookBack, minSimilarity, similarity);
    DroppedAt(rows, |rows|, lookBack, minSimilarity, similarity, i);
    FilterMember(rows, Undropped(all), rows[i]);
    if Repeats(rows, rows[i], before, lookBack, minSimilarity, similarity) {
      var j :| 0 <= j < |rows| && InWindow(rows[i].date, rows[j].date, lookBack) &&
        rows[j].index < rows[i].index && rows[j].index !in before &&
        similarity(rows[i].embedding, rows[j].embedding) >= minSimilarity;
      KeptAbove(rows, lookBack, minSimilarity, similarity, i, j);
    } else {
      forall j | 0 <= j < i && InWindow(rows[i].date, rows[j].date, lookBack) &&
                 rows[j] in Deduplicated(rows, lookBack, minSimilarity, similarity)
        ensures similarity(rows[i].embedding, rows[j].embedding) < minSimilarity
      {
        KeptAbove(rows, lookBack, minSimilarity, similarity, i, j);
      }
    }
  }

  /** The first row is never dropped, and the rows kept are rows of the table, unchanged
      and in their order. */
  lemma DeduplicatedShape<E>(rows: seq<News<E>>, lookBack: int, minSimilarity: real,
                             similarity: (E, E) -> real)
    requires ResetIndexed(rows)
    ensures rows != [] ==> rows[0] in Deduplicated(rows, lookBack, minSimilarity, similarity)
    ensures IsSubseq(Deduplicated(rows, lookBack, minSimilarity, similarity), rows)
  {
    var all := DropList(rows, |rows|, lookBack, minSimilarity, similarity);
    FilterIsSubseq(rows, Undropped(all));
    if rows != [] {
      DroppedIff(rows, lookBack, minSimilarity, similarity, 0);
    }
  }

  /** No two kept rows in each other's look-back range are `minSimilarity` alike. */
  lemma KeptAreFresh<E>(rows: seq<News<E>>, lookBack: int, minSimilarity: real,
                        similarity: (E, E) -> real, i: int, j: int)
    requires ResetIndexed(rows) && 0 <= j < i < |rows|
    requires rows[i] in Deduplicated(rows, lookBack, minSimilarity, similarity)
    requires rows[j] in Deduplicated(rows, lookBack, minSimilarity, similarity)
    requires InWindow(rows[i].date, rows[j].date, lookBack)
    ensures similarity(rows[i].embedding, rows[j].embedding) < minSimilarity
  {
    DroppedIff(rows, lookBack, minSimilarity, similarity, i);
  }

  /** With an empty look-back range nothing is compared, so nothing is dropped. */
  lemma {:induction false} NoLookBackDropList<E>(rows: seq<News<E>>, n: nat, lookBack: int,
                                                 minSimilarity: real, similarity: (E, E) -> real)
    requires lookBack <= 0 && n <= |rows|
    ensures DropList(rows, n, lookBack, minSimilarity, similarity) == []
  {
    if n > 0 {
      NoLookBackDropList(rows, n - 1, lookBack, minSimilarity, similarity);
    }
  }

  /** With an empty look-back range the table comes back whole. */
  lemma NoLookBack<E>(rows: seq<News<E>>, lookBack: int, minSimilarity: real,
                      similarity: (E, E) -> real)
    requires lookBack <= 0
    ensures Deduplicated(rows, lookBack, minSimilarity, similarity) == rows
  {
    NoLookBackDropList(rows, |rows|, lookBack, minSimilarity, similarity);
  }
}
