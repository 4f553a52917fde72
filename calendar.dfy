/** The calendar alignment of `EventReturnCalculator` (return_calculator.py): observed
    trading days are merged with a day-by-day template, placeholders are dropped again,
    calendar-day drifts are re-indexed into trading-day drifts and the event window is
    cut out. Dates and drifts are day numbers. */
module Calendar {
  import opened Wrappers
  import opened Seqs
  import opened Sorting

  /** One row of a return table: a trading date with the stock's and the index's return. */
  datatype ReturnRow = ReturnRow(date: int, stock: real, index: real)

  /** A row of the day-by-day table: a date, its calendar drift from the event and, for an
      observed trading day, its returns (`None` for a template placeholder, whose return
      cells are NaN). */
  datatype Slot = Slot(date: int, drift: int, observed: Option<ReturnRow>)

  /** A row of the event window: trading-day drift, date and both returns. */
  datatype WindowRow = WindowRow(drift: int, date: int, stock: real, index: real)

  /** Lines 90-91: the return rows with their calendar drift `date - event`. */
  function Observed(rows: seq<ReturnRow>, event: int): seq<Slot> {
    seq(|rows|, k requires 0 <= k < |rows| => Slot(rows[k].date, rows[k].date - event, Some(rows[k])))
  }

  /** Lines 63-70: one placeholder per calendar day from `first` to `last`; none when
      `last` is before `first` (`range` of a negative count is empty). */
  function Template(first: int, last: int, event: int): seq<Slot> {
    var n := last - first + 1;
    if n <= 0 then [] else seq(n, i requires 0 <= i < n => Slot(first + i, first + i - event, None))
  }

  function DriftKey(s: Slot): real {
    s.drift as real
  }

  predicate Traded(s: Slot) {
    s.observed.Some?
  }

  function DriftsOf(s: seq<Slot>): set<int> {
    set x | x in s :: x.drift
  }

  /** `drop_duplicates(subset=['drift'], keep='first')`: the first row of each drift not
      in `seen`, in order. */
  function Dedup(s: seq<Slot>, seen: set<int>): seq<Slot> {
    if s == [] then []
    else if s[0].drift in seen then Dedup(s[1..], seen)
    else [s[0]] + Dedup(s[1..], seen + {s[0].drift})
  }

  /** Deduplication keeps rows of `s` whose drift was not seen before. */
  lemma {:induction false} DedupMembers(s: seq<Slot>, seen: set<int>)
    ensures forall x :: x in Dedup(s, seen) ==> x in s && x.drift !in seen
  {
    if s != [] {
      if s[0].drift in seen {
        DedupMembers(s[1..], seen);
      } else {
        DedupMembers(s[1..], seen + {s[0].drift});
      }
    }
  }

  predicate DistinctDrifts(r: seq<Slot>) {
    forall i, j :: 0 <= i < j < |r| ==> r[i].drift != r[j].drift
  }

  lemma ConsDistinct(x: Slot, t: seq<Slot>)
    requires DistinctDrifts(t)
    requires forall y :: y in t ==> y.drift != x.drift
    ensures DistinctDrifts([x] + t)
  {
    var r := [x] + t;
    forall i, j | 0 <= i < j < |r| ensures r[i].drift != r[j].drift {
      assert r[j] == t[j - 1];
      if i == 0 {
        assert t[j - 1] in t;
      } else {
        assert r[i] == t[i - 1];
      }
    }
  }

  /** After deduplication no two rows share a drift. */
  lemma {:induction false} DedupDrifts(s: seq<Slot>, seen: set<int>)
    ensures DistinctDrifts(Dedup(s, seen))
  {
    if s != [] {
      if s[0].drift in seen {
        DedupDrifts(s[1..], seen);
      } else {
        var seen' := seen + {s[0].drift};
        DedupDrifts(s[1..], seen');
        DedupMembers(s[1..], seen');
        ConsDistinct(s[0], Dedup(s[1..], seen'));
      }
    }
  }

  /** Lines 72-78: observed rows first, then the template; first row per drift kept;
      sorted by drift; rows with a missing return dropped. The source requires a
      non-empty return table (its first and last dates are read). */
  function Intermediate(rows: seq<ReturnRow>, event: int): seq<Slot>
    requires rows != []
  {
    var concat := Observed(rows, event) + Template(rows[0].date, rows[|rows| - 1].date, event);
    Filter(SortBy(Dedup(concat, {}), DriftKey), Traded)
  }

  /** Line 97: the position of the first row with calendar drift `>= 0`, or `|s|`. */
  function ZeroPosition(s: seq<Slot>): (z: nat)
    ensures z <= |s|
    ensures forall k :: 0 <= k < z ==> s[k].drift < 0
    ensures z < |s| ==> s[z].drift >= 0
  {
    if s == [] || s[0].drift >= 0 then 0 else 1 + ZeroPosition(s[1..])
  }

  /** Lines 99-102: the rows with trading-day drift `position - z`. */
  function Reindex(s: seq<Slot>, z: int): seq<WindowRow>
    requires forall k :: 0 <= k < |s| ==> Traded(s[k])
  {
    seq(|s|, k requires 0 <= k < |s| && Traded(s[k]) =>
      WindowRow(k - z, s[k].date, s[k].observed.value.stock, s[k].observed.value.index))
  }

  function InWindow(w: int): WindowRow -> bool {
    (r: WindowRow) => -w <= r.drift <= w
  }

  /** Lines 94-107 on the intermediate rows: `None` when no row is on or after the event,
      otherwise the rows whose trading-day drift is in `[-w, w]`. */
  function FindWindow(s: seq<Slot>, w: int): Option<seq<WindowRow>>
    requires forall k :: 0 <= k < |s| ==> Traded(s[k])
  {
    var z := ZeroPosition(s);
    if z == |s| then None else Some(Filter(Reindex(s, z), InWindow(w)))
  }

  /** `_find_window_return(return_df, w)`. */
  function WindowReturns(rows: seq<ReturnRow>, event: int, w: int): Option<seq<WindowRow>>
    requires rows != []
  {
    FindWindow(Intermediate(rows, event), w)
  }

  // ---------------------------------------------------------------------------------
  // The intermediate table holds exactly the observed rows, sorted by drift.

  lemma DriftsOfCons(x: Slot, s: seq<Slot>)
    ensures DriftsOf([x] + s) == {x.drift} + DriftsOf(s)
  {
    assert forall y :: y in [x] + s <==> y == x || y in s;
  }

  /** What deduplication keeps of `x` given the drifts already seen, and what it has
      seen afterwards. */
  function Kept(x: Slot, seen: set<int>): seq<Slot> {
    if x.drift in seen then [] else [x]
  }

  function SeenAfter(x: Slot, seen: set<int>): set<int> {
    seen + {x.drift}
  }

  lemma DedupCons(x: Slot, t: seq<Slot>, seen: set<int>)
    ensures Dedup([x] + t, seen) == Kept(x, seen) + Dedup(t, SeenAfter(x, seen))
  {
    assert ([x] + t)[1..] == t;
    if x.drift in seen {
      assert SeenAfter(x, seen) == seen;
    }
  }

  /** Deduplicating a concatenation deduplicates the second part against every drift of the
      first. */
  lemma {:induction false} DedupConcat(a: seq<Slot>, b: seq<Slot>, seen: set<int>)
    ensures Dedup(a + b, seen) == Dedup(a, seen) + Dedup(b, seen + DriftsOf(a))
  {
    if a == [] {
      assert a + b == b;
      assert seen + DriftsOf(a) == seen;
    } else {
      var x, rest := a[0], a[1..];
      DedupConcat(rest, b, SeenAfter(x, seen));
      DedupConcatStep(x, rest, b, seen);
      assert a == [x] + rest;
    }
  }

  /** The inductive step of `DedupConcat`: one more leading row. */
  lemma DedupConcatStep(x: Slot, rest: seq<Slot>, b: seq<Slot>, seen: set<int>)
    requires Dedup(rest + b, SeenAfter(x, seen))
          == Dedup(rest, SeenAfter(x, seen)) + Dedup(b, SeenAfter(x, seen) + DriftsOf(rest))
    ensures Dedup([x] + rest + b, seen)
         == Dedup([x] + rest, seen) + Dedup(b, seen + DriftsOf([x] + rest))
  {
    var seen' := SeenAfter(x, seen);
    var k, d, e := Kept(x, seen), Dedup(rest, seen'), Dedup(b, seen' + DriftsOf(rest));
    calc {
      Dedup([x] + rest + b, seen);
    == { assert [x] + rest + b == [x] + (rest + b);
         DedupCons(x, rest + b, seen); }
      k + Dedup(rest + b, seen');
    ==
      k + (d + e);
    ==
      (k + d) + e;
    == { DedupCons(x, rest, seen); }
      Dedup([x] + rest, seen) + e;
    == { DriftsOfCons(x, rest);
         assert seen + DriftsOf([x] + rest) == seen' + DriftsOf(rest); }
      Dedup([x] + rest, seen) + Dedup(b, seen + DriftsOf([x] + rest));
    }
  }

  lemma {:induction false} DedupDistinct(s: seq<Slot>, seen: set<int>)
    requires DistinctDrifts(s)
    requires forall k :: 0 <= k < |s| ==> s[k].drift !in seen
    ensures Dedup(s, seen) == s
  {
    if s != [] {
      DedupDistinct(s[1..], seen + {s[0].drift});
      assert s == [s[0]] + s[1..];
    }
  }

  lemma FilterDedupConcat(obs: seq<Slot>, tmpl: seq<Slot>)
    requires forall k :: 0 <= k < |obs| ==> Traded(obs[k])
    requires forall k :: 0 <= k < |tmpl| ==> !Traded(tmpl[k])
    ensures Filter(Dedup(obs + tmpl, {}), Traded) == Dedup(obs, {})
  {
    DedupConcat(obs, tmpl, {});
    assert {} + DriftsOf(obs) == DriftsOf(obs);
    var d, e := Dedup(obs, {}), Dedup(tmpl, DriftsOf(obs));
    DedupMembers(obs, {});
    DedupMembers(tmpl, DriftsOf(obs));
    FilterConcat(d, e, Traded);
    assert forall k :: 0 <= k < |d| ==> Traded(d[k]) by {
      forall k | 0 <= k < |d| ensures Traded(d[k]) {
        assert d[k] in d;
      }
    }
    assert forall k :: 0 <= k < |e| ==> !Traded(e[k]) by {
      forall k | 0 <= k < |e| ensures !Traded(e[k]) {
        assert e[k] in e;
      }
    }
    FilterNone(e, Traded);
    assert d + [] == d;
  }

  /** Placeholders never survive: the intermediate table is the observed rows, first row
      per calendar drift, sorted by drift. */
  lemma IntermediateIsObserved(rows: seq<ReturnRow>, event: int)
    requires rows != []
    ensures Intermediate(rows, event) == SortBy(Dedup(Observed(rows, event), {}), DriftKey)
  {
    var obs := Observed(rows, event);
    var tmpl := Template(rows[0].date, rows[|rows| - 1].date, event);
    assert forall k :: 0 <= k < |tmpl| ==> !Traded(tmpl[k]);
    FilterDedupConcat(obs, tmpl);
    SortByFilter(Dedup(obs + tmpl, {}), DriftKey, Traded);
  }

  /** The slots of an observed table: traded, with calendar drift `date - event` and the
      return row of their own date. */
  predicate Aligned(s: seq<Slot>, event: int) {
    forall k :: 0 <= k < |s| ==>
      Traded(s[k]) && s[k].drift == s[k].date - event && s[k].observed.value.date == s[k].date
  }

  lemma {:induction false} DedupCovers(s: seq<Slot>, seen: set<int>, x: Slot) returns (y: Slot)
    requires x in s && x.drift !in seen
    ensures y in Dedup(s, seen) && y.drift == x.drift
  {
    if s[0].drift in seen {
      y := DedupCovers(s[1..], seen, x);
    } else if s[0].drift == x.drift {
      y := s[0];
    } else {
      y := DedupCovers(s[1..], seen + {s[0].drift}, x);
    }
  }

  lemma PermutationMembers(s: seq<Slot>, d: seq<Slot>, obs: seq<Slot>)
    requires multiset(s) == multiset(d)
    requires forall x :: x in d ==> x in obs
    ensures forall x :: x in s ==> x in obs
  {
    forall x | x in s ensures x in obs {
      assert x in multiset(s);
    }
  }

  lemma ObservedAligned(s: seq<Slot>, rows: seq<ReturnRow>, event: int)
    requires forall x :: x in s ==> x in Observed(rows, event)
    ensures Aligned(s, event)
  {
    forall k | 0 <= k < |s|
      ensures Traded(s[k]) && s[k].drift == s[k].date - event && s[k].observed.value.date == s[k].date
    {
      assert s[k] in s;
    }
  }

  lemma PermutationCovers(s: seq<Slot>, rows: seq<ReturnRow>, event: int)
    requires multiset(s) == multiset(Dedup(Observed(rows, event), {}))
    ensures forall k :: 0 <= k < |rows| ==> rows[k].date - event in DriftsOf(s)
  {
    var obs := Observed(rows, event);
    forall k | 0 <= k < |rows| ensures rows[k].date - event in DriftsOf(s) {
      assert obs[k] in obs;
      var y := DedupCovers(obs, {}, obs[k]);
      PermutationMember(s, Dedup(obs, {}), y);
    }
  }

  lemma PermutationMember(s: seq<Slot>, d: seq<Slot>, y: Slot)
    requires multiset(s) == multiset(d) && y in d
    ensures y in s && y.drift in DriftsOf(s)
  {
    assert y in multiset(d);
  }

  /** The intermediate rows are observed rows, sorted by drift, and every observed
      calendar day is present. */
  lemma IntermediateRows(rows: seq<ReturnRow>, event: int)
    requires rows != []
    ensures var s := Intermediate(rows, event);
            && SortedBy(s, DriftKey)
            && Aligned(s, event)
            && (forall x :: x in s ==> x in Observed(rows, event))
            && (forall k :: 0 <= k < |rows| ==> rows[k].date - event in DriftsOf(s))
  {
    IntermediateIsObserved(rows, event);
    var d := Dedup(Observed(rows, event), {});
    var s := Intermediate(rows, event);
    assert s == SortBy(d, DriftKey);
    DedupMembers(Observed(rows, event), {});
    PermutationMembers(s, d, Observed(rows, event));
    ObservedAligned(s, rows, event);
    PermutationCovers(s, rows, event);
  }

  predicate Ascending(rows: seq<ReturnRow>) {
    forall i, j :: 0 <= i < j < |rows| ==> rows[i].date < rows[j].date
  }

  /** For a return table in strictly ascending date order the intermediate table is the
      table itself, with its calendar drifts. */
  lemma IntermediateOfAscending(rows: seq<ReturnRow>, event: int)
    requires rows != [] && Ascending(rows)
    ensures Intermediate(rows, event) == Observed(rows, event)
  {
    var obs := Observed(rows, event);
    IntermediateIsObserved(rows, event);
    DedupDistinct(obs, {});
    assert SortedBy(obs, DriftKey);
    SortBySorted(obs, DriftKey);
  }

  // ---------------------------------------------------------------------------------
  // The event window.

  lemma ZeroPositionNone(s: seq<Slot>, event: int)
    requires Aligned(s, event)
    ensures ZeroPosition(s) < |s| <==> exists x :: x in s && x.date >= event
  {
    var z := ZeroPosition(s);
    if z < |s| {
      assert s[z] in s;
    } else {
      forall x | x in s ensures x.date < event {
        var k :| 0 <= k < |s| && s[k] == x;
      }
    }
  }

  /** The window is `None` exactly when every observed date is before the event. */
  lemma WindowNoneIff(rows: seq<ReturnRow>, event: int, w: int)
    requires rows != []
    ensures WindowReturns(rows, event, w).None? <==> forall k :: 0 <= k < |rows| ==> rows[k].date < event
  {
    var s := Intermediate(rows, event);
    IntermediateRows(rows, event);
    ZeroPositionNone(s, event);
    if exists x :: x in s && x.date >= event {
      var x :| x in s && x.date >= event;
      assert x in Observed(rows, event);
    } else {
      forall k | 0 <= k < |rows| ensures rows[k].date < event {
        assert rows[k].date - event in DriftsOf(s);
        var x :| x in s && x.drift == rows[k].date - event;
      }
    }
  }

  function WindowStart(z: int, w: int): int {
    if z - w < 0 then 0 else z - w
  }

  function WindowEnd(n: int, z: int, w: int): int {
    if z + w + 1 > n then n else z + w + 1
  }

  /** The window is the run of re-indexed rows from `z - w` to `z + w`, cut at the ends
      of the table, and empty when `w` is negative. */
  lemma WindowIsSlice(s: seq<Slot>, w: int)
    requires forall k :: 0 <= k < |s| ==> Traded(s[k])
    requires FindWindow(s, w).Some?
    ensures var z := ZeroPosition(s);
            var lo, hi := WindowStart(z, w), WindowEnd(|s|, z, w);
            && (w >= 0 ==> 0 <= lo <= z < hi <= |s| && FindWindow(s, w).value == Reindex(s, z)[lo..hi])
            && (w < 0 ==> FindWindow(s, w).value == [])
  {
    var z := ZeroPosition(s);
    var t := Reindex(s, z);
    if w >= 0 {
      FilterRange(t, InWindow(w), WindowStart(z, w), WindowEnd(|s|, z, w));
    } else {
      FilterRange(t, InWindow(w), 0, 0);
    }
  }

  /** Trading-day drifts in the window are consecutive, within `[-w, w]`, at most `2w+1`
      of them, and the window is full exactly when the table reaches `w` trading days
      on both sides of the event day. */
  lemma WindowShape(s: seq<Slot>, w: int)
    requires forall k :: 0 <= k < |s| ==> Traded(s[k])
    requires FindWindow(s, w).Some?
    ensures var win := FindWindow(s, w).value;
            var z := ZeroPosition(s);
            && (forall i :: 0 <= i < |win| ==> -w <= win[i].drift <= w)
            && (forall i :: 0 < i < |win| ==> win[i].drift == win[i - 1].drift + 1)
            && |win| <= (if w < 0 then 0 else 2 * w + 1)
            && (|win| == 2 * w + 1 <==> w >= 0 && z >= w && |s| - z > w)
  {
    WindowIsSlice(s, w);
  }

  /** On a return table, the window's trading-day drifts are consecutive and within
      `[-w, w]`. */
  lemma WindowReturnsShape(rows: seq<ReturnRow>, event: int, w: int)
    requires rows != []
    requires WindowReturns(rows, event, w).Some?
    ensures var win := WindowReturns(rows, event, w).value;
            && (forall i :: 0 <= i < |win| ==> -w <= win[i].drift <= w)
            && (forall i :: 0 < i < |win| ==> win[i].drift == win[i - 1].drift + 1)
  {
    IntermediateRows(rows, event);
    WindowShape(Intermediate(rows, event), w);
  }

  lemma WindowRowOfSlots(s: seq<Slot>, event: int, w: int, i: int)
    requires Aligned(s, event) && SortedBy(s, DriftKey)
    requires FindWindow(s, w).Some?
    requires 0 <= i < |FindWindow(s, w).value|
    ensures var r := FindWindow(s, w).value[i];
            && Slot(r.date, r.date - event, Some(ReturnRow(r.date, r.stock, r.index))) in s
            && (r.drift >= 0 <==> r.date >= event)
  {
    var z := ZeroPosition(s);
    var lo, hi := WindowStart(z, w), WindowEnd(|s|, z, w);
    var t := Reindex(s, z);
    var r := FindWindow(s, w).value[i];
    var k := lo + i;
    assert 0 <= k < |s| && r == t[k] by {
      WindowIsSlice(s, w);
    }
    assert s[k] == Slot(r.date, r.date - event, Some(ReturnRow(r.date, r.stock, r.index)));
    assert r.drift >= 0 <==> s[k].drift >= 0 by {
      if k >= z {
        assert DriftKey(s[z]) <= DriftKey(s[k]);
      }
    }
  }

  /** On aligned slots sorted by drift, a window row is a slot's trading day and returns,
      with a non-negative trading-day drift exactly when it is on or after the event. */
  lemma WindowRowsOfSlots(s: seq<Slot>, event: int, w: int)
    requires Aligned(s, event) && SortedBy(s, DriftKey)
    requires FindWindow(s, w).Some?
    ensures forall r :: r in FindWindow(s, w).value ==>
              && Slot(r.date, r.date - event, Some(ReturnRow(r.date, r.stock, r.index))) in s
              && (r.drift >= 0 <==> r.date >= event)
  {
    var win := FindWindow(s, w).value;
    forall r | r in win
      ensures Slot(r.date, r.date - event, Some(ReturnRow(r.date, r.stock, r.index))) in s
      ensures r.drift >= 0 <==> r.date >= event
    {
      var i :| 0 <= i < |win| && win[i] == r;
      WindowRowOfSlots(s, event, w, i);
    }
  }

  /** A window row is an observed trading day with its stock and index returns, and it
      has a non-negative trading-day drift exactly when it is on or after the event. */
  lemma WindowRowsObserved(rows: seq<ReturnRow>, event: int, w: int)
    requires rows != []
    requires WindowReturns(rows, event, w).Some?
    ensures forall r :: r in WindowReturns(rows, event, w).value ==>
              && ReturnRow(r.date, r.stock, r.index) in rows
              && (r.drift >= 0 <==> r.date >= event)
  {
    var s := Intermediate(rows, event);
    IntermediateRows(rows, event);
    WindowRowsOfSlots(s, event, w);
    forall r | r in WindowReturns(rows, event, w).value ensures ReturnRow(r.date, r.stock, r.index) in rows {
      ObservedMember(rows, event, Slot(r.date, r.date - event, Some(ReturnRow(r.date, r.stock, r.index))));
    }
  }

  lemma ObservedMember(rows: seq<ReturnRow>, event: int, x: Slot)
    requires x in Observed(rows, event)
    ensures x.observed.Some? && x.observed.value in rows
  {
    var obs := Observed(rows, event);
    var m :| 0 <= m < |obs| && obs[m] == x;
    assert x.observed.value == rows[m];
  }
}
