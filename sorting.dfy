/** A stable sort by a numeric key, as Python's `sorted(xs, key=...)`, and the facts about
    sorted sequences the model needs. */
module Sorting {
  import opened Seqs

  predicate SortedBy<T>(s: seq<T>, key: T -> real) {
    forall i, j :: 0 <= i < j < |s| ==> key(s[i]) <= key(s[j])
  }

  /** The elements of `s` whose key is `v`, in their order in `s`. */
  function SameKey<T>(s: seq<T>, key: T -> real, v: real): seq<T> {
    if s == [] then [] else (if key(s[0]) == v then [s[0]] else []) + SameKey(s[1..], key, v)
  }

  /** Inserts `x` before the first element whose key is greater than `x`'s, so that
      elements with equal keys stay in arrival order. */
  function InsertBy<T>(x: T, s: seq<T>, key: T -> real): seq<T> {
    if s == [] || key(x) < key(s[0]) then [x] + s else [s[0]] + InsertBy(x, s[1..], key)
  }

  /** Inserting adds `x` and nothing else. */
  lemma {:induction false} InsertByPermutes<T>(x: T, s: seq<T>, key: T -> real)
    ensures multiset(InsertBy(x, s, key)) == multiset(s) + multiset{x}
  {
    if s != [] && key(s[0]) <= key(x) {
      InsertByPermutes(x, s[1..], key);
      assert s == [s[0]] + s[1..];
      assert multiset(InsertBy(x, s, key)) == multiset([s[0]]) + multiset(InsertBy(x, s[1..], key));
    }
  }

  /** Every key of the insertion is at least any bound on `x`'s key and on the keys of `s`. */
  lemma {:induction false} InsertByBound<T>(x: T, s: seq<T>, key: T -> real, b: real)
    requires b <= key(x)
    requires forall k :: 0 <= k < |s| ==> b <= key(s[k])
    ensures forall k :: 0 <= k < |InsertBy(x, s, key)| ==> b <= key(InsertBy(x, s, key)[k])
  {
    if s != [] && key(s[0]) <= key(x) {
      InsertByBound(x, s[1..], key, b);
    }
  }

  lemma ConsSorted<T>(h: T, t: seq<T>, key: T -> real)
    requires SortedBy(t, key)
    requires forall k :: 0 <= k < |t| ==> key(h) <= key(t[k])
    ensures SortedBy([h] + t, key)
  {
    var r := [h] + t;
    forall i, j | 0 <= i < j < |r| ensures key(r[i]) <= key(r[j]) {
      assert r[j] == t[j - 1];
      if i > 0 {
        assert r[i] == t[i - 1];
      }
    }
  }

  lemma {:induction false} InsertBySorted<T>(x: T, s: seq<T>, key: T -> real)
    requires SortedBy(s, key)
    ensures SortedBy(InsertBy(x, s, key), key)
  {
    if s == [] || key(x) < key(s[0]) {
      ConsSorted(x, s, key);
    } else {
      SortedTail(s, key);
      InsertBySorted(x, s[1..], key);
      InsertByBound(x, s[1..], key, key(s[0]));
      ConsSorted(s[0], InsertBy(x, s[1..], key), key);
    }
  }

  /** Python's stable `sorted` in ascending key order (insertion sort). */
  function SortBy<T(==)>(s: seq<T>, key: T -> real): (r: seq<T>)
    ensures multiset(r) == multiset(s)
    ensures SortedBy(r, key)
  {
    if s == [] then [] else
      var init := SortBy(s[..|s| - 1], key);
      assert s == s[..|s| - 1] + [s[|s| - 1]];
      InsertByPermutes(s[|s| - 1], init, key);
      InsertBySorted(s[|s| - 1], init, key);
      InsertBy(s[|s| - 1], init, key)
  }

  lemma {:induction false} SameKeyConcat<T>(a: seq<T>, b: seq<T>, key: T -> real, v: real)
    ensures SameKey(a + b, key, v) == SameKey(a, key, v) + SameKey(b, key, v)
  {
    if a == [] {
      assert a + b == b;
    } else {
      assert (a + b)[0] == a[0] && (a + b)[1..] == a[1..] + b;
      SameKeyConcat(a[1..], b, key, v);
      assert SameKey(a + b, key, v) == (if key(a[0]) == v then [a[0]] else []) + SameKey(a[1..] + b, key, v);
    }
  }

  lemma {:induction false} SameKeyNone<T>(s: seq<T>, key: T -> real, v: real)
    requires forall k :: 0 <= k < |s| ==> key(s[k]) != v
    ensures SameKey(s, key, v) == []
  {
    if s != [] {
      SameKeyNone(s[1..], key, v);
    }
  }

  lemma SameKeyCons<T>(h: T, t: seq<T>, key: T -> real, v: real)
    ensures SameKey([h] + t, key, v) == (if key(h) == v then [h] else []) + SameKey(t, key, v)
  {
    assert ([h] + t)[0] == h && ([h] + t)[1..] == t;
  }

  lemma {:induction false} InsertByStable<T>(x: T, s: seq<T>, key: T -> real, v: real)
    requires SortedBy(s, key)
    ensures SameKey(InsertBy(x, s, key), key, v)
         == SameKey(s, key, v) + (if key(x) == v then [x] else [])
  {
    if s == [] || key(x) < key(s[0]) {
      SameKeyCons(x, s, key, v);
      if key(x) == v {
        SameKeyNone(s, key, v);
      }
    } else {
      SortedTail(s, key);
      InsertByStable(x, s[1..], key, v);
      SameKeyCons(s[0], InsertBy(x, s[1..], key), key, v);
      SameKeyCons(s[0], s[1..], key, v);
      assert [s[0]] + s[1..] == s;
    }
  }

  lemma SameKeySnoc<T>(s: seq<T>, x: T, key: T -> real, v: real)
    ensures SameKey(s + [x], key, v) == SameKey(s, key, v) + (if key(x) == v then [x] else [])
  {
    SameKeyConcat(s, [x], key, v);
    assert SameKey([x], key, v) == (if key(x) == v then [x] else []) + SameKey([], key, v);
  }

  /** The sort is stable: the elements sharing any one key keep their relative order. */
  lemma {:induction false} SortByStable<T>(s: seq<T>, key: T -> real, v: real)
    ensures SameKey(SortBy(s, key), key, v) == SameKey(s, key, v)
  {
    if s != [] {
      var init, x := s[..|s| - 1], s[|s| - 1];
      var sorted := SortBy(init, key);
      var tail := if key(x) == v then [x] else [];
      assert SameKey(SortBy(s, key), key, v) == SameKey(sorted, key, v) + tail by {
        assert SortBy(s, key) == InsertBy(x, sorted, key);
        InsertByStable(x, sorted, key, v);
      }
      assert SameKey(sorted, key, v) == SameKey(init, key, v) by {
        SortByStable(init, key, v);
      }
      assert s == init + [x];
      SameKeySnoc(init, x, key, v);
    }
  }

  lemma {:induction false} InsertByLast<T>(x: T, s: seq<T>, key: T -> real)
    requires forall k :: 0 <= k < |s| ==> key(s[k]) <= key(x)
    ensures InsertBy(x, s, key) == s + [x]
  {
    if s != [] {
      InsertByLast(x, s[1..], key);
      assert s == [s[0]] + s[1..];
    }
  }

  lemma SortedInit<T>(s: seq<T>, key: T -> real)
    requires s != [] && SortedBy(s, key)
    ensures SortedBy(s[..|s| - 1], key)
    ensures forall k :: 0 <= k < |s| - 1 ==> key(s[k]) <= key(s[|s| - 1])
  {
    var init := s[..|s| - 1];
    forall i, j | 0 <= i < j < |init| ensures key(init[i]) <= key(init[j]) {
      assert init[i] == s[i] && init[j] == s[j];
    }
  }

  lemma SortByUnfold<T>(s: seq<T>, key: T -> real)
    requires s != []
    ensures SortBy(s, key) == InsertBy(s[|s| - 1], SortBy(s[..|s| - 1], key), key)
  {
  }

  /** Sorting a sequence that is already sorted leaves it as it is. */
  lemma {:induction false} SortBySorted<T>(s: seq<T>, key: T -> real)
    requires SortedBy(s, key)
    ensures SortBy(s, key) == s
  {
    if s != [] {
      var init, x := s[..|s| - 1], s[|s| - 1];
      SortedInit(s, key);
      SortBySorted(init, key);
      assert SortBy(init, key) == init;
      InsertByLast(x, init, key);
      assert InsertBy(x, init, key) == s;
      SortByUnfold(s, key);
    }
  }
  lemma SortedTail<T>(s: seq<T>, key: T -> real)
    requires s != [] && SortedBy(s, key)
    ensures SortedBy(s[1..], key)
    ensures forall k :: 1 <= k < |s| ==> key(s[0]) <= key(s[k])
  {
    var tail := s[1..];
    forall i, j | 0 <= i < j < |tail| ensures key(tail[i]) <= key(tail[j]) {
      assert tail[i] == s[i + 1] && tail[j] == s[j + 1];
    }
  }

  lemma InsertByFront<T>(x: T, s: seq<T>, key: T -> real)
    requires s == [] || key(x) < key(s[0])
    ensures InsertBy(x, s, key) == [x] + s
  {
  }

  lemma InsertByPast<T>(x: T, y: T, s: seq<T>, key: T -> real)
    requires key(y) <= key(x)
    ensures InsertBy(x, [y] + s, key) == [y] + InsertBy(x, s, key)
  {
    assert ([y] + s)[0] == y && ([y] + s)[1..] == s;
  }

  lemma FilterHeadAbove<T>(s: seq<T>, key: T -> real, p: T -> bool, x: T)
    requires SortedBy(s, key)
    requires s == [] || key(x) < key(s[0])
    ensures Filter(s, p) == [] || key(x) < key(Filter(s, p)[0])
  {
    var f := Filter(s, p);
    if f != [] {
      FilterMember(s, p, f[0]);
      var k :| 0 <= k < |s| && s[k] == f[0];
      assert key(s[0]) <= key(s[k]);
    }
  }

  lemma {:induction false} InsertByFilter<T>(x: T, s: seq<T>, key: T -> real, p: T -> bool)
    requires SortedBy(s, key)
    ensures Filter(InsertBy(x, s, key), p)
         == if p(x) then InsertBy(x, Filter(s, p), key) else Filter(s, p)
  {
    var f := Filter(s, p);
    if s == [] || key(x) < key(s[0]) {
      InsertByFront(x, s, key);
      FilterCons(x, s, p);
      if p(x) {
        FilterHeadAbove(s, key, p, x);
        InsertByFront(x, f, key);
      } else {
        assert [] + f == f;
      }
    } else {
      var y, rest := s[0], s[1..];
      assert s == [y] + rest;
      SortedTail(s, key);
      InsertByFilter(x, rest, key, p);
      InsertByPast(x, y, rest, key);
      FilterCons(y, InsertBy(x, rest, key), p);
      FilterCons(y, rest, p);
      if p(x) && p(y) {
        InsertByPast(x, y, Filter(rest, p), key);
      } else if p(x) {
        assert [] + Filter(rest, p) == Filter(rest, p);
        assert [] + InsertBy(x, Filter(rest, p), key) == InsertBy(x, Filter(rest, p), key);
      }
    }
  }

  lemma SortBySnoc<T>(s: seq<T>, x: T, key: T -> real)
    ensures SortBy(s + [x], key) == InsertBy(x, SortBy(s, key), key)
  {
    var u := s + [x];
    assert u[..|u| - 1] == s && u[|u| - 1] == x;
    SortByUnfold(u, key);
  }

  /** Removing rows and then sorting gives the same as sorting and then removing rows. */
  lemma {:induction false} SortByFilter<T>(s: seq<T>, key: T -> real, p: T -> bool)
    ensures Filter(SortBy(s, key), p) == SortBy(Filter(s, p), key)
  {
    if s != [] {
      var init, x := s[..|s| - 1], s[|s| - 1];
      assert s == init + [x];
      SortByFilter(init, key, p);
      SortBySnoc(init, x, key);
      InsertByFilter(x, SortBy(init, key), key, p);
      FilterSnoc(init, x, p);
      if p(x) {
        SortBySnoc(Filter(init, p), x, key);
      } else {
        assert Filter(init, p) + [] == Filter(init, p);
      }
    }
  }
}
