/** The Python string operations the modelled code relies on: whitespace splitting and
    joining, one-character replace and split, substring tests and `str(int)`. */
module Text {

  /** The characters Python's `str.isspace()` accepts; `str.split()` with no argument
      splits on runs of them. */
  predicate IsSpace(c: char) {
    c == ' ' || ('\t' <= c <= '\r') || ('\U{1C}' <= c <= '\U{1F}') || c == '\U{85}' || c == '\U{A0}'
    || c == '\U{1680}' || ('\U{2000}' <= c <= '\U{200A}') || c == '\U{2028}' || c == '\U{2029}'
    || c == '\U{202F}' || c == '\U{205F}' || c == '\U{3000}'
  }

  predicate NoSpace(w: string) {
    forall i :: 0 <= i < |w| ==> !IsSpace(w[i])
  }

  /** What `str.split()` can produce: a non-empty run of non-whitespace characters. */
  predicate IsWord(w: string) {
    |w| > 0 && NoSpace(w)
  }

  predicate AllWords(ws: seq<string>) {
    forall i :: 0 <= i < |ws| ==> IsWord(ws[i])
  }

  /** `s` without its leading whitespace. */
  function SkipSpaces(s: string): (t: string)
    ensures |t| <= |s|
    ensures t == [] || !IsSpace(t[0])
  {
    if s == [] || !IsSpace(s[0]) then s else SkipSpaces(s[1..])
  }

  /** The longest prefix of `s` without whitespace. */
  function LeadingWord(s: string): (w: string)
    ensures |w| <= |s| && NoSpace(w)
    ensures s != [] && !IsSpace(s[0]) ==> |w| > 0
  {
    if s == [] || IsSpace(s[0]) then [] else [s[0]] + LeadingWord(s[1..])
  }

  /** Python's `s.split()`: the maximal runs of non-whitespace characters, in order. */
  function Words(s: string): (ws: seq<string>)
    ensures AllWords(ws)
    decreases |s|
  {
    var t := SkipSpaces(s);
    if t == [] then [] else
      var w := LeadingWord(t);
      [w] + Words(t[|w|..])
  }

  /** Python's `sep.join(ws)`. */
  function Join(ws: seq<string>, sep: string): string {
    if ws == [] then "" else if |ws| == 1 then ws[0] else ws[0] + sep + Join(ws[1..], sep)
  }

  /** Python's `" ".join(s.split())`: the words of `s` separated by single spaces. */
  function Collapse(s: string): string {
    Join(Words(s), " ")
  }

  lemma WordsOfSpaceLed(s: string)
    requires s != [] && IsSpace(s[0])
    ensures Words(s) == Words(s[1..])
  {
    assert SkipSpaces(s) == SkipSpaces(s[1..]);
  }

  lemma {:induction false} LeadingWordOf(w: string, rest: string)
    requires NoSpace(w)
    requires rest == [] || IsSpace(rest[0])
    ensures LeadingWord(w + rest) == w
    decreases |w|
  {
    if w == [] {
      assert w + rest == rest;
    } else {
      assert (w + rest)[1..] == w[1..] + rest;
      LeadingWordOf(w[1..], rest);
    }
  }

  /** Splitting a single-space join of words gives the words back. */
  lemma {:induction false} WordsOfJoin(ws: seq<string>)
    requires AllWords(ws)
    ensures Words(Join(ws, " ")) == ws
  {
    if ws == [] {
    } else if |ws| == 1 {
      var w := ws[0];
      LeadingWordOf(w, "");
      assert w + "" == w;
      assert w[|w|..] == "";
    } else {
      var w := ws[0];
      var rest := Join(ws[1..], " ");
      var s := w + " " + rest;
      assert s == w + (" " + rest);
      LeadingWordOf(w, " " + rest);
      assert s[|w|..] == " " + rest;
      WordsOfSpaceLed(" " + rest);
      assert (" " + rest)[1..] == rest;
      WordsOfJoin(ws[1..]);
    }
  }

  /** A join of words is empty exactly when there are no words. */
  lemma {:induction false} JoinEmpty(ws: seq<string>, sep: string)
    requires AllWords(ws)
    ensures Join(ws, sep) == "" <==> ws == []
  {
    if |ws| > 1 {
      assert |Join(ws, sep)| >= |ws[0]|;
    }
  }

  /** Collapsing keeps the words, and collapsing twice is collapsing once. */
  lemma CollapseIdempotent(s: string)
    ensures Words(Collapse(s)) == Words(s)
    ensures Collapse(Collapse(s)) == Collapse(s)
    ensures Collapse(s) == "" <==> Words(s) == []
  {
    WordsOfJoin(Words(s));
    JoinEmpty(Words(s), " ");
  }

  /** A character absent from `s` is absent from each of its words. */
  lemma {:induction false} WordsAvoid(s: string, c: char)
    requires c !in s
    ensures forall i :: 0 <= i < |Words(s)| ==> c !in Words(s)[i]
    decreases |s|
  {
    var t := SkipSpaces(s);
    SkipSpacesAvoids(s, c);
    if t != [] {
      var w := LeadingWord(t);
      LeadingWordPrefix(t);
      assert c !in w by {
        forall k | 0 <= k < |w| ensures w[k] != c { assert w[k] == t[k]; }
      }
      WordsAvoid(t[|w|..], c);
      assert Words(s) == [w] + Words(t[|w|..]);
    }
  }

  lemma {:induction false} SkipSpacesAvoids(s: string, c: char)
    requires c !in s
    ensures c !in SkipSpaces(s)
  {
    if s != [] && IsSpace(s[0]) {
      SkipSpacesAvoids(s[1..], c);
    }
  }

  lemma {:induction false} LeadingWordPrefix(s: string)
    ensures LeadingWord(s) <= s
  {
    if s != [] && !IsSpace(s[0]) {
      LeadingWordPrefix(s[1..]);
    }
  }

  /** `p` occurs in `s` at position `i`. */
  predicate OccursAt(s: string, i: int, p: string) {
    0 <= i && i + |p| <= |s| && s[i..i + |p|] == p
  }

  /** Python's `p in s` for strings. */
  predicate Contains(s: string, p: string) {
    exists i | 0 <= i <= |s| :: OccursAt(s, i, p)
  }

  /** A string containing a pattern contains every character of the pattern. */
  lemma ContainsChar(s: string, p: string, k: int)
    requires Contains(s, p) && 0 <= k < |p|
    ensures p[k] in s
  {
    var i :| 0 <= i <= |s| && OccursAt(s, i, p);
    assert s[i + k] == s[i..i + |p|][k];
  }

  /** Python's `s.replace(c, d)` for a one-character pattern `c`. */
  function ReplaceChar(s: string, c: char, d: string): (r: string)
    ensures c !in d ==> c !in r
    ensures c !in s ==> r == s
  {
    if s == [] then [] else (if s[0] == c then d else [s[0]]) + ReplaceChar(s[1..], c, d)
  }

  /** Replacing keeps out a character that neither the text nor the replacement holds. */
  lemma {:induction false} ReplaceKeepsAbsent(s: string, c: char, d: string, e: char)
    requires e !in s && e !in d
    ensures e !in ReplaceChar(s, c, d)
  {
    if s != [] {
      ReplaceKeepsAbsent(s[1..], c, d, e);
    }
  }

  /** Python's `s.split(c)` for a one-character separator: |ps| - 1 separators were cut out. */
  function SplitOn(s: string, c: char): (ps: seq<string>)
    ensures |ps| >= 1
    ensures forall k :: 0 <= k < |ps| ==> c !in ps[k]
    ensures ps[0] <= s && (|ps[0]| == |s| || s[|ps[0]|] == c)
    ensures |ps| == 1 <==> c !in s
  {
    if s == [] then [""] else
      var rest := SplitOn(s[1..], c);
      if s[0] == c then [""] + rest else [[s[0]] + rest[0]] + rest[1..]
  }

  /** Joining the pieces of a split with the separator restores the string. */
  lemma {:induction false} JoinSplitOn(s: string, c: char)
    ensures Join(SplitOn(s, c), [c]) == s
  {
    if s != [] {
      var rest := SplitOn(s[1..], c);
      JoinSplitOn(s[1..], c);
      if s[0] == c {
        assert SplitOn(s, c) == [""] + rest;
        JoinCons("", rest, [c]);
        assert s == "" + [c] + s[1..];
      } else {
        assert SplitOn(s, c) == [[s[0]] + rest[0]] + rest[1..];
        JoinExtendHead(s[0], rest, [c]);
        assert s == [s[0]] + s[1..];
      }
    }
  }

  /** A split on `c` has one piece more than `s` has occurrences of `c`. */
  lemma {:induction false} SplitOnCount(s: string, c: char)
    ensures |SplitOn(s, c)| == multiset(s)[c] + 1
  {
    if s != [] {
      SplitOnCount(s[1..], c);
      assert s == [s[0]] + s[1..];
    }
  }

  /** Splitting `a c b`, where neither side holds `c`, gives the two sides. */
  lemma {:induction false} SplitOnPair(a: string, b: string, c: char)
    requires c !in a && c !in b
    ensures SplitOn(a + [c] + b, c) == [a, b]
  {
    var s := a + [c] + b;
    if a == [] {
      assert s == [c] + b && s[1..] == b;
      var r := SplitOn(b, c);
      assert |r| == 1 && r[0] <= b && |r[0]| == |b|;
      assert r[0] == b[..|r[0]|] == b;
      assert r == [r[0]];
      assert s[0] == c && SplitOn(s, c) == [""] + r;
    } else {
      assert s[0] == a[0] && s[1..] == a[1..] + [c] + b;
      SplitOnPair(a[1..], b, c);
      assert [a[0]] + a[1..] == a;
    }
  }

  /** Python's `s.split(p)` for a separator of any non-zero length, cut left to right. */
  function SplitStr(s: string, p: string): (ps: seq<string>)
    requires |p| > 0
    ensures |ps| >= 1
    decreases |s|
  {
    if |s| < |p| then [s]
    else if s[..|p|] == p then [""] + SplitStr(s[|p|..], p)
    else
      var rest := SplitStr(s[1..], p);
      [[s[0]] + rest[0]] + rest[1..]
  }

  lemma JoinCons(w: string, ws: seq<string>, sep: string)
    requires ws != []
    ensures Join([w] + ws, sep) == w + sep + Join(ws, sep)
  {
    assert ([w] + ws)[1..] == ws;
  }

  /** Putting a character in front of the first piece puts it in front of the join. */
  lemma JoinExtendHead(c: char, ws: seq<string>, sep: string)
    requires ws != []
    ensures Join([[c] + ws[0]] + ws[1..], sep) == [c] + Join(ws, sep)
  {
    var ps := [[c] + ws[0]] + ws[1..];
    if |ws| > 1 {
      assert ps[1..] == ws[1..];
      assert Join(ps, sep) == ([c] + ws[0]) + sep + Join(ws[1..], sep);
      assert ([c] + ws[0]) + sep + Join(ws[1..], sep) == [c] + (ws[0] + sep + Join(ws[1..], sep));
    }
  }

  /** Joining the pieces of a split with the separator restores the string. */
  lemma {:induction false} JoinSplitStr(s: string, p: string)
    requires |p| > 0
    ensures Join(SplitStr(s, p), p) == s
    decreases |s|
  {
    if |s| < |p| {
      assert SplitStr(s, p) == [s];
    } else if s[..|p|] == p {
      var rest := SplitStr(s[|p|..], p);
      JoinSplitStr(s[|p|..], p);
      JoinCons("", rest, p);
      assert SplitStr(s, p) == [""] + rest;
      assert s == "" + p + s[|p|..];
    } else {
      var rest := SplitStr(s[1..], p);
      JoinSplitStr(s[1..], p);
      JoinExtendHead(s[0], rest, p);
      assert SplitStr(s, p) == [[s[0]] + rest[0]] + rest[1..];
      assert s == [s[0]] + s[1..];
    }
  }

  /** A character found neither in the pieces nor in the separator is not in their join. */
  lemma {:induction false} JoinAvoids(ws: seq<string>, sep: string, c: char)
    requires c !in sep
    requires forall k :: 0 <= k < |ws| ==> c !in ws[k]
    ensures c !in Join(ws, sep)
  {
    if |ws| > 1 {
      JoinAvoids(ws[1..], sep, c);
    }
  }

  function DigitChar(d: nat): char
    requires d < 10
  {
    "0123456789"[d]
  }

  /** Python's `str(n)` for a natural number: its decimal digits. */
  function NatToString(n: nat): (r: string)
    ensures |r| >= 1 && (n >= 10 ==> |r| >= 2)
    ensures forall k :: 0 <= k < |r| ==> '0' <= r[k] <= '9'
  {
    if n < 10 then [DigitChar(n)] else NatToString(n / 10) + [DigitChar(n % 10)]
  }

  /** Python's `str(n)` for an integer. */
  function IntToString(n: int): string {
    if n < 0 then "-" + NatToString(-n) else NatToString(n)
  }

  lemma {:induction false} NatToStringInjective(a: nat, b: nat)
    requires NatToString(a) == NatToString(b)
    ensures a == b
  {
    var ra, rb := NatToString(a), NatToString(b);
    if a >= 10 && b >= 10 {
      assert ra[|ra| - 1] == DigitChar(a % 10) && rb[|rb| - 1] == DigitChar(b % 10);
      assert a % 10 == b % 10;
      assert ra[..|ra| - 1] == NatToString(a / 10);
      assert rb[..|rb| - 1] == NatToString(b / 10);
      NatToStringInjective(a / 10, b / 10);
    } else if a < 10 && b < 10 {
      assert ra[0] == DigitChar(a) && rb[0] == DigitChar(b);
    }
  }

  /** Different integers print differently. */
  lemma {:induction false} IntToStringInjective(a: int, b: int)
    ensures IntToString(a) == IntToString(b) ==> a == b
  {
    if a < 0 && b < 0 {
      NegativeInjective(a, b);
    } else if a >= 0 && b >= 0 {
      if NatToString(a) == NatToString(b) {
        NatToStringInjective(a, b);
      }
    } else if a < 0 {
      SignsDiffer(a, b);
    } else {
      SignsDiffer(b, a);
    }
  }

  /** Labels made of one prefix and a number name different numbers. */
  lemma PrefixedInjective(prefix: string, a: int, b: int)
    ensures prefix + IntToString(a) == prefix + IntToString(b) ==> a == b
  {
    var x, y := prefix + IntToString(a), prefix + IntToString(b);
    if x == y {
      assert x[|prefix|..] == IntToString(a);
      assert y[|prefix|..] == IntToString(b);
      IntToStringInjective(a, b);
    }
  }

  lemma NegativeInjective(a: int, b: int)
    requires a < 0 && b < 0
    ensures IntToString(a) == IntToString(b) ==> a == b
  {
    if IntToString(a) == IntToString(b) {
      assert IntToString(a)[1..] == NatToString(-a);
      assert IntToString(b)[1..] == NatToString(-b);
      NatToStringInjective(-a, -b);
    }
  }

  lemma SignsDiffer(a: int, b: int)
    requires a < 0 <= b
    ensures IntToString(a) != IntToString(b)
  {
    assert IntToString(a)[0] == '-';
    assert '0' <= IntToString(b)[0] <= '9';
  }
}
