/** Ticker extraction from news titles and from HTML pages, with the exchange-suffix table
    that turns `EXCH:SYM` into a Yahoo symbol. */
module FindTicker {
  import opened Wrappers
  import opened Text
  import opened Seqs

  /** Yahoo suffix of each exchange code that may appear before a colon in a title. */
  const ExchangeSuffix: map<string, string> := map[
    "LON" := ".L", "NYSE" := "", "NASDAQ" := "", "FRA" := ".F",
    "TSE" := ".TO", "CVE" := ".V", "ASX" := ".AX", "NZSE" := ".NZ",
    "VTX" := ".SW", "AMS" := ".AS", "MUN" := ".MU", "ETR" := ".DE",
    "AMEX" := "", "KLSE" := ".KL", "JSE" := ".JO", "SGX" := ".SI"
  ]

  // ---------------------------------------------------------------------------------------
  // Titles: the regular expression `\(.*?\)` and the candidates it yields
  // ---------------------------------------------------------------------------------------

  /** Where the lazy `.*?\)` stops: the first ')' of `t`, unless a newline (which `.` does
      not match) comes first. */
  function CloseAt(t: string): (k: Option<nat>)
    ensures k.Some? ==> k.value < |t| && t[k.value] == ')'
    ensures k.Some? ==> forall i :: 0 <= i < k.value ==> t[i] != ')' && t[i] != '\n'
  {
    if t == [] || t[0] == '\n' then None
    else if t[0] == ')' then Some(0)
    else match CloseAt(t[1..])
      case None => None
      case Some(k) => Some(k + 1)
  }

  /** `re.findall('\(.*?\)', s)` with the parentheses stripped off each match: the text
      between a '(' and the next ')' on the same line, scanning left to right without
      overlap. */
  function ParenGroups(s: string): seq<string>
    decreases |s|
  {
    if s == [] then []
    else if s[0] == '(' then
      match CloseAt(s[1..])
      case Some(k) => [s[1..k + 1]] + ParenGroups(s[k + 2..])
      case None => ParenGroups(s[1..])
    else ParenGroups(s[1..])
  }

  /** `g` stands between a '(' and a ')' somewhere in `s`. */
  predicate Enclosed(s: string, g: string) {
    exists i | 0 <= i && i + |g| + 2 <= |s| :: s[i] == '(' && s[i + 1..i + 1 + |g|] == g && s[i + 1 + |g|] == ')'
  }

  lemma EnclosedInSuffix(s: string, m: nat, g: string)
    requires m <= |s| && Enclosed(s[m..], g)
    ensures Enclosed(s, g)
  {
    var t := s[m..];
    var i :| 0 <= i && i + |g| + 2 <= |t| && t[i] == '(' && t[i + 1..i + 1 + |g|] == g && t[i + 1 + |g|] == ')';
    assert s[m + i + 1..m + i + 1 + |g|] == t[i + 1..i + 1 + |g|];
  }

  /** Every group stood between parentheses in the title and holds neither ')' nor a newline. */
  lemma {:induction false} ParenGroupsEnclosed(s: string)
    ensures forall j :: 0 <= j < |ParenGroups(s)| ==> Enclosed(s, ParenGroups(s)[j])
    ensures forall j :: 0 <= j < |ParenGroups(s)| ==> ')' !in ParenGroups(s)[j] && '\n' !in ParenGroups(s)[j]
    decreases |s|
  {
    if s != [] {
      if s[0] == '(' && CloseAt(s[1..]).Some? {
        var k := CloseAt(s[1..]).value;
        var g := s[1..k + 1];
        ParenGroupsEnclosed(s[k + 2..]);
        assert s[1..][k] == ')';
        assert Enclosed(s, g) by {
          assert s[0] == '(' && s[1..1 + |g|] == g && s[1 + |g|] == ')';
        }
        forall i | 0 <= i < |g|
          ensures g[i] != ')' && g[i] != '\n'
        {
          assert g[i] == s[1..][i];
        }
        var later := ParenGroups(s[k + 2..]);
        forall j | 0 <= j < |later|
          ensures Enclosed(s, later[j])
        {
          EnclosedInSuffix(s, k + 2, later[j]);
        }
      } else {
        ParenGroupsEnclosed(s[1..]);
        forall j | 0 <= j < |ParenGroups(s[1..])|
          ensures Enclosed(s, ParenGroups(s[1..])[j])
        {
          EnclosedInSuffix(s, 1, ParenGroups(s[1..])[j]);
        }
      }
    }
  }

  /** A parenthesised group on one line is matched, and scanning resumes after it. */
  lemma ParenGroupsOfGroup(g: string, rest: string)
    requires ')' !in g && '\n' !in g
    ensures ParenGroups("(" + g + ")" + rest) == [g] + ParenGroups(rest)
  {
    var s := "(" + g + ")" + rest;
    assert CloseAt(s[1..]) == Some(|g|) by {
      CloseAtFirst(s[1..], |g|);
    }
    assert s[1..|g| + 1] == g;
    assert s[|g| + 2..] == rest;
  }

  /** A parenthesised group on one line is matched when no '(' comes before it: the groups
      of such a title are that group, then the groups of what follows it. */
  lemma {:induction false} ParenGroupsAfter(pre: string, g: string, rest: string)
    requires '(' !in pre && ')' !in g && '\n' !in g
    ensures ParenGroups(pre + "(" + g + ")" + rest) == [g] + ParenGroups(rest)
    decreases |pre|
  {
    if pre == [] {
      assert pre + "(" + g + ")" + rest == "(" + g + ")" + rest;
      ParenGroupsOfGroup(g, rest);
    } else {
      var s := pre + "(" + g + ")" + rest;
      assert s[0] == pre[0] && pre[0] != '(';
      assert s[1..] == pre[1..] + "(" + g + ")" + rest;
      ParenGroupsAfter(pre[1..], g, rest);
    }
  }

  lemma {:induction false} CloseAtFirst(t: string, k: nat)
    requires k < |t| && t[k] == ')'
    requires forall i :: 0 <= i < k ==> t[i] != ')' && t[i] != '\n'
    ensures CloseAt(t) == Some(k)
  {
    if k > 0 {
      CloseAtFirst(t[1..], k - 1);
    }
  }

  /** A title without '(' has no groups. */
  lemma {:induction false} NoParenNoGroups(s: string)
    requires '(' !in s
    ensures ParenGroups(s) == []
    decreases |s|
  {
    if s != [] {
      NoParenNoGroups(s[1..]);
    }
  }

  /** `x.replace("(", "").replace(")", "")`. */
  function Unparen(x: string): string {
    ReplaceChar(ReplaceChar(x, '(', ""), ')', "")
  }

  /** Python's `str.isupper()` on ASCII text: some letter, and every letter upper case. */
  predicate IsUpper(x: string) {
    (exists i | 0 <= i < |x| :: 'A' <= x[i] <= 'Z') && forall i | 0 <= i < |x| :: !('a' <= x[i] <= 'z')
  }

  /** The stripped groups of the title whose text is upper case, in title order. */
  function TickerInfos(title: string): seq<string> {
    var groups := ParenGroups(title);
    Filter(seq(|groups|, i requires 0 <= i < |groups| => Unparen(groups[i])), IsUpper)
  }

  /** Every candidate is an upper-case, parenthesis-free group of the title. */
  lemma TickerInfosShape(title: string)
    ensures forall j :: 0 <= j < |TickerInfos(title)| ==>
      IsUpper(TickerInfos(title)[j]) && '(' !in TickerInfos(title)[j] && ')' !in TickerInfos(title)[j]
  {
    var groups := ParenGroups(title);
    var stripped := seq(|groups|, i requires 0 <= i < |groups| => Unparen(groups[i]));
    forall j | 0 <= j < |TickerInfos(title)|
      ensures '(' !in TickerInfos(title)[j] && ')' !in TickerInfos(title)[j]
    {
      var x := TickerInfos(title)[j];
      FilterMember(stripped, IsUpper, x);
      var i :| 0 <= i < |stripped| && stripped[i] == x;
      var once := ReplaceChar(groups[i], '(', "");
      assert '(' !in once;
      ReplaceKeepsAbsent(once, ')', "", '(');
    }
  }

  // ---------------------------------------------------------------------------------------
  // Titles: one candidate becomes at most one ticker
  // ---------------------------------------------------------------------------------------

  /** What one candidate adds to the ticker list. `EXCH:SYM` with a known exchange gives SYM
      without dots plus the exchange's suffix, an unknown exchange gives nothing, a text
      without a colon is used as it is, and more than one colon makes the two-name unpacking
      raise ValueError. */
  function FullTicker(info: string): Py<Option<string>> {
    if ':' in info then
      var parts := SplitOn(info, ':');
      if |parts| != 2 then Raised(ValueError)
      else
        var exchange, ticker := parts[0], ReplaceChar(parts[1], '.', "");
        if exchange in ExchangeSuffix then Ok(Some(ticker + ExchangeSuffix[exchange])) else Ok(None)
    else Ok(Some(info))
  }

  /** The three outcomes of a candidate with exactly one colon, and of one without. */
  lemma FullTickerCases(exchange: string, symbol: string, info: string)
    requires ':' !in exchange && ':' !in symbol
    ensures exchange in ExchangeSuffix ==>
      FullTicker(exchange + ":" + symbol) == Ok(Some(ReplaceChar(symbol, '.', "") + ExchangeSuffix[exchange]))
    ensures exchange !in ExchangeSuffix ==> FullTicker(exchange + ":" + symbol) == Ok(None)
    ensures ':' !in info ==> FullTicker(info) == Ok(Some(info))
  {
    SplitOnPair(exchange, symbol, ':');
    assert exchange + ":" + symbol == exchange + [':'] + symbol;
    assert (exchange + ":" + symbol)[|exchange|] == ':';
  }

  /** A candidate raises exactly when it holds two colons or more. */
  lemma FullTickerRaises(info: string)
    ensures FullTicker(info).Raised? <==> multiset(info)[':'] >= 2
  {
    SplitOnCount(info, ':');
  }

  /** The tickers of a list of candidates, left to right; the first raising candidate
      ends the loop with its exception. */
  function FullTickers(infos: seq<string>): Py<seq<string>> {
    if infos == [] then Ok([]) else
      match FullTickers(infos[..|infos| - 1])
      case Raised(e) => Raised(e)
      case Ok(acc) =>
        match FullTicker(infos[|infos| - 1])
        case Raised(e) => Raised(e)
        case Ok(t) => Ok(acc + (if t.Some? then [t.value] else []))
  }

  /** The list raises iff some candidate does; otherwise it holds exactly the tickers the
      candidates give. */
  lemma {:induction false} FullTickersSpec(infos: seq<string>)
    ensures FullTickers(infos).Raised? <==> exists i :: 0 <= i < |infos| && FullTicker(infos[i]).Raised?
    ensures FullTickers(infos).Ok? ==> forall x ::
      x in FullTickers(infos).value <==> exists i :: 0 <= i < |infos| && FullTicker(infos[i]) == Ok(Some(x))
  {
    if infos != [] {
      var init := infos[..|infos| - 1];
      var last := infos[|infos| - 1];
      FullTickersSpec(init);
      assert forall i :: 0 <= i < |init| ==> init[i] == infos[i];
      if FullTickers(infos).Ok? {
        forall x | x in FullTickers(infos).value
          ensures exists i :: 0 <= i < |infos| && FullTicker(infos[i]) == Ok(Some(x))
        {
          if x !in FullTickers(init).value {
            assert FullTicker(infos[|infos| - 1]) == Ok(Some(x));
          }
        }
      }
    }
  }

  /** The `for` loop over the candidates, appending each candidate's ticker. */
  method CollectTickers(infos: seq<string>) returns (r: Py<seq<string>>)
    ensures r == FullTickers(infos)
  {
    var full: seq<string> := [];
    var k := 0;
    while k < |infos|
      invariant 0 <= k <= |infos|
      invariant FullTickers(infos[..k]) == Ok(full)
    {
      FullTickersStep(infos, k);
      match FullTicker(infos[k]) {
        case Raised(e) =>
          PrefixRaised(infos, k + 1);
          return Raised(e);
        case Ok(t) =>
          if t.Some? {
            full := full + [t.value];
          } else {
            assert full + [] == full;
          }
      }
      k := k + 1;
    }
    assert infos[..k] == infos;
    return Ok(full);
  }

  /** One more candidate: its exception, or its ticker appended. */
  lemma FullTickersStep(infos: seq<string>, k: nat)
    requires k < |infos|
    ensures FullTickers(infos[..k + 1]) ==
      match FullTickers(infos[..k])
      case Raised(e) => Raised(e)
      case Ok(acc) =>
        match FullTicker(infos[k])
        case Raised(e) => Raised(e)
        case Ok(t) => Ok(acc + (if t.Some? then [t.value] else []))
  {
    var pre := infos[..k + 1];
    assert pre[..|pre| - 1] == infos[..k] && pre[|pre| - 1] == infos[k];
  }

  /** Once a prefix of the candidates raises, the whole list raises the same exception. */
  lemma {:induction false} PrefixRaised(infos: seq<string>, k: nat)
    requires k <= |infos| && FullTickers(infos[..k]).Raised?
    ensures FullTickers(infos) == FullTickers(infos[..k])
    decreases |infos| - k
  {
    if k < |infos| {
      var pre := infos[..k + 1];
      assert pre[..|pre| - 1] == infos[..k];
      PrefixRaised(infos, k + 1);
    } else {
      assert infos[..k] == infos;
    }
  }

  /** `find_yahoo_ticker_from_title`: the distinct tickers joined by ';', or None when the
      list is empty. Python's set gives them in no fixed order; the model lists each at its
      first occurrence. */
  function TitleTicker(title: string): Py<Option<string>> {
    match FullTickers(TickerInfos(title))
    case Raised(e) => Raised(e)
    case Ok(full) => if full == [] then Ok(None) else Ok(Some(Join(Distinct(full), ";")))
  }

  method FindYahooTickerFromTitle(title: string) returns (r: Py<Option<string>>)
    ensures r == TitleTicker(title)
  {
    var infos := TickerInfos(title);
    var full := CollectTickers(infos);
    match full {
      case Raised(e) => r := Raised(e);
      case Ok(tickers) =>
        if |tickers| != 0 {
          r := Ok(Some(Join(Distinct(tickers), ";")));
        } else {
          r := Ok(None);
        }
    }
  }

  /** The title lookup raises ValueError iff one of its candidates holds two colons. */
  lemma TitleTickerRaises(title: string)
    ensures TitleTicker(title).Raised? <==>
      exists i :: 0 <= i < |TickerInfos(title)| && multiset(TickerInfos(title)[i])[':'] >= 2
  {
    var infos := TickerInfos(title);
    FullTickersSpec(infos);
    forall i | 0 <= i < |infos|
      ensures FullTicker(infos[i]).Raised? <==> multiset(infos[i])[':'] >= 2
    {
      FullTickerRaises(infos[i]);
    }
  }

  /** The title lookup gives None iff every candidate is `EXCH:SYM` with an unknown exchange. */
  lemma TitleTickerNone(title: string)
    ensures TitleTicker(title) == Ok(None) <==>
      forall i :: 0 <= i < |TickerInfos(title)| ==> FullTicker(TickerInfos(title)[i]) == Ok(None)
  {
    var infos := TickerInfos(title);
    FullTickersSpec(infos);
    if FullTickers(infos).Ok? {
      var full := FullTickers(infos).value;
      if full == [] {
        forall i | 0 <= i < |infos|
          ensures FullTicker(infos[i]) == Ok(None)
        {
        }
      } else {
        var x := full[0];
        assert x in full;
        var i :| 0 <= i < |infos| && FullTicker(infos[i]) == Ok(Some(x));
      }
    }
  }

  /** A found title ticker is a ';'-join of a duplicate-free, non-empty list holding
      exactly the candidates' tickers. */
  lemma TitleTickerJoin(title: string)
    requires TitleTicker(title).Ok? && TitleTicker(title).value.Some?
    ensures exists ds: seq<string> ::
      TitleTicker(title).value.value == Join(ds, ";") && ds != [] && NoDuplicates(ds) &&
      forall x :: x in ds <==> exists i :: 0 <= i < |TickerInfos(title)| && FullTicker(TickerInfos(title)[i]) == Ok(Some(x))
  {
    var infos := TickerInfos(title);
    FullTickersSpec(infos);
    var full := FullTickers(infos).value;
    DistinctSpec(full);
    var ds := Distinct(full);
    assert TitleTicker(title).value.value == Join(ds, ";");
  }

  // ---------------------------------------------------------------------------------------
  // HTML: `ticker=` followed by two separator/word runs
  // ---------------------------------------------------------------------------------------

  /** The class `[A-Za-z0-9]`. */
  predicate IsAlnum(c: char) {
    'A' <= c <= 'Z' || 'a' <= c <= 'z' || '0' <= c <= '9'
  }

  /** Length of the longest prefix of `t` whose characters are all in `[A-Za-z0-9]` (when
      `alnum`) or all outside it: a greedy `[A-Za-z0-9]*` or `[^A-Za-z0-9]*`. */
  function RunLen(t: string, alnum: bool): (n: nat)
    ensures n <= |t|
    ensures forall i :: 0 <= i < n ==> IsAlnum(t[i]) == alnum
    ensures n < |t| ==> IsAlnum(t[n]) != alnum
  {
    if t == [] || IsAlnum(t[0]) != alnum then 0 else 1 + RunLen(t[1..], alnum)
  }

  /** How much of `u` the tail `[^A-Za-z0-9]*[A-Za-z0-9]*[^A-Za-z0-9]*[A-Za-z0-9]*` of the
      pattern consumes. */
  function TailLen(u: string): (n: nat)
    ensures n <= |u|
  {
    var a := RunLen(u, false);
    var b := RunLen(u[a..], true);
    var c := RunLen(u[a + b..], false);
    var d := RunLen(u[a + b + c..], true);
    a + b + c + d
  }

  const TickerKey: string := "ticker="

  /** `re.findall('ticker=[^A-Za-z0-9]*[A-Za-z0-9]*[^A-Za-z0-9]*[A-Za-z0-9]*', html)`. */
  function HtmlMatches(s: string): seq<string>
    decreases |s|
  {
    if s == [] then []
    else if TickerKey <= s then
      var n := |TickerKey| + TailLen(s[|TickerKey|..]);
      [s[..n]] + HtmlMatches(s[n..])
    else HtmlMatches(s[1..])
  }

  /** Every match begins with `ticker=` and occurs in the page. */
  lemma {:induction false} HtmlMatchesShape(s: string)
    ensures forall j :: 0 <= j < |HtmlMatches(s)| ==> TickerKey <= HtmlMatches(s)[j] && Contains(s, HtmlMatches(s)[j])
    decreases |s|
  {
    if s != [] {
      var m := if TickerKey <= s then |TickerKey| + TailLen(s[|TickerKey|..]) else 1;
      HtmlMatchesShape(s[m..]);
      assert OccursAt(s, 0, s[..m]);
      forall j | 0 <= j < |HtmlMatches(s[m..])|
        ensures Contains(s, HtmlMatches(s[m..])[j])
      {
        ContainsInSuffix(s, m, HtmlMatches(s[m..])[j]);
      }
    }
  }

  /** The page has no match iff `ticker=` does not occur in it. */
  lemma {:induction false} HtmlMatchesEmpty(s: string)
    ensures HtmlMatches(s) == [] <==> !Contains(s, TickerKey)
    decreases |s|
  {
    if s != [] {
      if TickerKey <= s {
        assert OccursAt(s, 0, TickerKey);
      } else {
        HtmlMatchesEmpty(s[1..]);
        ContainsStep(s, TickerKey);
      }
    }
  }

  /** An occurrence in a non-empty text is at its start or in its tail. */
  lemma ContainsStep(s: string, p: string)
    requires s != []
    ensures Contains(s, p) <==> OccursAt(s, 0, p) || Contains(s[1..], p)
  {
    if Contains(s, p) && !OccursAt(s, 0, p) {
      var i :| 0 <= i <= |s| && OccursAt(s, i, p);
      assert s[1..][i - 1..i - 1 + |p|] == s[i..i + |p|];
      assert OccursAt(s[1..], i - 1, p);
    }
    if Contains(s[1..], p) {
      ContainsInSuffix(s, 1, p);
    }
  }

  lemma ContainsInSuffix(s: string, m: nat, p: string)
    requires m <= |s| && Contains(s[m..], p)
    ensures Contains(s, p)
  {
    var i :| 0 <= i <= |s[m..]| && OccursAt(s[m..], i, p);
    assert s[m + i..m + i + |p|] == s[m..][i..i + |p|];
    assert OccursAt(s, m + i, p);
  }

  /** `ticker.split('"')[1].replace("\\", "")`: IndexError when the match holds no '"'. */
  function HtmlTicker(m: string): Py<string> {
    var parts := SplitOn(m, '"');
    if |parts| < 2 then Raised(IndexError) else Ok(ReplaceChar(parts[1], '\\', ""))
  }

  /** The list comprehension over the matches; the first error propagates. */
  function HtmlTickers(ms: seq<string>): Py<seq<string>> {
    if ms == [] then Ok([]) else
      match HtmlTicker(ms[0])
      case Raised(e) => Raised(e)
      case Ok(t) =>
        match HtmlTickers(ms[1..])
        case Raised(e) => Raised(e)
        case Ok(ts) => Ok([t] + ts)
  }

  /** Some match holds no '"', so it has no second piece. */
  predicate SomeUnquoted(ms: seq<string>) {
    exists i :: 0 <= i < |ms| && '"' !in ms[i]
  }

  /** The comprehension raises iff some match lacks a '"'; otherwise entry `i` is the
      unescaped second piece of match `i`. */
  lemma {:induction false} HtmlTickersSpec(ms: seq<string>)
    ensures HtmlTickers(ms).Raised? <==> SomeUnquoted(ms)
    ensures HtmlTickers(ms).Ok? ==> |HtmlTickers(ms).value| == |ms|
    ensures HtmlTickers(ms).Ok? ==>
      forall i :: 0 <= i < |ms| ==> HtmlTickers(ms).value[i] == ReplaceChar(SplitOn(ms[i], '"')[1], '\\', "")
  {
    if ms != [] {
      HtmlTickersSpec(ms[1..]);
      assert forall i :: 1 <= i < |ms| ==> ms[i] == ms[1..][i - 1];
    }
  }

  /** `find_yahoo_ticker_from_html`. */
  function FindYahooTickerFromHtml(html: string): Py<Option<string>> {
    match HtmlTickers(HtmlMatches(html))
    case Raised(e) => Raised(e)
    case Ok(ts) => if ts == [] then Ok(None) else Ok(Some(Join(Distinct(ts), ";")))
  }

  /** None iff the page has no match, that is iff `ticker=` does not occur in it; a result
      never holds a backslash. */
  lemma FindYahooTickerFromHtmlSpec(html: string)
    ensures FindYahooTickerFromHtml(html).Raised? <==> SomeUnquoted(HtmlMatches(html))
    ensures FindYahooTickerFromHtml(html) == Ok(None) <==> HtmlMatches(html) == []
    ensures FindYahooTickerFromHtml(html) == Ok(None) <==> !Contains(html, TickerKey)
    ensures FindYahooTickerFromHtml(html).Ok? && FindYahooTickerFromHtml(html).value.Some? ==>
      '\\' !in FindYahooTickerFromHtml(html).value.value
  {
    var ms := HtmlMatches(html);
    HtmlMatchesEmpty(html);
    HtmlTickersSpec(ms);
    if HtmlTickers(ms).Ok? {
      var ts := HtmlTickers(ms).value;
      DistinctSpec(ts);
      var ds := Distinct(ts);
      forall k | 0 <= k < |ds|
        ensures '\\' !in ds[k]
      {
        assert ds[k] in ts;
      }
      JoinAvoids(ds, ";", '\\');
    }
  }

  // ---------------------------------------------------------------------------------------
  // Seeking Alpha links
  // ---------------------------------------------------------------------------------------

  const LinkOpen: string := "<a href=\""
  const LinkClose: string := "\" title"
  const SymbolPath: string := "seekingalpha.com/symbol/"

  /** `re.findall('<a href="[^"]*" title', s)`: after the opening, the run up to the next
      '"' must be followed by `" title`, else the attempt fails at this position. */
  function LinkMatches(s: string): seq<string>
    decreases |s|
  {
    if s == [] then []
    else if LinkOpen <= s then
      var rest := s[|LinkOpen|..];
      var k := |SplitOn(rest, '"')[0]|;
      if LinkClose <= rest[k..] then
        var n := |LinkOpen| + k + |LinkClose|;
        [s[..n]] + LinkMatches(s[n..])
      else LinkMatches(s[1..])
    else LinkMatches(s[1..])
  }

  /** The filter of the comprehension: the symbol path occurs and '/' does not. */
  predicate SymbolLink(m: string) {
    Contains(m, SymbolPath) && '/' !in m
  }

  /** `ticker.split('"')[1].split("seekingalpha.com/symbol/")[1]`. */
  function LinkSymbol(m: string): Py<string> {
    var parts := SplitOn(m, '"');
    if |parts| < 2 then Raised(IndexError) else
      var pieces := SplitStr(parts[1], SymbolPath);
      if |pieces| < 2 then Raised(IndexError) else Ok(pieces[1])
  }

  function LinkSymbols(ms: seq<string>): Py<seq<string>> {
    if ms == [] then Ok([]) else
      match LinkSymbol(ms[0])
      case Raised(e) => Raised(e)
      case Ok(t) =>
        match LinkSymbols(ms[1..])
        case Raised(e) => Raised(e)
        case Ok(ts) => Ok([t] + ts)
  }

  /** `find_seekalpha_ticker`. */
  function FindSeekalphaTicker(html: string): Py<string> {
    match LinkSymbols(Filter(LinkMatches(html), SymbolLink))
    case Raised(e) => Raised(e)
    case Ok(ts) => Ok(Join(Distinct(ts), ";"))
  }

  /** The symbol path contains '/', so no link passes the filter and the result is always
      the empty string. */
  lemma SeekalphaAlwaysEmpty(html: string)
    ensures FindSeekalphaTicker(html) == Ok("")
  {
    var ms := LinkMatches(html);
    forall k | 0 <= k < |ms|
      ensures !SymbolLink(ms[k])
    {
      if Contains(ms[k], SymbolPath) {
        ContainsChar(ms[k], SymbolPath, 16);
      }
    }
    FilterNone(ms, SymbolLink);
  }
}
