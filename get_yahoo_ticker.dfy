/** Choosing a company's main exchange from its ISIN, and building a Yahoo symbol from the
    (exchange, symbol) pairs a company is listed with. The two spreadsheets the module reads
    at import time are parameters here. */
module YahooTicker {
  import opened Wrappers
  import opened Text
  import opened Seqs

  /** A row of the MIC sheet: ISO 3166 country code and country name. */
  datatype MicRow = MicRow(code: string, country: string)

  /** A row of the Yahoo suffix sheet; the `Major` flag and the three text cells may be
      empty (NaN). */
  datatype SuffixRow = SuffixRow(country: string, major: Option<int>, mic: Option<string>,
                                 suffix: Option<string>, index: Option<string>)

  /** `(ideal_exchange, ideal_suffix, ideal_index)`. */
  datatype Listing = Listing(exchange: Option<string>, suffix: Option<string>, index: Option<string>)

  const NoListing: Listing := Listing(None, None, None)

  /** The index used for anything that is not a full ISIN. */
  const DefaultIndex: string := "^GSPC"

  function CountryRows(mic: seq<MicRow>, code: string): seq<MicRow> {
    Filter(mic, (r: MicRow) => r.code == code)
  }

  /** `exchange_df[exchange_df["Major"] == 1]` of the rows of one country. */
  function MajorRows(yahoo: seq<SuffixRow>, country: string): seq<SuffixRow> {
    Filter(yahoo, (r: SuffixRow) => r.country == country && r.major == Some(1))
  }

  /** `get_exchange_suffix_index`. A looked-up country without a code in the MIC sheet
      makes `.iloc[0]` raise IndexError, which the bare `except` turns into three Nones. */
  function ExchangeSuffixIndex(isin: string, yahoo: seq<SuffixRow>, mic: seq<MicRow>): Listing {
    if |isin| < 12 then Listing(None, None, Some(DefaultIndex))
    else
      var named := CountryRows(mic, isin[0..2]);
      if named == [] then NoListing
      else
        var ideal := MajorRows(yahoo, named[0].country);
        if |ideal| != 0 then Listing(ideal[0].mic, ideal[0].suffix, ideal[0].index) else NoListing
  }

  /** Row `j` of the Yahoo sheet is the first major row of `country`. */
  predicate FirstMajor(yahoo: seq<SuffixRow>, country: string, j: int) {
    0 <= j < |yahoo| && yahoo[j].country == country && yahoo[j].major == Some(1) &&
    forall i :: 0 <= i < j ==> !(yahoo[i].country == country && yahoo[i].major == Some(1))
  }

  /** An ISIN shorter than 12 characters is taken for a symbol and gets only the default
      index. */
  lemma ShortIsinSpec(isin: string, yahoo: seq<SuffixRow>, mic: seq<MicRow>)
    requires |isin| < 12
    ensures ExchangeSuffixIndex(isin, yahoo, mic) == Listing(None, None, Some(DefaultIndex))
  {
  }

  /** An ISIN whose country code is not in the MIC sheet gets three Nones. */
  lemma UnknownCountrySpec(isin: string, yahoo: seq<SuffixRow>, mic: seq<MicRow>)
    requires |isin| >= 12 && forall k :: 0 <= k < |mic| ==> mic[k].code != isin[0..2]
    ensures ExchangeSuffixIndex(isin, yahoo, mic) == NoListing
  {
    var code := isin[0..2];
    FilterNone(mic, (r: MicRow) => r.code == code);
  }

  /** The first MIC row with the code names the country. */
  lemma FirstCodeRow(mic: seq<MicRow>, code: string, k: int)
    requires 0 <= k < |mic| && mic[k].code == code && forall i :: 0 <= i < k ==> mic[i].code != code
    ensures CountryRows(mic, code) != [] && CountryRows(mic, code)[0] == mic[k]
  {
    var codeOf := (r: MicRow) => r.code == code;
    FilterMember(mic, codeOf, mic[k]);
    FilterHead(mic, codeOf);
  }

  /** The major rows of a country start with its first major row, and there are none iff it
      has no major row. */
  lemma MajorRowsSpec(yahoo: seq<SuffixRow>, country: string)
    ensures MajorRows(yahoo, country) == [] <==> forall j :: 0 <= j < |yahoo| ==> !FirstMajor(yahoo, country, j)
    ensures forall j :: FirstMajor(yahoo, country, j) ==> MajorRows(yahoo, country)[0] == yahoo[j]
  {
    var isMajor := (r: SuffixRow) => r.country == country && r.major == Some(1);
    if MajorRows(yahoo, country) != [] {
      FilterHead(yahoo, isMajor);
      var j :| 0 <= j < |yahoo| && isMajor(yahoo[j]) && MajorRows(yahoo, country)[0] == yahoo[j] &&
        forall i :: 0 <= i < j ==> !isMajor(yahoo[i]);
      assert FirstMajor(yahoo, country, j);
    } else {
      forall j | 0 <= j < |yahoo|
        ensures !FirstMajor(yahoo, country, j)
      {
        FilterMember(yahoo, isMajor, yahoo[j]);
      }
    }
  }

  /** A full ISIN of a known country: the MIC, suffix and index of the first major row of
      the country the first matching MIC row names, or three Nones when it has none. */
  lemma KnownCountrySpec(isin: string, yahoo: seq<SuffixRow>, mic: seq<MicRow>, k: int)
    requires |isin| >= 12 && 0 <= k < |mic| && mic[k].code == isin[0..2]
    requires forall i :: 0 <= i < k ==> mic[i].code != isin[0..2]
    ensures (forall j :: 0 <= j < |yahoo| ==> !FirstMajor(yahoo, mic[k].country, j)) ==>
      ExchangeSuffixIndex(isin, yahoo, mic) == NoListing
    ensures forall j :: FirstMajor(yahoo, mic[k].country, j) ==>
      ExchangeSuffixIndex(isin, yahoo, mic) == Listing(yahoo[j].mic, yahoo[j].suffix, yahoo[j].index)
  {
    FirstCodeRow(mic, isin[0..2], k);
    MajorRowsSpec(yahoo, mic[k].country);
  }

  // ---------------------------------------------------------------------------------------
  // get_ticker
  // ---------------------------------------------------------------------------------------

  /** One element of the parsed symbol list: `(exchange or None, symbol)`. */
  datatype Quote = Quote(exchange: Option<string>, symbol: string)

  /** Index of the first quote on `exchange`; `None` in Python equals only `None`. */
  function FirstOn(quotes: seq<Quote>, exchange: Option<string>): (r: Option<nat>)
    ensures r.Some? ==> r.value < |quotes| && quotes[r.value].exchange == exchange
    ensures r.Some? ==> forall i :: 0 <= i < r.value ==> quotes[i].exchange != exchange
    ensures r.None? ==> forall i :: 0 <= i < |quotes| ==> quotes[i].exchange != exchange
  {
    if quotes == [] then None
    else if quotes[0].exchange == exchange then Some(0)
    else match FirstOn(quotes[1..], exchange)
      case None => None
      case Some(i) => Some(i + 1)
  }

  /** `symbol.split(".")[0]` when the symbol holds a '.', the symbol itself otherwise. */
  function CutAtDot(symbol: string): string {
    if '.' in symbol then SplitOn(symbol, '.')[0] else symbol
  }

  /** The cut symbol is the part of the symbol before its first '.'. */
  lemma CutAtDotSpec(symbol: string)
    ensures CutAtDot(symbol) <= symbol && '.' !in CutAtDot(symbol)
    ensures |CutAtDot(symbol)| == |symbol| || symbol[|CutAtDot(symbol)|] == '.'
    ensures '.' !in symbol ==> CutAtDot(symbol) == symbol
  {
  }

  /** A Yahoo symbol: the symbol, plus the suffix unless the suffix is missing. */
  function WithSuffix(symbol: string, suffix: Option<string>): string {
    if suffix.None? then symbol else symbol + suffix.value
  }

  /** The single quote that has no exchange, whose symbol is used verbatim. */
  predicate Unlisted(quotes: seq<Quote>) {
    |quotes| == 1 && quotes[0].exchange.None?
  }

  /** `get_ticker` on an already parsed symbol list (`None` when the cell is missing). */
  function Ticker(symbols: Option<seq<Quote>>, exchange: Option<string>, suffix: Option<string>): Option<string> {
    if symbols.None? then None
    else if Unlisted(symbols.value) then Some(symbols.value[0].symbol)
    else match FirstOn(symbols.value, exchange)
      case None => None
      case Some(i) =>
        var symbol := CutAtDot(symbols.value[i].symbol);
        if symbol != "" then Some(WithSuffix(symbol, suffix)) else None
  }

  /** `get_ticker`: the scan for the first quote on the exchange stops at it (`break`). */
  method GetTicker(symbols: Option<seq<Quote>>, exchange: Option<string>, suffix: Option<string>)
    returns (r: Option<string>)
    ensures r == Ticker(symbols, exchange, suffix)
  {
    if symbols.None? {
      return None;
    }
    var quotes := symbols.value;
    if |quotes| == 1 && quotes[0].exchange.None? {
      return Some(quotes[0].symbol);
    }
    var symbol: Option<string> := None;
    var i := 0;
    while i < |quotes|
      invariant 0 <= i <= |quotes|
      invariant symbol.None?
      invariant forall j :: 0 <= j < i ==> quotes[j].exchange != exchange
    {
      if quotes[i].exchange == exchange {
        var s := quotes[i].symbol;
        if '.' in s {
          s := SplitOn(s, '.')[0];
        }
        symbol := Some(s);
        assert FirstOn(quotes, exchange) == Some(i) by {
          FirstOnIs(quotes, exchange, i);
        }
        break;
      }
      i := i + 1;
    }
    if symbol.Some? && symbol.value != "" {
      r := Some(WithSuffix(symbol.value, suffix));
    } else {
      r := None;
    }
  }

  lemma {:induction false} FirstOnIs(quotes: seq<Quote>, exchange: Option<string>, i: nat)
    requires i < |quotes| && quotes[i].exchange == exchange
    requires forall j :: 0 <= j < i ==> quotes[j].exchange != exchange
    ensures FirstOn(quotes, exchange) == Some(i)
  {
    if i > 0 {
      FirstOnIs(quotes[1..], exchange, i - 1);
    }
  }

  /** What `get_ticker` answers. A missing cell gives None; a single quote without an
      exchange gives its symbol unchanged; otherwise there is a result exactly when some
      quote is on the exchange and the first such quote's symbol does not start with '.',
      and the result is that symbol cut before its first '.', followed by the suffix when
      there is one. */
  lemma TickerSpec(symbols: Option<seq<Quote>>, exchange: Option<string>, suffix: Option<string>)
    ensures symbols.None? ==> Ticker(symbols, exchange, suffix).None?
    ensures symbols.Some? && Unlisted(symbols.value) ==>
      Ticker(symbols, exchange, suffix) == Some(symbols.value[0].symbol)
    ensures symbols.Some? && !Unlisted(symbols.value) ==>
      (Ticker(symbols, exchange, suffix).Some? <==>
        exists i :: 0 <= i < |symbols.value| && symbols.value[i].exchange == exchange &&
          (forall j :: 0 <= j < i ==> symbols.value[j].exchange != exchange) &&
          symbols.value[i].symbol != "" && symbols.value[i].symbol[0] != '.')
    ensures symbols.Some? && !Unlisted(symbols.value) && Ticker(symbols, exchange, suffix).Some? ==>
      exists i, cut :: 0 <= i < |symbols.value| && symbols.value[i].exchange == exchange &&
        cut <= symbols.value[i].symbol && '.' !in cut && cut != "" &&
        (|cut| == |symbols.value[i].symbol| || symbols.value[i].symbol[|cut|] == '.') &&
        Ticker(symbols, exchange, suffix).value == cut + (if suffix.Some? then suffix.value else "")
  {
    if symbols.Some? && !Unlisted(symbols.value) {
      var quotes := symbols.value;
      match FirstOn(quotes, exchange) {
        case None =>
        case Some(i) =>
          var s := quotes[i].symbol;
          CutAtDotSpec(s);
          assert CutAtDot(s) != "" <==> s != "" && s[0] != '.';
          forall k | 0 <= k < |quotes| && quotes[k].exchange == exchange &&
              (forall j :: 0 <= j < k ==> quotes[j].exchange != exchange)
            ensures k == i
          {
          }
          if CutAtDot(s) != "" {
            assert WithSuffix(CutAtDot(s), suffix) == CutAtDot(s) + (if suffix.Some? then suffix.value else "");
          }
      }
    }
  }
}
