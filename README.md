# NewsTrader core, modelled in Dafny

NewsTrader gathers financial news, links each story to a stock ticker and measures the
stock's reaction with an event study. This project models:

- **the event-study engine**:
  - `price_fetcher.py`: joining a stock's and its index's prices over a date range;
  - `return_calculator.py`: simple or log returns, the trading-day event window,
    the market-model fit on an estimation sample and the abnormal returns;
  - `study.py`: the pre-flight check, the worker count, one study per event and the
    layout of the result table;
- **ticker look-up**:
  - `find_ticker.py`: tickers from a news title, from a page's HTML, and the
    Seeking Alpha link filter;
  - `get_yahoo_ticker.py`: a company's major exchange from its ISIN, and its Yahoo symbol;
- **news features** (`newsfeature.py`): titles from the GDELT info cell or from a URL path,
  and the choice of a stock for each recognised company;
- **text preparation**:
  - `translator.py`: word truncation;
  - `clean.py`: cleaning a text column, and dropping repeated news by the similarity of
    their embeddings.

Representation:
- Dates are day numbers and prices are reals.
- Missing cells (`NaN`/`None`) are `Option.None`.
- A Python exception that the source lets escape is a `Raised` value of the `Py` result type.
- Logarithms, the OLS fit, the downloader, the processor count, the English dictionary and
  the similarity of embeddings are parameters.

Modules:
- `Wrappers`, `Text` (Python's `split`, `join`, `replace`, `str(int)`), `Seqs` and `Sorting`
  (a stable sort by key) hold the shared vocabulary.
- Each core file has its own module.
- `Calendar` holds the pure half of `return_calculator.py`: the intermediate table and the
  event window.

## Model

| member | source | states |
|---|---|---|
| PriceFetcher.Matches | NewsTrader/backtesting/event_study/price_fetcher.py:59 | each partner of a row in the merge pairs it with a row of the other table on the same date |
| PriceFetcher.MatchesComplete | NewsTrader/backtesting/event_study/price_fetcher.py:59 | every row of the other table on the row's date is a partner |
| PriceFetcher.InnerJoin | NewsTrader/backtesting/event_study/price_fetcher.py:59 | every joined row pairs a stock row and an index row with equal dates |
| PriceFetcher.InnerJoinComplete | NewsTrader/backtesting/event_study/price_fetcher.py:59 | every stock row and index row with equal dates are joined (the converse of InnerJoin's contract) |
| PriceFetcher.Fetch | NewsTrader/backtesting/event_study/price_fetcher.py:43-74 | the fetch with an empty join giving an empty table; FetchSpec, CompleteIsFiltered, FetchWithinEffectiveRange, FetchKeepsOrder and FetchReadsTwoColumns state its behaviour |
| PriceFetcher.FetchAsWritten | NewsTrader/backtesting/event_study/price_fetcher.py:43-74 | the fetch as written, which raises IndexError at line 63 on an empty join; EmptyTableRaises and FetchMatchesAsWritten relate it to Fetch |
| PriceFetcher.FetchSpec | NewsTrader/backtesting/event_study/price_fetcher.py:48-74 | the fetch is None iff a download fails (never with a local table); every fetched row is a date where both prices exist, inside the requested range |
| PriceFetcher.CompleteIsFiltered | NewsTrader/backtesting/event_study/price_fetcher.py:73 | `dropna` keeps exactly the rows with both prices, unchanged |
| PriceFetcher.FetchWithinEffectiveRange | NewsTrader/backtesting/event_study/price_fetcher.py:61-72 | fetched dates lie between the adjusted start and end: the later of the requested start and the first joined date, and the earlier of the requested end and the last joined date |
| PriceFetcher.FetchKeepsOrder | NewsTrader/backtesting/event_study/price_fetcher.py:67-73 | the fetched rows are joined rows with some removed, none altered or reordered |
| PriceFetcher.FetchReadsTwoColumns | NewsTrader/backtesting/event_study/price_fetcher.py:50-51 | with a local table, two tables that agree on the date column and the two symbols' columns give the same fetch |
| PriceFetcher.FetchMatchesAsWritten | NewsTrader/backtesting/event_study/price_fetcher.py:59-74 | the corrected fetch agrees with the code as written whenever the join is non-empty |
| PriceFetcher.EmptyTableRaises | NewsTrader/backtesting/event_study/price_fetcher.py:63 | a local table without rows makes the code as written raise IndexError |
| ReturnCalculator.EventReturnCalculator.constructor | NewsTrader/backtesting/event_study/return_calculator.py:10-31 | the calculator holds the ticker, event day, index, price source and return mode it was given |
| ReturnCalculator.EventReturnCalculator.CalculateReturn | NewsTrader/backtesting/event_study/return_calculator.py:33-54 | the row-by-row loop builds exactly the return table: each fetched row against the row before it, rows with a missing return dropped |
| ReturnCalculator.EventReturnCalculator.CalculateWindowReturn | NewsTrader/backtesting/event_study/return_calculator.py:109-127 | None when the returns are unavailable or empty, otherwise the window of the returns fetched over event ± 7w days |
| ReturnCalculator.EventReturnCalculator.EstimateMarketModel | NewsTrader/backtesting/event_study/return_calculator.py:129-151 | no fit when the returns are unavailable or fewer than p, otherwise the OLS fit of the last p return rows of the estimation range |
| ReturnCalculator.EventReturnCalculator.CalculateWindowAbnormal | NewsTrader/backtesting/event_study/return_calculator.py:153-171 | None when the window or the fit is missing, otherwise the window with the abnormal-return and diagnostic columns |
| ReturnCalculator.AddAbnormalColumns | NewsTrader/backtesting/event_study/return_calculator.py:165-170 | one output row per window row, with the abnormal return `stock - intercept - beta * index` and the fit's diagnostics |
| ReturnCalculator.GrowthRecoversPrice | NewsTrader/backtesting/event_study/return_calculator.py:46-51 | a simple return g satisfies `price == lag * (1 + g)`; a log return is the difference of logarithms |
| ReturnCalculator.ReturnsLag | NewsTrader/backtesting/event_study/return_calculator.py:44-52 | a return row is present iff some price row, taken against the row just before it, gives it |
| ReturnCalculator.ReturnHasLag | NewsTrader/backtesting/event_study/return_calculator.py:44-52 | every return row comes from a price row after the first, against its predecessor |
| ReturnCalculator.LagGivesReturn | NewsTrader/backtesting/event_study/return_calculator.py:44-52 | every price row after the first whose two returns exist appears in the return table |
| ReturnCalculator.LogReturnsCount | NewsTrader/backtesting/event_study/return_calculator.py:46-48 | in log mode the return table is exactly one row shorter than a non-empty price table |
| ReturnCalculator.ReturnsAscending | NewsTrader/backtesting/event_study/return_calculator.py:44-54 | prices in ascending date order give returns in ascending date order, each dated after the first price and no later than the last |
| ReturnCalculator.ReturnTableDates | NewsTrader/backtesting/event_study/return_calculator.py:40-54 | every return row is dated inside the range asked for |
| ReturnCalculator.WindowOfRows | NewsTrader/backtesting/event_study/return_calculator.py:123-127 | no window iff the returns are unavailable, empty or all before the event; each window row carries its own day's returns, and its drift is non-negative iff it is on or after the event |
| ReturnCalculator.WindowOfShape | NewsTrader/backtesting/event_study/return_calculator.py:94-107 | the window's trading-day drifts are consecutive and within [-w, w] |
| ReturnCalculator.WindowWithinFetchedRange | NewsTrader/backtesting/event_study/return_calculator.py:121-126 | every window date lies in event ± 7w |
| ReturnCalculator.SampleIsLastRows | NewsTrader/backtesting/event_study/return_calculator.py:145 | for positive p the estimation sample is the last p rows |
| ReturnCalculator.SampleMembers | NewsTrader/backtesting/event_study/return_calculator.py:145 | the sample holds rows of the table only, so any date bound on the table holds for it |
| ReturnCalculator.FitOfSample | NewsTrader/backtesting/event_study/return_calculator.py:141-151 | no fit iff the returns are unavailable or fewer than p; otherwise the fit of a sample of p rows |
| ReturnCalculator.SampleWithinRange | NewsTrader/backtesting/event_study/return_calculator.py:137-145 | the fitted sample is dated within [event - distance - 2p, event - distance] |
| ReturnCalculator.AbnormalRows | NewsTrader/backtesting/event_study/return_calculator.py:163-171 | the abnormal table is None iff the window or the fit is; otherwise it has one row per window row, with the same drift, date and returns, the abnormal return and the diagnostics |
| Calendar.DedupMembers | NewsTrader/backtesting/event_study/return_calculator.py:74 | `drop_duplicates(subset=['drift'], keep='first')` keeps rows of the input whose drift was not seen before |
| Calendar.DedupDrifts | NewsTrader/backtesting/event_study/return_calculator.py:74 | after deduplication no two rows share a drift |
| Calendar.DedupCovers | NewsTrader/backtesting/event_study/return_calculator.py:74 | every drift of the input not seen before keeps a row with that drift |
| Calendar.Intermediate | NewsTrader/backtesting/event_study/return_calculator.py:56-79 | the intermediate table; DedupMembers, IntermediateIsObserved, IntermediateRows and IntermediateOfAscending state what it holds |
| Calendar.IntermediateIsObserved | NewsTrader/backtesting/event_study/return_calculator.py:56-79 | the template placeholders never survive: the intermediate table is the observed rows, first per calendar drift, sorted by drift |
| Calendar.IntermediateRows | NewsTrader/backtesting/event_study/return_calculator.py:56-79 | intermediate rows are observed rows sorted by drift, and every observed calendar day is present |
| Calendar.PermutationCovers | NewsTrader/backtesting/event_study/return_calculator.py:76 | a reordering of the deduplicated observed rows still holds every return row's calendar drift |
| Calendar.IntermediateOfAscending | NewsTrader/backtesting/event_study/return_calculator.py:56-79 | on a return table strictly ascending by date, the intermediate table is the table itself with its calendar drifts |
| Calendar.ZeroPositionNone | NewsTrader/backtesting/event_study/return_calculator.py:95-97 | on slots aligned with the event, the zero position is inside the table iff some row is on or after the event |
| Calendar.FindWindow | NewsTrader/backtesting/event_study/return_calculator.py:81-107 | the event window; WindowNoneIff, WindowIsSlice, WindowShape and WindowRowsOfSlots state what it holds |
| Calendar.WindowNoneIff | NewsTrader/backtesting/event_study/return_calculator.py:95-96 | the window is None iff every observed date is before the event |
| Calendar.WindowIsSlice | NewsTrader/backtesting/event_study/return_calculator.py:97-106 | the window is the re-indexed rows from z - w to z + w, cut at the table's ends, and empty for negative w |
| Calendar.WindowShape | NewsTrader/backtesting/event_study/return_calculator.py:94-106 | drifts are consecutive, within [-w, w], at most 2w+1 of them; the window is full iff the table has w trading days on both sides of the event day |
| Calendar.WindowReturnsShape | NewsTrader/backtesting/event_study/return_calculator.py:81-107 | on a return table, the window's drifts are consecutive and within [-w, w] |
| Calendar.WindowRowsOfSlots | NewsTrader/backtesting/event_study/return_calculator.py:97-106 | on aligned slots sorted by drift, each window row is a slot's trading day and returns; its drift is non-negative iff it is on or after the event |
| Calendar.WindowRowsObserved | NewsTrader/backtesting/event_study/return_calculator.py:81-107 | each window row is an observed trading day with its own returns; its drift is non-negative iff it is on or after the event |
| Study.Check | NewsTrader/backtesting/event_study/study.py:66-87 | the pre-flight check; CheckListsEvents and ListedEventsPass state when it passes |
| Study.CheckListsEvents | NewsTrader/backtesting/event_study/study.py:77-86 | the check passes iff there is no price table or both symbols of every event are columns of it |
| Study.ListedEventsPass | NewsTrader/backtesting/event_study/study.py:79-83 | events whose symbols are all columns pass the check |
| Study.WorkerCount | NewsTrader/backtesting/event_study/study.py:114-121 | the number of workers; WorkerCountRule states it |
| Study.WorkerCountRule | NewsTrader/backtesting/event_study/study.py:115-121 | no count gives one worker; an `int` is used as given; anything else gives `cpus - 1`, but at least one |
| Study.ColumnLayout | NewsTrader/backtesting/event_study/study.py:151-168 | 3(2w+1)+4 columns for w ≥ 0; each day column's label names its day; the four diagnostics come last |
| Study.DayLabelAt | NewsTrader/backtesting/event_study/study.py:151-162 | a group has 2w+1 labels, and the one at position d + w is the prefix followed by `str(d)` |
| Study.DayLabelPrefix | NewsTrader/backtesting/event_study/study.py:151-162 | every day label starts with its group's prefix |
| Study.DayLabelsDistinct | NewsTrader/backtesting/event_study/study.py:151-162 | day labels within one group are distinct |
| Study.ColumnLabelsDistinct | NewsTrader/backtesting/event_study/study.py:163-168 | no two result columns share a label |
| Study.ResultRow | NewsTrader/backtesting/event_study/study.py:166-187 | one result row; ResultRowShape and ResultRowFields state its fields |
| Study.ResultRowShape | NewsTrader/backtesting/event_study/study.py:170-186 | a result row has one field per column, and is all None iff the window is missing or does not have 2w+1 rows |
| Study.ResultRowFields | NewsTrader/backtesting/event_study/study.py:172-182 | for a complete window, the field of day i - w holds row i's date, stock return and abnormal return; the last four fields hold the diagnostics of the row labelled 0 |
| Study.CompleteDrifts | NewsTrader/backtesting/event_study/study.py:172 | a complete window over consecutive drifts within [-w, w] has drift i - w at position i |
| Study.WindowCentre | NewsTrader/backtesting/event_study/study.py:172-182 | in a complete abnormal window row i has drift i - w, so the day columns hold those drifts and the row labelled 0 is the middle one |
| Study.SourceCovers | NewsTrader/backtesting/event_study/study.py:124-130 | the price source handed to each event holds both of its symbols |
| Study.ProjectCovers | NewsTrader/backtesting/event_study/study.py:126 | the two-column projection of the table still covers the event's symbols |
| Study.ProjectKeepsFetch | NewsTrader/backtesting/event_study/study.py:126 | fetching from the projection gives the prices the full table gives |
| Study.SameFetchSameReturns | NewsTrader/backtesting/event_study/return_calculator.py:40-54 | two calculators that fetch the same prices compute the same return table |
| Study.ProjectKeepsWindow | NewsTrader/backtesting/event_study/study.py:124-130 | an event's abnormal window on its projected columns equals the one on the whole table |
| Study.OneEventStudy | NewsTrader/backtesting/event_study/study.py:193-230 | the window of a calculator built from the event's ticker, date and index on its price source |
| Study.AssembleRows | NewsTrader/backtesting/event_study/study.py:169-187 | one result row per window, in order |
| Study.RunEvents | NewsTrader/backtesting/event_study/study.py:123-148 | result k is the abnormal window of event k on its own price source |
| Study.MultiEventStudy | NewsTrader/backtesting/event_study/study.py:89-190 | the worker count follows the rule; one output per event in input order, holding the event and the result row of its window |
| Study.EventStudy | NewsTrader/backtesting/event_study/study.py:11-63 | None iff the check fails; without a price table one worker is used; otherwise as MultiEventStudy |
| FindTicker.ParenGroupsAfter | NewsTrader/tickerfinder/find_ticker.py:101 | a one-line parenthesised group with no '(' before it is the first group found, and scanning resumes after its ')' |
| FindTicker.ParenGroupsEnclosed | NewsTrader/tickerfinder/find_ticker.py:101 | every group found by the lazy regex stood between '(' and ')' in the title and holds neither ')' nor a newline |
| FindTicker.TickerInfosShape | NewsTrader/tickerfinder/find_ticker.py:101-103 | every candidate is an upper-case, parenthesis-free group of the title |
| FindTicker.FullTickerCases | NewsTrader/tickerfinder/find_ticker.py:106-118 | `EXCH:SYM` with a known exchange gives SYM without dots plus its suffix; an unknown exchange gives nothing; a text without a colon gives itself |
| FindTicker.FullTickerRaises | NewsTrader/tickerfinder/find_ticker.py:108 | a candidate raises ValueError iff it holds two colons or more |
| FindTicker.FullTickersSpec | NewsTrader/tickerfinder/find_ticker.py:105-118 | the loop raises iff some candidate raises; otherwise a ticker is in the list iff some candidate gives it |
| FindTicker.CollectTickers | NewsTrader/tickerfinder/find_ticker.py:105-118 | the loop computes exactly the candidates' ticker list or the first exception |
| FindTicker.FindYahooTickerFromTitle | NewsTrader/tickerfinder/find_ticker.py:81-120 | the method computes the title look-up |
| FindTicker.TitleTickerRaises | NewsTrader/tickerfinder/find_ticker.py:101-120 | the title look-up raises ValueError iff some candidate holds two colons |
| FindTicker.TitleTickerNone | NewsTrader/tickerfinder/find_ticker.py:105-120 | the look-up gives None iff every candidate is `EXCH:SYM` with an unknown exchange |
| FindTicker.TitleTickerJoin | NewsTrader/tickerfinder/find_ticker.py:120 | a found ticker is the ';'-join of a non-empty, duplicate-free list holding exactly the candidates' tickers |
| FindTicker.FindYahooTickerFromHtml | NewsTrader/tickerfinder/find_ticker.py:75-78 | the page's tickers joined by ';'; HtmlMatchesShape, HtmlMatchesEmpty, HtmlTickersSpec and FindYahooTickerFromHtmlSpec state its behaviour |
| FindTicker.HtmlMatchesEmpty | NewsTrader/tickerfinder/find_ticker.py:76 | the regex finds no match iff `ticker=` does not occur in the page |
| FindTicker.HtmlMatchesShape | NewsTrader/tickerfinder/find_ticker.py:76 | every regex match begins with `ticker=` and occurs in the page |
| FindTicker.HtmlTickersSpec | NewsTrader/tickerfinder/find_ticker.py:77 | the comprehension raises IndexError iff some match has no '"'; otherwise entry i is match i's second piece with backslashes removed |
| FindTicker.FindYahooTickerFromHtmlSpec | NewsTrader/tickerfinder/find_ticker.py:75-78 | None iff the page has no match; a result never holds a backslash |
| FindTicker.FindSeekalphaTicker | NewsTrader/tickerfinder/find_ticker.py:123-126 | the Seeking Alpha symbols of a page; SeekalphaAlwaysEmpty states its result |
| FindTicker.SeekalphaAlwaysEmpty | NewsTrader/tickerfinder/find_ticker.py:123-126 | the filter requires the symbol path, which contains '/', and excludes '/', so the result is always empty |
| YahooTicker.ExchangeSuffixIndex | NewsTrader/tickerfinder/get_yahoo_ticker.py:12-38 | the (MIC, suffix, index) look-up of an ISIN; ShortIsinSpec, UnknownCountrySpec, MajorRowsSpec and KnownCountrySpec state its cases |
| YahooTicker.ShortIsinSpec | NewsTrader/tickerfinder/get_yahoo_ticker.py:14-18 | an ISIN shorter than 12 characters gets only the default index `^GSPC` |
| YahooTicker.UnknownCountrySpec | NewsTrader/tickerfinder/get_yahoo_ticker.py:19-37 | a full ISIN whose country code is not in the MIC sheet gets three Nones |
| YahooTicker.MajorRowsSpec | NewsTrader/tickerfinder/get_yahoo_ticker.py:24-25 | the major rows of a country start with its first major row, and there are none iff it has no major row |
| YahooTicker.KnownCountrySpec | NewsTrader/tickerfinder/get_yahoo_ticker.py:19-33 | a known country gives the MIC, suffix and index of the first major row of the country named by its first MIC row, or three Nones when there is none |
| YahooTicker.CutAtDotSpec | NewsTrader/tickerfinder/get_yahoo_ticker.py:56-57 | the cleaned symbol is the part before the first '.' |
| YahooTicker.GetTicker | NewsTrader/tickerfinder/get_yahoo_ticker.py:42-67 | the scan that stops at the first quote on the exchange computes the ticker |
| YahooTicker.TickerSpec | NewsTrader/tickerfinder/get_yahoo_ticker.py:42-67 | a missing cell gives None; a single quote without exchange gives its symbol unchanged; otherwise there is a ticker iff the first quote on the exchange has a symbol that is non-empty and does not start with '.', and it is that symbol's part before its first '.', plus the suffix when there is one |
| NewsFeature.TitleFromInfo | NewsTrader/newsfeature.py:80-92 | the title of a GDELT info cell; TitleFromInfoSpec, TitleFromInfoNone, FirstPageTitleFound and FirstPageTitleTagged state its behaviour |
| NewsFeature.TitleFromInfoSpec | NewsTrader/newsfeature.py:86-91 | when no newline-free tagged text opens before `title`, and `title` holds no newline and no closing tag, the title is `title` with the same words, single-spaced, and collapsing again changes nothing |
| NewsFeature.FirstMatchIs | NewsTrader/newsfeature.py:86-90 | a newline-free tagged text with no closing tag inside it, with no newline-free tagged text opening before it, is the first match |
| NewsFeature.GroupIs | NewsTrader/newsfeature.py:86 | the lazy group at an opening tag is the newline-free tagged text there that holds no closing tag |
| NewsFeature.FirstPageTitleFound | NewsTrader/newsfeature.py:86-90 | a cell holding any newline-free text between an opening and a closing tag has a first match |
| NewsFeature.FirstPageTitleTagged | NewsTrader/newsfeature.py:86-90 | a first match is newline-free and lies between an opening and a closing tag; no newline-free tagged text opens earlier, and it is the shortest newline-free tagged text at its opening tag (the lazy `.*?`) |
| NewsFeature.TitleFromInfoNone | NewsTrader/newsfeature.py:86-92 | the title is None iff the cell is missing or holds no newline-free text between an opening and a closing tag |
| NewsFeature.PossibleTitleSpec | NewsTrader/newsfeature.py:61-74 | a possible title has no '_' or '-'; its words are the kept words, and with the check on each of them is English |
| NewsFeature.ExtractTitleFromPath | NewsTrader/newsfeature.py:47-79 | the method returns the URL title of the path, which TitleFromPathNone and TitleFromPathLongest characterise |
| NewsFeature.BuildTitles | NewsTrader/newsfeature.py:64-74 | the loop over the slugs builds the possible title of each slug, in order |
| NewsFeature.SlugsEmpty | NewsTrader/newsfeature.py:56-59 | a path has no slug iff no segment holds '_' or '-' |
| NewsFeature.TitleFromPathNone | NewsTrader/newsfeature.py:54-60 | the URL title is None iff no path segment holds '_' or '-' |
| NewsFeature.TitleFromPathLongest | NewsTrader/newsfeature.py:75-78 | the URL title is the possible title of the earliest slug among those that keep the most words |
| NewsFeature.GroupByPriority | NewsTrader/newsfeature.py:203-219 | the loop over the keys computes the grouping |
| NewsFeature.GroupedMember | NewsTrader/newsfeature.py:203-219 | a match is grouped iff its field is one of the keys |
| NewsFeature.GroupedHead | NewsTrader/newsfeature.py:203-222 | the head of a grouping is the first match carrying the earliest key any match carries |
| NewsFeature.RankedSpec | NewsTrader/newsfeature.py:195-201 | the ranked candidates are in ascending similarity, at or above the threshold, and are exactly the candidates at or above it |
| NewsFeature.RankedTop | NewsTrader/newsfeature.py:230 | the last ranked candidate is the most similar acceptable one |
| NewsFeature.ChoiceNone | NewsTrader/newsfeature.py:188-232 | no choice iff no candidate reaches the threshold, or only preferred exchanges count and no acceptable candidate is on one |
| NewsFeature.ChoiceCountryTier | NewsTrader/newsfeature.py:221-222 | when an acceptable candidate is on a preferred exchange and in a preferred country, such a candidate is chosen |
| NewsFeature.ChoiceExchangeTier | NewsTrader/newsfeature.py:221-226 | when an acceptable candidate is on a preferred exchange, a candidate on a preferred exchange is chosen |
| NewsFeature.ChoiceCountryPick | NewsTrader/newsfeature.py:195-222 | the first tier picks a candidate in the earliest preferred country that has an acceptable candidate on a preferred exchange, on the earliest preferred exchange used in that country, and the LEAST similar acceptable candidate there (ascending sort, first element) |
| NewsFeature.ChoiceExchangePick | NewsTrader/newsfeature.py:195-226 | when no acceptable candidate on a preferred exchange is in a preferred country, the second tier picks the LEAST similar acceptable candidate on the earliest preferred exchange that has one; only the fallback at line 230 picks the most similar |
| NewsFeature.GroupedFilter | NewsTrader/newsfeature.py:203-219 | keeping one country of the exchange grouping equals grouping that country's candidates by exchange |
| NewsFeature.ChoiceTopTier | NewsTrader/newsfeature.py:228-230 | with no acceptable candidate on a preferred exchange and no restriction, the most similar acceptable candidate is chosen |
| NewsFeature.ChooseStock | NewsTrader/newsfeature.py:187-233 | the loop body computes the choice for one entity |
| NewsFeature.ExtractSymbol | NewsTrader/newsfeature.py:167-239 | the method returns the symbols of the entities, which SymbolsSpec characterises |
| NewsFeature.CollectChoices | NewsTrader/newsfeature.py:186-233 | the loop over the entities appends exactly the choices of the entities that have one, in entity order |
| NewsFeature.SymbolsSpec | NewsTrader/newsfeature.py:182-239 | the result holds exactly the choices of the entities that have one, at most one per entity, and is None iff there are no entities or none has a choice |
| Translator.TruncateText | NewsTrader/translator.py:10-17 | word truncation; TruncateTextWords, TruncateShortText, TruncateIdempotent and TruncateNegative state its behaviour |
| Translator.TruncateTextWords | NewsTrader/translator.py:10-17 | for a non-negative size, the result's words are the first min(size, n) words of the text |
| Translator.TruncateShortText | NewsTrader/translator.py:14-17 | a text of at most `size` words keeps all its words, single-spaced |
| Translator.TruncateIdempotent | NewsTrader/translator.py:10-17 | truncating twice to the same non-negative size is truncating once |
| Translator.TruncateNegative | NewsTrader/translator.py:15-16 | a negative size drops the last -size words, so truncating again drops more |
| Clean.Frame.constructor | clean.py:10 | the frame holds the given columns and rows |
| Clean.Frame.DropDuplicates | clean.py:18 | the rows become the first row of each value of the column, in order |
| Clean.Frame.DropNa | clean.py:20 | the rows become those whose value in the column is present |
| Clean.Frame.CollapseColumn | clean.py:28 | each text in the column is replaced by its words single-spaced; nothing else changes |
| Clean.Frame.ResetIndex | clean.py:31 | the rows are relabelled 0 … n-1 |
| Clean.CleanDf | clean.py:10-32 | a missing column raises KeyError and changes nothing; otherwise the caller's frame is deduplicated and without missing values, and a fresh frame with the cleaned rows is returned |
| Clean.DedupShape | clean.py:18 | deduplication keeps rows in order, never two with the same value, and every value of the input |
| Clean.DedupKeepsFirst | clean.py:18 | the first row of each value is the one kept |
| Clean.CleanedValues | clean.py:22-30 | every value returned is non-empty text whose words are single-spaced |
| Clean.CleanedLabels | clean.py:31 | the returned rows are labelled 0 … n-1 |
| Clean.CleanedOrder | clean.py:18-31 | apart from their labels, the returned rows are input rows in input order, each with its text collapsed |
| Clean.SurvivorsUnique | clean.py:18-26 | the kept rows hold distinct raw values, and every raw text of the input is kept at its first occurrence |
| Clean.SpacingVariantsSurvive | clean.py:18-30 | two texts differing only in spacing are both kept and come out equal |
| Clean.Max | clean.py:135 | Python's `max`: an element of the list and no smaller than any element |
| Clean.ComparedDecides | clean.py:121-135 | `len(check_news) != 0 and max(scores) >= min_similarity` holds iff some compared row is at least that similar |
| Clean.DeleteDuplicateNews | clean.py:97-138 | the loop computes exactly the rows whose labels are not on the final drop list |
| Clean.DroppedAt | clean.py:114-136 | a label is dropped after n rows iff it is below n and its row repeated a compared row when visited |
| Clean.DropListBelow | clean.py:114-136 | only labels of visited rows are on the drop list |
| Clean.KeptAbove | clean.py:121-126 | seen from row i, a row j above it is kept in the result iff it was not dropped before row i was visited |
| Clean.DroppedIff | clean.py:114-138 | a row is dropped iff a kept row above it in its look-back range is at least `min_similarity` alike |
| Clean.DeduplicatedShape | clean.py:114-138 | the first row is always kept; the result is rows of the table, unchanged and in order |
| Clean.KeptAreFresh | clean.py:114-138 | no two kept rows within each other's look-back range are `min_similarity` alike |
| Clean.NoLookBack | clean.py:117-119 | with `look_back <= 0` the table comes back whole |

## Left out

- I/O and external services are parameters or absent:
  - the Yahoo download (`_download`, price_fetcher.py:76-106) is a function from symbol and range to an optional series;
  - the SQLite price store (study.py:40-43) is an optional table;
  - the two spreadsheets read at import time (get_yahoo_ticker.py:7-8) are row lists.
- External computations are parameters:
  - `np.log`;
  - the statsmodels OLS fit;
  - `cpu_count()`;
  - the `enchant` English dictionary;
  - the cosine similarity of embeddings.
- Parsing is assumed done:
  - `urlparse` (the model starts from the URL's path);
  - `ast.literal_eval` (the model starts from the parsed list of exchange/symbol pairs).
- `run_multitasking` is modelled as a sequential map whose results keep submission order; processes and threads are not modelled.
- Not modelled, because each one is a network call, a model inference or a multiprocessing driver:
  - `get_wkn_isin` (find_ticker.py:15-72);
  - `extract_title` and `extract_symbols` (newsfeature.py:14-44, 97-164);
  - `get_embedding` and `get_stock_info`;
  - `translate` (translator.py:20-37);
  - `add_embedding` and `drop_duplicate_news` (clean.py:35-94).
- ReturnCalculator.Growth: in simple mode the model drops every row whose lag price is zero, which pandas does not do. A non-zero price over a zero lag gives ±inf, and pandas keeps that row, because `dropna` (return_calculator.py:52) removes only the NaN of 0/0. The model has no infinite values, so it does not reproduce the ±inf rows.
- Study.Check: `if not data_df` (study.py:77 and 124) raises on a real DataFrame, because its truth value is ambiguous. The model follows the evident intent, "no table".
- Study.Project: line 126 reads `event["ticker"]` rather than `event[ticker_column]`. The model uses the ticker column.
- Study.MultiEventStudy: requires the check to have passed, as its only caller guarantees. The model does not represent an unlisted symbol's KeyError there.
- Study.MultiEventStudy: pairs event k with result k by position. study.py:189 merges on the index labels, so the two agree only when the events are labelled 0 … n-1; frames with other labels are not modelled.
- ReturnCalculator.LogReturnsCount: holds in the source only when every price is positive. `np.log` of a zero or negative price gives -inf or NaN, and `dropna` (return_calculator.py:52) drops the NaN rows, while the model's logarithm is a total parameter.
- Study.ResultRowFields: the diagnostics come from the row with drift label 0. This is the middle row of a complete window (Study.WindowCentre).
- FindTicker.TitleTickerJoin: a Python `set` is joined in no fixed order. The model lists each ticker at its first occurrence and states that the list is duplicate-free and holds exactly the found tickers.
- FindTicker.IsUpper: `str.isupper()` is modelled on ASCII letters only.
- NewsFeature.RankedSpec: states order, threshold and membership of the ranked list. That the list is a permutation of the acceptable candidates is proved for the sort (Sorting.SortByStable) but not restated there.
- Translator.TruncateText: `int(size)` is taken as already applied, so `size` is an integer.
- Clean.Cell: a non-text, non-missing cell is known only by its printed form. Two such cells are duplicates when those forms agree.
- Clean.CleanDf: pandas' chained-assignment warnings and copy semantics are not modelled. The caller's frame sees the two in-place steps; the later steps build new frames.
- Clean.DeleteDuplicateNews: dates are whole day numbers. The look-back test is exact day equality with one of `end, end-1, …`, as `in date_range` is for normalised timestamps. The lemmas about which rows are dropped assume the labels are `0 … n-1`, which holds for the frames `drop_duplicate_news` builds with `reset_index(drop=True)`.
- Dates everywhere are normalised calendar days; time of day and time zones are not modelled.

## Findings

| source | as written | input that shows it | evidently intended | confidence | as-written member | corrected member |
|---|---|---|---|---|---|---|
| NewsTrader/backtesting/event_study/price_fetcher.py:63 | `price_df.iloc[0]` is read before checking that the merged table has any row | a local price table with the right columns but no rows (or two series with no common date) | an empty join gives an empty price table, which the callers already treat as "no returns" | not executed | PriceFetcher.EmptyTableRaises | PriceFetcher.FetchSpec |
