/** News features: a title from the GKG info column or from an article URL, and the choice
    of one listed stock per recognised company name. The English dictionary and the
    embedding similarity are inputs. */
module NewsFeature {
  import opened Wrappers
  import opened Text
  import opened Seqs
  import opened Sorting

  // ---------------------------------------------------------------------------------------
  // _extract_title_from_info
  // ---------------------------------------------------------------------------------------

  const OpenTag: string := "<PAGE_TITLE>"
  const CloseTag: string := "</PAGE_TITLE>"

  /** Where the lazy `(.*?)</PAGE_TITLE>` stops in `t`: the first closing tag, unless a
      newline (which `.` does not match) comes first. */
  function CloseTagAt(t: string): (k: Option<nat>)
    ensures k.Some? ==> k.value + |CloseTag| <= |t| && t[k.value..k.value + |CloseTag|] == CloseTag
    ensures k.Some? ==> '\n' !in t[..k.value]
  {
    if CloseTag <= t then Some(0)
    else if t == [] || t[0] == '\n' then None
    else match CloseTagAt(t[1..])
      case None => None
      case Some(k) =>
        assert t[1..][..k] == t[1..k + 1];
        Some(k + 1)
  }

  /** The lazy match stops no later than any closing tag with no newline before it. */
  lemma {:induction false} CloseTagAtBefore(t: string, k: nat)
    requires OccursAt(t, k, CloseTag) && '\n' !in t[..k]
    ensures CloseTagAt(t).Some? && CloseTagAt(t).value <= k
    decreases k
  {
    if k == 0 {
      assert t[..|CloseTag|] == CloseTag;
    } else if !(CloseTag <= t) {
      assert t[0] == t[..k][0];
      assert t[1..][k - 1..k - 1 + |CloseTag|] == t[k..k + |CloseTag|];
      assert t[1..][..k - 1] == t[..k][1..];
      CloseTagAtBefore(t[1..], k - 1);
    }
  }

  /** A match of `<PAGE_TITLE>(.*?)</PAGE_TITLE>` starts at `i`: an opening tag there, and
      a closing tag after it with no newline in between. */
  predicate MatchAt(s: string, i: int) {
    0 <= i <= |s| && OpenTag <= s[i..] && CloseTagAt(s[i + |OpenTag|..]).Some?
  }

  /** The group of the match at `i`: the text up to the first closing tag. */
  function Group(s: string, i: int): string
    requires MatchAt(s, i)
  {
    s[i + |OpenTag|..i + |OpenTag| + CloseTagAt(s[i + |OpenTag|..]).value]
  }

  /** The group of the first match at or after position `i`. */
  function FirstPageTitleFrom(s: string, i: nat): Option<string>
    decreases |s| - i
  {
    if i >= |s| then None
    else if MatchAt(s, i) then Some(Group(s, i))
    else FirstPageTitleFrom(s, i + 1)
  }

  /** `re.findall(pattern, s)[0]` when there is a match: the group of the first match. */
  function FirstPageTitle(s: string): Option<string> {
    FirstPageTitleFrom(s, 0)
  }

  /** `_extract_title_from_info`: the first page title, whitespace-collapsed; None when the
      cell is missing or holds no title. */
  function TitleFromInfo(extra: Option<string>): Option<string> {
    if extra.None? then None
    else match FirstPageTitle(extra.value)
      case None => None
      case Some(t) => Some(Collapse(t))
  }

  /** A match at or after `i` is found. */
  lemma {:induction false} FirstFromFound(s: string, i: nat, j: int)
    requires i <= j && MatchAt(s, j)
    ensures FirstPageTitleFrom(s, i).Some?
    decreases |s| - i
  {
    if !MatchAt(s, i) {
      FirstFromFound(s, i + 1, j);
    }
  }

  /** What is found at or after `i` is the group of the first match there. */
  lemma {:induction false} FirstFromEarliest(s: string, i: nat) returns (j: int)
    requires FirstPageTitleFrom(s, i).Some?
    ensures i <= j && MatchAt(s, j) && FirstPageTitleFrom(s, i).value == Group(s, j)
    ensures forall m :: i <= m < j ==> !MatchAt(s, m)
    decreases |s| - i
  {
    if MatchAt(s, i) {
      j := i;
    } else {
      assert FirstPageTitleFrom(s, i) == FirstPageTitleFrom(s, i + 1);
      j := FirstFromEarliest(s, i + 1);
      forall m | i <= m < j
        ensures !MatchAt(s, m)
      {
        if m != i {
          assert i + 1 <= m < j;
        }
      }
    }
  }

  /** `s` holds `t` between an opening tag at `i` and a closing tag right after it. */
  predicate TaggedAt(s: string, i: int, t: string) {
    0 <= i && i + |OpenTag| + |t| + |CloseTag| <= |s| &&
    s[i..i + |OpenTag|] == OpenTag &&
    s[i + |OpenTag|..i + |OpenTag| + |t|] == t &&
    s[i + |OpenTag| + |t|..i + |OpenTag| + |t| + |CloseTag|] == CloseTag
  }

  /** A newline-free text between tags makes a match at its opening tag, whose group is no
      longer than that text. */
  lemma TaggedMatch(s: string, i: int, t: string)
    requires TaggedAt(s, i, t)
    ensures '\n' !in t ==> MatchAt(s, i) && |Group(s, i)| <= |t|
  {
    if '\n' !in t {
      var u := s[i + |OpenTag|..];
      assert s[i..][..|OpenTag|] == s[i..i + |OpenTag|];
      assert u[..|t|] == t;
      assert u[|t|..|t| + |CloseTag|] == s[i + |OpenTag| + |t|..i + |OpenTag| + |t| + |CloseTag|];
      CloseTagAtBefore(u, |t|);
    }
  }

  /** The group of a match is a newline-free text between an opening and a closing tag. */
  lemma MatchTagged(s: string, i: int)
    ensures MatchAt(s, i) ==> TaggedAt(s, i, Group(s, i)) && '\n' !in Group(s, i)
  {
    if MatchAt(s, i) {
      var u := s[i + |OpenTag|..];
      var k := CloseTagAt(u).value;
      assert Group(s, i) == u[..k];
      assert s[i..i + |OpenTag|] == s[i..][..|OpenTag|];
      assert s[i + |OpenTag| + k..i + |OpenTag| + k + |CloseTag|] == u[k..k + |CloseTag|];
    }
  }

  /** A cell holding a newline-free text between an opening and a closing tag has a title. */
  lemma FirstPageTitleFound(s: string, i: int, t: string)
    requires TaggedAt(s, i, t) && '\n' !in t
    ensures FirstPageTitle(s).Some?
  {
    TaggedMatch(s, i, t);
    FirstFromFound(s, 0, i);
  }

  /** The title found is a newline-free text between an opening and a closing tag of the
      cell; no such text has its opening tag earlier, and none with the same opening tag is
      shorter (the match is lazy). */
  lemma FirstPageTitleTagged(s: string)
    requires FirstPageTitle(s).Some?
    ensures '\n' !in FirstPageTitle(s).value
    ensures exists i ::
              && TaggedAt(s, i, FirstPageTitle(s).value)
              && (forall j, t :: 0 <= j < i && TaggedAt(s, j, t) ==> '\n' in t)
              && (forall t :: TaggedAt(s, i, t) && '\n' !in t ==> |FirstPageTitle(s).value| <= |t|)
  {
    var i := FirstFromEarliest(s, 0);
    MatchTagged(s, i);
    forall j, t | 0 <= j < i && TaggedAt(s, j, t)
      ensures '\n' in t
    {
      TaggedMatch(s, j, t);
    }
    forall t | TaggedAt(s, i, t) && '\n' !in t
      ensures |FirstPageTitle(s).value| <= |t|
    {
      TaggedMatch(s, i, t);
    }
  }

  /** The info title is None iff the cell is missing or holds no newline-free text between
      an opening and a closing tag. */
  lemma TitleFromInfoNone(extra: Option<string>)
    ensures extra.Some? && (exists i, t :: TaggedAt(extra.value, i, t) && '\n' !in t) ==>
      TitleFromInfo(extra).Some?
    ensures TitleFromInfo(extra).Some? ==>
      extra.Some? && exists i, t :: TaggedAt(extra.value, i, t) && '\n' !in t
  {
    if extra.Some? {
      if exists i, t :: TaggedAt(extra.value, i, t) && '\n' !in t {
        var i, t :| TaggedAt(extra.value, i, t) && '\n' !in t;
        FirstPageTitleFound(extra.value, i, t);
      }
      if FirstPageTitle(extra.value).Some? {
        FirstPageTitleTagged(extra.value);
      }
    }
  }

  /** A tagged text without newline and without a closing tag is the group of the match
      at its opening tag. */
  lemma GroupIs(s: string, i: int, t: string)
    requires TaggedAt(s, i, t) && '\n' !in t
    requires forall k :: i + |OpenTag| <= k < i + |OpenTag| + |t| ==> !OccursAt(s, k, CloseTag)
    ensures MatchAt(s, i) && Group(s, i) == t
  {
    var u := s[i + |OpenTag|..];
    TaggedMatch(s, i, t);
    var k := CloseTagAt(u).value;
    assert OccursAt(u, k, CloseTag);
    assert u[k..k + |CloseTag|] == s[i + |OpenTag| + k..i + |OpenTag| + k + |CloseTag|];
    assert OccursAt(s, i + |OpenTag| + k, CloseTag);
    assert k == |t|;
    assert Group(s, i) == s[i + |OpenTag|..i + |OpenTag| + |t|];
  }

  /** No newline-free tagged text has its opening tag before `i`. */
  ghost predicate NoTitleBefore(s: string, i: int) {
    forall j, t :: 0 <= j < i && TaggedAt(s, j, t) ==> '\n' in t
  }

  /** No closing tag starts inside `t`, even one that runs on into a closing tag after it. */
  predicate NoCloseTagIn(t: string) {
    forall k :: 0 <= k < |t| ==> !OccursAt(t + CloseTag, k, CloseTag)
  }

  /** The title is the tagged text `t` at `i` when `t` holds no newline and no closing tag,
      and no newline-free tagged text has its opening tag before `i`. */
  lemma FirstMatchIs(s: string, i: int, t: string)
    requires TaggedAt(s, i, t) && '\n' !in t
    requires forall k :: i + |OpenTag| <= k < i + |OpenTag| + |t| ==> !OccursAt(s, k, CloseTag)
    requires NoTitleBefore(s, i)
    ensures FirstPageTitle(s) == Some(t)
  {
    GroupIs(s, i, t);
    forall m | 0 <= m < i
      ensures !MatchAt(s, m)
    {
      MatchTagged(s, m);
    }
    FirstFromFound(s, 0, i);
    var j := FirstFromEarliest(s, 0);
  }

  /** A cell whose first newline-free tagged text is `title`, which holds no closing tag,
      gives `title` collapsed: the same words, single-spaced, and collapsing again changes
      nothing. */
  lemma TitleFromInfoSpec(before: string, title: string, after: string)
    requires NoTitleBefore(before + OpenTag + title + CloseTag + after, |before|)
    requires '\n' !in title
    requires NoCloseTagIn(title)
    ensures TitleFromInfo(Some(before + OpenTag + title + CloseTag + after)) == Some(Collapse(title))
    ensures Words(Collapse(title)) == Words(title) && Collapse(Collapse(title)) == Collapse(title)
  {
    CellTitle(before, title, after);
    CollapseIdempotent(title);
  }

  /** The title found in such a cell is `title` itself. */
  lemma CellTitle(before: string, title: string, after: string)
    requires NoTitleBefore(before + OpenTag + title + CloseTag + after, |before|)
    requires '\n' !in title
    requires NoCloseTagIn(title)
    ensures FirstPageTitle(before + OpenTag + title + CloseTag + after) == Some(title)
  {
    TaggedInCell(before, title, after);
    NoCloseInCell(before, title, after);
    FirstMatchIs(before + OpenTag + title + CloseTag + after, |before|, title);
  }

  lemma TaggedInCell(before: string, title: string, after: string)
    ensures TaggedAt(before + OpenTag + title + CloseTag + after, |before|, title)
  {
    var s := before + OpenTag + title + CloseTag + after;
    var i := |before|;
    assert s[i..i + |OpenTag|] == OpenTag;
    assert s[i + |OpenTag|..i + |OpenTag| + |title|] == title;
    assert s[i + |OpenTag| + |title|..i + |OpenTag| + |title| + |CloseTag|] == CloseTag;
  }

  lemma NoCloseInCell(before: string, title: string, after: string)
    requires NoCloseTagIn(title)
    ensures var i := |before| + |OpenTag|;
            forall k :: i <= k < i + |title| ==> !OccursAt(before + OpenTag + title + CloseTag + after, k, CloseTag)
  {
    var s := before + OpenTag + title + CloseTag + after;
    var i := |before| + |OpenTag|;
    var u := title + CloseTag;
    assert s[i..i + |u|] == u;
    forall k | i <= k < i + |title|
      ensures !OccursAt(s, k, CloseTag)
    {
      var m := k - i;
      assert s[k..k + |CloseTag|] == u[m..m + |CloseTag|];
      assert !OccursAt(u, m, CloseTag);
    }
  }

  // ---------------------------------------------------------------------------------------
  // _extract_title_from_url
  // ---------------------------------------------------------------------------------------

  /** A path segment that looks like a slug: it holds '_' or '-'. */
  predicate Slug(segment: string) {
    '_' in segment || '-' in segment
  }

  /** The slugs of a URL path, in path order. */
  function Slugs(path: string): seq<string> {
    Filter(SplitOn(path, '/'), Slug)
  }

  /** `element.replace("_", " ").replace("-", " ")`. */
  function Unslug(segment: string): string {
    ReplaceChar(ReplaceChar(segment, '_', " "), '-', " ")
  }

  /** The words of one slug kept for the title: all of them, or only the dictionary's
      English words. */
  function TitleWords(segment: string, checkEnglish: bool, isEnglish: string -> bool): seq<string> {
    if checkEnglish then Filter(Words(Unslug(segment)), isEnglish) else Words(Unslug(segment))
  }

  /** The possible title one slug gives. */
  function PossibleTitle(segment: string, checkEnglish: bool, isEnglish: string -> bool): string {
    Join(TitleWords(segment, checkEnglish, isEnglish), " ")
  }

  /** A possible title consists of the kept words, single-spaced: it has no '_' or '-', its
      words are the kept words, and, with the check on, each of them is English. */
  lemma PossibleTitleSpec(segment: string, checkEnglish: bool, isEnglish: string -> bool)
    ensures Words(PossibleTitle(segment, checkEnglish, isEnglish)) == TitleWords(segment, checkEnglish, isEnglish)
    ensures '_' !in PossibleTitle(segment, checkEnglish, isEnglish)
    ensures '-' !in PossibleTitle(segment, checkEnglish, isEnglish)
    ensures checkEnglish ==> forall w :: w in Words(PossibleTitle(segment, checkEnglish, isEnglish)) ==> isEnglish(w)
  {
    var plain := Unslug(segment);
    var ws := TitleWords(segment, checkEnglish, isEnglish);
    assert '_' !in plain by {
      ReplaceKeepsAbsent(ReplaceChar(segment, '_', " "), '-', " ", '_');
    }
    WordsAvoid(plain, '_');
    WordsAvoid(plain, '-');
    forall k | 0 <= k < |ws|
      ensures ws[k] in Words(plain)
    {
      if checkEnglish {
        FilterMember(Words(plain), isEnglish, ws[k]);
      }
    }
    WordsOfJoin(ws);
    JoinAvoids(ws, " ", '_');
    JoinAvoids(ws, " ", '-');
    if checkEnglish {
      forall w | w in ws
        ensures isEnglish(w)
      {
        FilterMember(Words(plain), isEnglish, w);
      }
    }
  }

  /** The position of the first largest count: `counts.index(max(counts))`. */
  function FirstMax(counts: seq<nat>): (i: nat)
    requires counts != []
    ensures i < |counts|
    ensures forall j :: 0 <= j < |counts| ==> counts[j] <= counts[i]
    ensures forall j :: 0 <= j < i ==> counts[j] < counts[i]
  {
    if |counts| == 1 then 0 else
      var r := FirstMax(counts[1..]);
      if counts[0] >= counts[1..][r] then 0 else r + 1
  }

  function WordCounts(titles: seq<string>): seq<nat> {
    seq(|titles|, i requires 0 <= i < |titles| => |Words(titles[i])|)
  }

  /** The possible titles of a list of slugs, in order. */
  function PossibleTitles(slugs: seq<string>, checkEnglish: bool, isEnglish: string -> bool): seq<string> {
    seq(|slugs|, i requires 0 <= i < |slugs| => PossibleTitle(slugs[i], checkEnglish, isEnglish))
  }

  /** `_extract_title_from_url` on the URL's path. */
  function TitleFromPath(path: string, checkEnglish: bool, isEnglish: string -> bool): Option<string> {
    var slugs := Slugs(path);
    if |slugs| == 0 then None
    else
      var titles := PossibleTitles(slugs, checkEnglish, isEnglish);
      Some(titles[FirstMax(WordCounts(titles))])
  }

  /** `_extract_title_from_url` on the URL's path: the possible titles of the slugs, then the
      choice of the longest. */
  method ExtractTitleFromPath(path: string, checkEnglish: bool, isEnglish: string -> bool)
    returns (title: Option<string>)
    ensures title == TitleFromPath(path, checkEnglish, isEnglish)
  {
    var slugs := Slugs(path);
    if |slugs| == 0 {
      return None;
    }
    var titles := BuildTitles(slugs, checkEnglish, isEnglish);
    title := Some(titles[FirstMax(WordCounts(titles))]);
  }

  /** The `for` loop of `_extract_title_from_url` that builds the possible titles. */
  method BuildTitles(slugs: seq<string>, checkEnglish: bool, isEnglish: string -> bool)
    returns (titles: seq<string>)
    ensures titles == PossibleTitles(slugs, checkEnglish, isEnglish)
  {
    titles := [];
    var k := 0;
    while k < |slugs|
      invariant 0 <= k <= |slugs| && |titles| == k
      invariant forall j :: 0 <= j < k ==> titles[j] == PossibleTitle(slugs[j], checkEnglish, isEnglish)
    {
      titles := titles + [PossibleTitle(slugs[k], checkEnglish, isEnglish)];
      k := k + 1;
    }
  }

  /** A path has no slug iff none of its segments holds '_' or '-'. */
  lemma SlugsEmpty(path: string)
    ensures Slugs(path) == [] ==> forall k :: 0 <= k < |SplitOn(path, '/')| ==> !Slug(SplitOn(path, '/')[k])
    ensures (forall k :: 0 <= k < |SplitOn(path, '/')| ==> !Slug(SplitOn(path, '/')[k])) ==> Slugs(path) == []
  {
    var segments := SplitOn(path, '/');
    if Slugs(path) == [] {
      forall k | 0 <= k < |segments|
        ensures !Slug(segments[k])
      {
        FilterMember(segments, Slug, segments[k]);
      }
    } else {
      FilterMember(segments, Slug, Slugs(path)[0]);
      var k :| 0 <= k < |segments| && segments[k] == Slugs(path)[0];
      assert Slug(segments[k]);
    }
  }

  /** The URL title is None iff no path segment holds '_' or '-'. */
  lemma TitleFromPathNone(path: string, checkEnglish: bool, isEnglish: string -> bool)
    ensures TitleFromPath(path, checkEnglish, isEnglish).None? ==>
      forall k :: 0 <= k < |SplitOn(path, '/')| ==> !Slug(SplitOn(path, '/')[k])
    ensures (forall k :: 0 <= k < |SplitOn(path, '/')| ==> !Slug(SplitOn(path, '/')[k])) ==>
      TitleFromPath(path, checkEnglish, isEnglish).None?
  {
    SlugsEmpty(path);
    assert TitleFromPath(path, checkEnglish, isEnglish).None? <==> Slugs(path) == [];
  }

  /** The number of words kept from each slug. */
  function KeptCounts(slugs: seq<string>, checkEnglish: bool, isEnglish: string -> bool): seq<nat> {
    seq(|slugs|, i requires 0 <= i < |slugs| => |TitleWords(slugs[i], checkEnglish, isEnglish)|)
  }

  /** Counting the words of the possible titles counts the kept words. */
  lemma WordCountsKept(slugs: seq<string>, checkEnglish: bool, isEnglish: string -> bool)
    ensures WordCounts(PossibleTitles(slugs, checkEnglish, isEnglish)) == KeptCounts(slugs, checkEnglish, isEnglish)
  {
    var titles := PossibleTitles(slugs, checkEnglish, isEnglish);
    forall j | 0 <= j < |slugs|
      ensures |Words(titles[j])| == |TitleWords(slugs[j], checkEnglish, isEnglish)|
    {
      PossibleTitleSpec(slugs[j], checkEnglish, isEnglish);
    }
  }

  /** A URL title is the possible title of the earliest slug among those keeping the most
      words. */
  lemma TitleFromPathLongest(path: string, checkEnglish: bool, isEnglish: string -> bool)
    requires TitleFromPath(path, checkEnglish, isEnglish).Some?
    ensures exists i ::
      0 <= i < |Slugs(path)| &&
      TitleFromPath(path, checkEnglish, isEnglish).value == PossibleTitle(Slugs(path)[i], checkEnglish, isEnglish) &&
      (forall j :: 0 <= j < |Slugs(path)| ==>
         KeptCounts(Slugs(path), checkEnglish, isEnglish)[j] <= KeptCounts(Slugs(path), checkEnglish, isEnglish)[i]) &&
      (forall j :: 0 <= j < i ==>
         KeptCounts(Slugs(path), checkEnglish, isEnglish)[j] < KeptCounts(Slugs(path), checkEnglish, isEnglish)[i])
  {
    var slugs := Slugs(path);
    WordCountsKept(slugs, checkEnglish, isEnglish);
    var i := FirstMax(KeptCounts(slugs, checkEnglish, isEnglish));
    assert TitleFromPath(path, checkEnglish, isEnglish).value == PossibleTitles(slugs, checkEnglish, isEnglish)[i];
  }

  // ---------------------------------------------------------------------------------------
  // _extract_symbol
  // ---------------------------------------------------------------------------------------

  /** A row of the stock table. */
  datatype Stock = Stock(longName: string, exchange: string, country: string, symbol: string)

  /** A stock whose long name contains a recognised company name, with the cosine
      similarity (1 − distance) of the two embeddings. */
  datatype Match = Match(stock: Stock, score: real)

  /** `result[["long_name", "symbol"]]`. */
  datatype Pick = Pick(longName: string, symbol: string)

  function PickOf(m: Match): Pick {
    Pick(m.stock.longName, m.stock.symbol)
  }

  function Score(m: Match): real { m.score }
  function Exchange(m: Match): string { m.stock.exchange }
  function Country(m: Match): string { m.stock.country }

  function AtLeast(minSimilarity: real): Match -> bool {
    (m: Match) => m.score >= minSimilarity
  }

  function Keyed(field: Match -> string, key: string): Match -> bool {
    (m: Match) => field(m) == key
  }

  /** The candidates sorted by ascending similarity (stably), keeping those at or above the
      threshold. */
  function Ranked(candidates: seq<Match>, minSimilarity: real): seq<Match> {
    Filter(SortBy(candidates, Score), AtLeast(minSimilarity))
  }

  /** The matches whose field equals the first key, then those equal to the second, and so
      on: the loops over the preferred exchanges and the preferred countries. */
  function Grouped(matches: seq<Match>, keys: seq<string>, field: Match -> string): seq<Match> {
    if keys == [] then [] else
      Grouped(matches, keys[..|keys| - 1], field) + Filter(matches, Keyed(field, keys[|keys| - 1]))
  }

  method GroupByPriority(matches: seq<Match>, keys: seq<string>, field: Match -> string)
    returns (out: seq<Match>)
    ensures out == Grouped(matches, keys, field)
  {
    out := [];
    var k := 0;
    while k < |keys|
      invariant 0 <= k <= |keys|
      invariant out == Grouped(matches, keys[..k], field)
    {
      assert keys[..k + 1][..k] == keys[..k];
      out := out + Filter(matches, Keyed(field, keys[k]));
      k := k + 1;
    }
    assert keys[..k] == keys;
  }

  /** A match is grouped iff its field is one of the keys. */
  lemma {:induction false} GroupedMember(matches: seq<Match>, keys: seq<string>, field: Match -> string, x: Match)
    ensures x in Grouped(matches, keys, field) <==> x in matches && field(x) in keys
  {
    if keys != [] {
      var init, last := keys[..|keys| - 1], keys[|keys| - 1];
      GroupedMember(matches, init, field, x);
      FilterMember(matches, Keyed(field, last), x);
      assert keys == init + [last];
    }
  }

  /** A grouping is empty iff no match carries any of the keys. */
  lemma {:induction false} GroupedEmpty(matches: seq<Match>, keys: seq<string>, field: Match -> string)
    ensures Grouped(matches, keys, field) == [] <==>
      forall q :: 0 <= q < |keys| ==> Filter(matches, Keyed(field, keys[q])) == []
  {
    if keys != [] {
      var init := keys[..|keys| - 1];
      GroupedEmpty(matches, init, field);
      assert forall q :: 0 <= q < |init| ==> init[q] == keys[q];
    }
  }

  /** `keys[p]` is the earliest key that some match carries. */
  predicate EarliestKey(matches: seq<Match>, keys: seq<string>, field: Match -> string, p: int) {
    0 <= p < |keys| && Filter(matches, Keyed(field, keys[p])) != [] &&
    forall q :: 0 <= q < p ==> Filter(matches, Keyed(field, keys[q])) == []
  }

  /** No match carries a key before the earliest one. */
  lemma EarliestKeyFirst(matches: seq<Match>, keys: seq<string>, field: Match -> string, p: int, x: Match)
    requires EarliestKey(matches, keys, field, p) && x in matches
    ensures field(x) !in keys[..p]
  {
    forall r | 0 <= r < p
      ensures field(x) != keys[r]
    {
      FilterMember(matches, Keyed(field, keys[r]), x);
    }
  }

  /** The head of a grouping is the first match carrying the earliest key that any match
      carries. */
  lemma {:induction false} GroupedHead(matches: seq<Match>, keys: seq<string>, field: Match -> string)
    requires Grouped(matches, keys, field) != []
    ensures exists p ::
      EarliestKey(matches, keys, field, p) &&
      Grouped(matches, keys, field)[0] == Filter(matches, Keyed(field, keys[p]))[0]
  {
    var init, last := keys[..|keys| - 1], keys[|keys| - 1];
    var before := Grouped(matches, init, field);
    if before != [] {
      GroupedHead(matches, init, field);
      var p :| EarliestKey(matches, init, field, p) && before[0] == Filter(matches, Keyed(field, init[p]))[0];
      assert forall q :: 0 <= q <= p ==> init[q] == keys[q];
      assert EarliestKey(matches, keys, field, p);
    } else {
      GroupedEmpty(matches, init, field);
      assert forall q :: 0 <= q < |init| ==> init[q] == keys[q];
      assert EarliestKey(matches, keys, field, |keys| - 1);
      assert Grouped(matches, keys, field) == before + Filter(matches, Keyed(field, last));
    }
  }

  /** Keeping the matches that satisfy `p` commutes with grouping them. */
  lemma {:induction false} GroupedFilter(matches: seq<Match>, keys: seq<string>, field: Match -> string,
                                         p: Match -> bool)
    ensures Filter(Grouped(matches, keys, field), p) == Grouped(Filter(matches, p), keys, field)
  {
    if keys != [] {
      var init, last := keys[..|keys| - 1], keys[|keys| - 1];
      GroupedFilter(matches, init, field, p);
      FilterConcat(Grouped(matches, init, field), Filter(matches, Keyed(field, last)), p);
      FilterCommute(matches, Keyed(field, last), p);
    }
  }

  /** The head of a grouping of matches in ascending similarity carries `keys[q]`, the
      earliest key any match carries, and is the least similar match carrying it. */
  lemma GroupedHeadLeast(matches: seq<Match>, keys: seq<string>, field: Match -> string) returns (q: int)
    requires SortedBy(matches, Score) && Grouped(matches, keys, field) != []
    ensures 0 <= q < |keys|
    ensures Grouped(matches, keys, field)[0] in matches && field(Grouped(matches, keys, field)[0]) == keys[q]
    ensures forall x :: x in matches ==> field(x) !in keys[..q]
    ensures forall x :: x in matches && field(x) == keys[q] ==> Grouped(matches, keys, field)[0].score <= x.score
  {
    q := EarliestGroup(matches, keys, field);
    var group := Filter(matches, Keyed(field, keys[q]));
    FilterSorted(matches, Keyed(field, keys[q]));
    FilterMember(matches, Keyed(field, keys[q]), group[0]);
    forall x | x in matches && field(x) == keys[q]
      ensures group[0].score <= x.score
    {
      FilterMember(matches, Keyed(field, keys[q]), x);
      var i :| 0 <= i < |group| && group[i] == x;
      if i > 0 {
        assert Score(group[0]) <= Score(group[i]);
      }
    }
  }

  /** Filtering a sorted list keeps it sorted. */
  lemma {:induction false} FilterSorted(s: seq<Match>, p: Match -> bool)
    requires SortedBy(s, Score)
    ensures SortedBy(Filter(s, p), Score)
  {
    if s != [] {
      SortedTail(s, Score);
      FilterSorted(s[1..], p);
      if p(s[0]) {
        forall k | 0 <= k < |Filter(s[1..], p)|
          ensures Score(s[0]) <= Score(Filter(s[1..], p)[k])
        {
          FilterMember(s[1..], p, Filter(s[1..], p)[k]);
        }
        ConsSorted(s[0], Filter(s[1..], p), Score);
      }
    }
  }

  /** The ranked candidates are in ascending similarity, at or above the threshold, and
      they are exactly the candidates at or above it. */
  lemma RankedSpec(candidates: seq<Match>, minSimilarity: real)
    ensures SortedBy(Ranked(candidates, minSimilarity), Score)
    ensures forall m :: m in Ranked(candidates, minSimilarity) <==> m in candidates && m.score >= minSimilarity
  {
    var sorted := SortBy(candidates, Score);
    FilterSorted(sorted, AtLeast(minSimilarity));
    forall m
      ensures m in Ranked(candidates, minSimilarity) <==> m in candidates && m.score >= minSimilarity
    {
      FilterMember(sorted, AtLeast(minSimilarity), m);
      assert m in sorted <==> m in multiset(sorted);
    }
  }

  /** The ranked candidates on a preferred exchange, grouped by exchange priority. */
  function ByExchange(candidates: seq<Match>, minSimilarity: real, exchanges: seq<string>): seq<Match> {
    Grouped(Ranked(candidates, minSimilarity), exchanges, Exchange)
  }

  /** Those of them in a preferred country, grouped by country priority. */
  function ByCountry(candidates: seq<Match>, minSimilarity: real, exchanges: seq<string>,
                     countries: seq<string>): seq<Match>
  {
    Grouped(ByExchange(candidates, minSimilarity, exchanges), countries, Country)
  }

  /** The stock chosen for one company name. */
  function Choice(candidates: seq<Match>, minSimilarity: real, exchanges: seq<string>,
                  countries: seq<string>, onlyPreferred: bool): Option<Pick>
  {
    var ranked := Ranked(candidates, minSimilarity);
    var byExchange := ByExchange(candidates, minSimilarity, exchanges);
    var byCountry := ByCountry(candidates, minSimilarity, exchanges, countries);
    if ranked == [] then None
    else if byCountry != [] then Some(PickOf(byCountry[0]))
    else if byExchange != [] then Some(PickOf(byExchange[0]))
    else if !onlyPreferred then Some(PickOf(ranked[|ranked| - 1]))
    else None
  }

  /** A candidate at or above the threshold. */
  predicate Acceptable(m: Match, minSimilarity: real, candidates: seq<Match>) {
    m in candidates && m.score >= minSimilarity
  }

  /** An acceptable candidate listed on a preferred exchange. */
  predicate OnPreferred(m: Match, minSimilarity: real, candidates: seq<Match>, exchanges: seq<string>) {
    Acceptable(m, minSimilarity, candidates) && m.stock.exchange in exchanges
  }

  /** Membership in the two groupings. */
  lemma TierMembers(candidates: seq<Match>, minSimilarity: real, exchanges: seq<string>, countries: seq<string>)
    ensures forall m :: m in Ranked(candidates, minSimilarity) <==> Acceptable(m, minSimilarity, candidates)
    ensures forall m :: m in ByExchange(candidates, minSimilarity, exchanges) <==>
      OnPreferred(m, minSimilarity, candidates, exchanges)
    ensures forall m :: m in ByCountry(candidates, minSimilarity, exchanges, countries) <==>
      OnPreferred(m, minSimilarity, candidates, exchanges) && m.stock.country in countries
  {
    RankedSpec(candidates, minSimilarity);
    forall m
      ensures m in ByExchange(candidates, minSimilarity, exchanges) <==> OnPreferred(m, minSimilarity, candidates, exchanges)
      ensures m in ByCountry(candidates, minSimilarity, exchanges, countries) <==>
        OnPreferred(m, minSimilarity, candidates, exchanges) && m.stock.country in countries
    {
      GroupedMember(Ranked(candidates, minSimilarity), exchanges, Exchange, m);
      GroupedMember(ByExchange(candidates, minSimilarity, exchanges), countries, Country, m);
    }
  }

  /** No choice iff no candidate reaches the threshold, or only preferred exchanges are
      allowed and no acceptable candidate is on one. */
  lemma ChoiceNone(candidates: seq<Match>, minSimilarity: real, exchanges: seq<string>,
                   countries: seq<string>, onlyPreferred: bool)
    ensures Choice(candidates, minSimilarity, exchanges, countries, onlyPreferred).None? <==>
      (forall m :: !Acceptable(m, minSimilarity, candidates)) ||
      (onlyPreferred && forall m :: !OnPreferred(m, minSimilarity, candidates, exchanges))
  {
    TierMembers(candidates, minSimilarity, exchanges, countries);
    var ranked := Ranked(candidates, minSimilarity);
    var byExchange := ByExchange(candidates, minSimilarity, exchanges);
    var byCountry := ByCountry(candidates, minSimilarity, exchanges, countries);
    if ranked != [] {
      assert ranked[0] in ranked;
    }
    if byExchange != [] {
      assert byExchange[0] in byExchange;
    }
    if byCountry != [] {
      assert byCountry[0] in byCountry && byCountry[0] in byExchange;
    }
  }

  /** First tier: when some acceptable candidate is on a preferred exchange and in a
      preferred country, such a candidate is chosen. */
  lemma ChoiceCountryTier(candidates: seq<Match>, minSimilarity: real, exchanges: seq<string>,
                          countries: seq<string>, onlyPreferred: bool, n: Match)
    requires OnPreferred(n, minSimilarity, candidates, exchanges) && n.stock.country in countries
    ensures exists m ::
      OnPreferred(m, minSimilarity, candidates, exchanges) && m.stock.country in countries &&
      Choice(candidates, minSimilarity, exchanges, countries, onlyPreferred) == Some(PickOf(m))
  {
    TierMembers(candidates, minSimilarity, exchanges, countries);
    var byCountry := ByCountry(candidates, minSimilarity, exchanges, countries);
    assert n in byCountry && n in Ranked(candidates, minSimilarity);
    assert byCountry[0] in byCountry;
  }

  /** First tier, exactly: the chosen candidate is in `countries[p]`, the earliest preferred
      country of any acceptable candidate on a preferred exchange; among those in that country
      it is on `exchanges[q]`, the earliest preferred exchange any of them is on; and of
      those on that exchange it is the least similar, since the candidates are ranked in
      ascending similarity and the first is taken. */
  lemma ChoiceCountryPick(candidates: seq<Match>, minSimilarity: real, exchanges: seq<string>,
                          countries: seq<string>, onlyPreferred: bool, n: Match)
    requires OnPreferred(n, minSimilarity, candidates, exchanges) && n.stock.country in countries
    ensures exists p, q, m ::
      && 0 <= p < |countries| && 0 <= q < |exchanges|
      && Acceptable(m, minSimilarity, candidates)
      && m.stock.country == countries[p] && m.stock.exchange == exchanges[q]
      && Choice(candidates, minSimilarity, exchanges, countries, onlyPreferred) == Some(PickOf(m))
      && (forall k :: OnPreferred(k, minSimilarity, candidates, exchanges) ==> k.stock.country !in countries[..p])
      && (forall k :: Acceptable(k, minSimilarity, candidates) && k.stock.country == countries[p] ==>
            k.stock.exchange !in exchanges[..q])
      && (forall k ::
            Acceptable(k, minSimilarity, candidates) && k.stock.country == countries[p] && k.stock.exchange == exchanges[q] ==>
            m.score <= k.score)
  {
    RankedSpec(candidates, minSimilarity);
    var ranked := Ranked(candidates, minSimilarity);
    var byExchange := ByExchange(candidates, minSimilarity, exchanges);
    var byCountry := ByCountry(candidates, minSimilarity, exchanges, countries);
    GroupedMember(ranked, exchanges, Exchange, n);
    GroupedMember(byExchange, countries, Country, n);
    var p := EarliestGroup(byExchange, countries, Country);
    forall k | OnPreferred(k, minSimilarity, candidates, exchanges)
      ensures k.stock.country !in countries[..p]
    {
      GroupedMember(ranked, exchanges, Exchange, k);
    }
    var q := CountryGroupHead(ranked, exchanges, countries[p]);
    var m := byCountry[0];
    assert Choice(candidates, minSimilarity, exchanges, countries, onlyPreferred) == Some(PickOf(m));
  }

  /** The head of a grouping is the first match carrying `keys[p]`, and no match carries an
      earlier key. */
  lemma EarliestGroup(matches: seq<Match>, keys: seq<string>, field: Match -> string) returns (p: int)
    requires Grouped(matches, keys, field) != []
    ensures 0 <= p < |keys| && Filter(matches, Keyed(field, keys[p])) != []
    ensures Grouped(matches, keys, field)[0] == Filter(matches, Keyed(field, keys[p]))[0]
    ensures forall x :: x in matches ==> field(x) !in keys[..p]
  {
    GroupedHead(matches, keys, field);
    p :| EarliestKey(matches, keys, field, p) &&
      Grouped(matches, keys, field)[0] == Filter(matches, Keyed(field, keys[p]))[0];
    forall x | x in matches
      ensures field(x) !in keys[..p]
    {
      EarliestKeyFirst(matches, keys, field, p, x);
    }
  }

  /** Of the matches in ascending similarity grouped by exchange priority, the first one in
      country `c` is on the earliest exchange any match in `c` is on, and is the least similar
      match in `c` on that exchange. */
  lemma CountryGroupHead(ranked: seq<Match>, exchanges: seq<string>, c: string) returns (q: int)
    requires SortedBy(ranked, Score)
    requires Filter(Grouped(ranked, exchanges, Exchange), Keyed(Country, c)) != []
    ensures 0 <= q < |exchanges|
    ensures var m := Filter(Grouped(ranked, exchanges, Exchange), Keyed(Country, c))[0];
      && m in ranked && m.stock.country == c && m.stock.exchange == exchanges[q]
      && (forall k :: k in ranked && k.stock.country == c ==> k.stock.exchange !in exchanges[..q])
      && (forall k :: k in ranked && k.stock.country == c && k.stock.exchange == exchanges[q] ==> m.score <= k.score)
  {
    var local := Filter(ranked, Keyed(Country, c));
    GroupedFilter(ranked, exchanges, Exchange, Keyed(Country, c));
    FilterSorted(ranked, Keyed(Country, c));
    q := GroupedHeadLeast(local, exchanges, Exchange);
    forall k | k in ranked && k.stock.country == c
      ensures k in local
    {
      FilterMember(ranked, Keyed(Country, c), k);
    }
    FilterMember(ranked, Keyed(Country, c), Grouped(local, exchanges, Exchange)[0]);
  }

  /** Second tier: when some acceptable candidate is on a preferred exchange, a candidate on
      a preferred exchange is chosen. */
  lemma ChoiceExchangeTier(candidates: seq<Match>, minSimilarity: real, exchanges: seq<string>,
                           countries: seq<string>, onlyPreferred: bool, n: Match)
    requires OnPreferred(n, minSimilarity, candidates, exchanges)
    ensures exists m ::
      OnPreferred(m, minSimilarity, candidates, exchanges) &&
      Choice(candidates, minSimilarity, exchanges, countries, onlyPreferred) == Some(PickOf(m))
  {
    TierMembers(candidates, minSimilarity, exchanges, countries);
    var byExchange := ByExchange(candidates, minSimilarity, exchanges);
    var byCountry := ByCountry(candidates, minSimilarity, exchanges, countries);
    assert n in byExchange && n in Ranked(candidates, minSimilarity);
    if byCountry != [] {
      assert byCountry[0] in byCountry;
    } else {
      assert byExchange[0] in byExchange;
    }
  }

  /** Second tier, exactly: when no acceptable candidate on a preferred exchange is in a
      preferred country, the chosen candidate is on `exchanges[q]`, the earliest preferred
      exchange any acceptable candidate is on, and is the least similar acceptable candidate
      on it. */
  lemma ChoiceExchangePick(candidates: seq<Match>, minSimilarity: real, exchanges: seq<string>,
                           countries: seq<string>, onlyPreferred: bool, n: Match)
    requires OnPreferred(n, minSimilarity, candidates, exchanges)
    requires forall k :: OnPreferred(k, minSimilarity, candidates, exchanges) ==> k.stock.country !in countries
    ensures exists q, m ::
      && 0 <= q < |exchanges|
      && Acceptable(m, minSimilarity, candidates) && m.stock.exchange == exchanges[q]
      && Choice(candidates, minSimilarity, exchanges, countries, onlyPreferred) == Some(PickOf(m))
      && (forall k :: Acceptable(k, minSimilarity, candidates) ==> k.stock.exchange !in exchanges[..q])
      && (forall k :: Acceptable(k, minSimilarity, candidates) && k.stock.exchange == exchanges[q] ==>
            m.score <= k.score)
  {
    TierMembers(candidates, minSimilarity, exchanges, countries);
    RankedSpec(candidates, minSimilarity);
    var ranked := Ranked(candidates, minSimilarity);
    var byExchange := ByExchange(candidates, minSimilarity, exchanges);
    var byCountry := ByCountry(candidates, minSimilarity, exchanges, countries);
    HeadMember(byCountry);
    assert byCountry == [];
    assert n in byExchange;
    var q := GroupedHeadLeast(ranked, exchanges, Exchange);
    var m := byExchange[0];
    assert Choice(candidates, minSimilarity, exchanges, countries, onlyPreferred) == Some(PickOf(m));
  }

  /** Last tier: with no acceptable candidate on a preferred exchange and no restriction to
      preferred exchanges, the most similar acceptable candidate is chosen. */
  lemma ChoiceTopTier(candidates: seq<Match>, minSimilarity: real, exchanges: seq<string>,
                      countries: seq<string>, onlyPreferred: bool, n: Match)
    requires Acceptable(n, minSimilarity, candidates) && !onlyPreferred
    requires forall m :: !OnPreferred(m, minSimilarity, candidates, exchanges)
    ensures exists m ::
      Acceptable(m, minSimilarity, candidates) &&
      Choice(candidates, minSimilarity, exchanges, countries, onlyPreferred) == Some(PickOf(m)) &&
      forall k :: Acceptable(k, minSimilarity, candidates) ==> k.score <= m.score
  {
    TierMembers(candidates, minSimilarity, exchanges, countries);
    var ranked := Ranked(candidates, minSimilarity);
    assert n in ranked;
    HeadMember(ByExchange(candidates, minSimilarity, exchanges));
    HeadMember(ByCountry(candidates, minSimilarity, exchanges, countries));
    RankedTop(candidates, minSimilarity);
    assert ranked[|ranked| - 1] in ranked;
  }

  /** The last ranked candidate is the most similar acceptable one. */
  lemma RankedTop(candidates: seq<Match>, minSimilarity: real)
    ensures Ranked(candidates, minSimilarity) != [] ==>
      forall k :: Acceptable(k, minSimilarity, candidates) ==>
        k.score <= Ranked(candidates, minSimilarity)[|Ranked(candidates, minSimilarity)| - 1].score
  {
    RankedSpec(candidates, minSimilarity);
    var ranked := Ranked(candidates, minSimilarity);
    forall k | ranked != [] && Acceptable(k, minSimilarity, candidates)
      ensures k.score <= ranked[|ranked| - 1].score
    {
      var i :| 0 <= i < |ranked| && ranked[i] == k;
    }
  }

  /** One recognised company name with the stocks whose long names contain it. */
  datatype Entity = Entity(candidates: seq<Match>)

  /** The values of the present options, in order. */
  function Somes<T>(os: seq<Option<T>>): seq<T> {
    if os == [] then [] else
      Somes(os[..|os| - 1]) + (if os[|os| - 1].Some? then [os[|os| - 1].value] else [])
  }

  lemma SomesStep<T>(os: seq<Option<T>>, k: nat)
    requires k < |os|
    ensures Somes(os[..k + 1]) == Somes(os[..k]) + (if os[k].Some? then [os[k].value] else [])
  {
    var pre := os[..k + 1];
    assert pre[..|pre| - 1] == os[..k] && pre[|pre| - 1] == os[k];
  }

  /** `Somes` holds a value iff some option holds it, and is empty iff every option is. */
  lemma {:induction false} SomesSpec<T>(os: seq<Option<T>>)
    ensures |Somes(os)| <= |os|
    ensures forall x :: x in Somes(os) <==> Some(x) in os
    ensures Somes(os) == [] <==> forall i :: 0 <= i < |os| ==> os[i].None?
  {
    if os != [] {
      var init := os[..|os| - 1];
      SomesSpec(init);
      assert os == init + [os[|os| - 1]];
    }
  }

  /** The choice for each entity, in entity order. */
  function Choices(entities: seq<Entity>, minSimilarity: real, exchanges: seq<string>,
                   countries: seq<string>, onlyPreferred: bool): seq<Option<Pick>>
  {
    seq(|entities|, i requires 0 <= i < |entities| =>
      Choice(entities[i].candidates, minSimilarity, exchanges, countries, onlyPreferred))
  }

  /** `_extract_symbol`: None for no entities or no choice, else the choices in order. */
  function Symbols(entities: seq<Entity>, minSimilarity: real, exchanges: seq<string>,
                   countries: seq<string>, onlyPreferred: bool): Option<seq<Pick>>
  {
    var picks := Somes(Choices(entities, minSimilarity, exchanges, countries, onlyPreferred));
    if |entities| == 0 || picks == [] then None else Some(picks)
  }

  /** The body of the loop of `_extract_symbol` for one entity; the `continue` statements
      leave it without a choice. */
  method ChooseStock(candidates: seq<Match>, minSimilarity: real, exchanges: seq<string>,
                     countries: seq<string>, onlyPreferred: bool)
    returns (c: Option<Pick>)
    ensures c == Choice(candidates, minSimilarity, exchanges, countries, onlyPreferred)
  {
    if |candidates| == 0 {
      return None;
    }
    var ranked := Ranked(candidates, minSimilarity);
    if |ranked| == 0 {
      return None;
    }
    var byExchange := GroupByPriority(ranked, exchanges, Exchange);
    var byCountry := GroupByPriority(byExchange, countries, Country);
    if |byCountry| != 0 {
      c := Some(PickOf(byCountry[0]));
    } else if |byExchange| != 0 {
      c := Some(PickOf(byExchange[0]));
    } else if !onlyPreferred {
      c := Some(PickOf(ranked[|ranked| - 1]));
    } else {
      c := None;
    }
  }

  /** The loop of `_extract_symbol` over the entities. */
  method ExtractSymbol(entities: seq<Entity>, minSimilarity: real, exchanges: seq<string>,
                       countries: seq<string>, onlyPreferred: bool)
    returns (r: Option<seq<Pick>>)
    ensures r == Symbols(entities, minSimilarity, exchanges, countries, onlyPreferred)
  {
    if |entities| == 0 {
      return None;
    }
    var results := CollectChoices(entities, minSimilarity, exchanges, countries, onlyPreferred);
    if |results| == 0 {
      return None;
    }
    return Some(results);
  }

  /** The choices of the entities that have one, in order, as the loop appends them. */
  method CollectChoices(entities: seq<Entity>, minSimilarity: real, exchanges: seq<string>,
                        countries: seq<string>, onlyPreferred: bool)
    returns (results: seq<Pick>)
    ensures results == Somes(Choices(entities, minSimilarity, exchanges, countries, onlyPreferred))
  {
    ghost var choices := Choices(entities, minSimilarity, exchanges, countries, onlyPreferred);
    results := [];
    var k := 0;
    while k < |entities|
      invariant 0 <= k <= |entities|
      invariant results == Somes(choices[..k])
    {
      var c := ChooseStock(entities[k].candidates, minSimilarity, exchanges, countries, onlyPreferred);
      assert c == choices[k];
      SomesStep(choices, k);
      if c.Some? {
        results := results + [c.value];
      } else {
        assert results + [] == results;
      }
      k := k + 1;
    }
    assert choices[..k] == choices;
  }

  /** The result holds exactly the choices of the entities that have one, at most one per
      entity, and is None iff there are no entities or none has a choice. */
  lemma SymbolsSpec(entities: seq<Entity>, minSimilarity: real, exchanges: seq<string>,
                    countries: seq<string>, onlyPreferred: bool)
    ensures Symbols(entities, minSimilarity, exchanges, countries, onlyPreferred).None? <==>
      forall i :: 0 <= i < |entities| ==> Choices(entities, minSimilarity, exchanges, countries, onlyPreferred)[i].None?
    ensures Symbols(entities, minSimilarity, exchanges, countries, onlyPreferred).Some? ==>
      |Symbols(entities, minSimilarity, exchanges, countries, onlyPreferred).value| <= |entities|
    ensures Symbols(entities, minSimilarity, exchanges, countries, onlyPreferred).Some? ==>
      forall p :: p in Symbols(entities, minSimilarity, exchanges, countries, onlyPreferred).value <==>
        Some(p) in Choices(entities, minSimilarity, exchanges, countries, onlyPreferred)
  {
    SomesSpec(Choices(entities, minSimilarity, exchanges, countries, onlyPreferred));
  }
}
