/** Cutting a news text down to a number of words before it is sent to the translator. */
module Translator {
  import opened Text

  /** Python's list slice `ws[0:n]`: a negative bound counts back from the end. */
  function SliceTo<T>(ws: seq<T>, n: int): (r: seq<T>)
    ensures r <= ws
  {
    if 0 <= n then (if n < |ws| then ws[..n] else ws)
    else if -n < |ws| then ws[..|ws| + n] else []
  }

  /** `truncate_text(text, size)`, with `int(size)` already applied to `size`. */
  function TruncateText(text: string, size: int): string {
    var ws := Words(text);
    Join(if |ws| > size then SliceTo(ws, size) else ws, " ")
  }

  /** A prefix of a word list is a word list. */
  lemma PrefixWords(ws: seq<string>, n: nat)
    requires AllWords(ws) && n <= |ws|
    ensures AllWords(ws[..n])
  {
    assert forall k :: 0 <= k < n ==> ws[..n][k] == ws[k];
  }

  /** The words of the truncated text are the first `size` words of the text
      (all of them when there are no more than `size`). */
  lemma TruncateTextWords(text: string, size: int)
    requires 0 <= size
    ensures Words(TruncateText(text, size)) <= Words(text)
    ensures |Words(TruncateText(text, size))| ==
      (if size < |Words(text)| then size else |Words(text)|)
  {
    var ws := Words(text);
    if |ws| > size {
      PrefixWords(ws, size);
      WordsOfJoin(ws[..size]);
    } else {
      WordsOfJoin(ws);
    }
  }

  /** A text of at most `size` words loses none of them: it comes back with its
      whitespace collapsed to single spaces. */
  lemma TruncateShortText(text: string, size: int)
    requires |Words(text)| <= size
    ensures TruncateText(text, size) == Collapse(text)
    ensures Words(TruncateText(text, size)) == Words(text)
  {
    CollapseIdempotent(text);
  }

  /** Truncating twice to the same non-negative size is truncating once. */
  lemma TruncateIdempotent(text: string, size: int)
    requires 0 <= size
    ensures TruncateText(TruncateText(text, size), size) == TruncateText(text, size)
  {
    var once := TruncateText(text, size);
    TruncateTextWords(text, size);
    TruncateShortText(once, size);
    var ws := Words(text);
    if |ws| > size {
      PrefixWords(ws, size);
      WordsOfJoin(ws[..size]);
    } else {
      WordsOfJoin(ws);
    }
  }

  /** A negative size counts from the end, as the slice does: the last `-size` words
      are dropped, so a second truncation drops more words again. */
  lemma TruncateNegative(text: string, size: int)
    requires size < 0
    ensures Words(TruncateText(text, size)) <= Words(text)
    ensures |Words(TruncateText(text, size))| ==
      (if -size < |Words(text)| then |Words(text)| + size else 0)
    ensures -size < |Words(text)| ==>
      TruncateText(TruncateText(text, size), size) != TruncateText(text, size)
  {
    var ws := Words(text);
    if -size < |ws| {
      var kept := ws[..|ws| + size];
      PrefixWords(ws, |ws| + size);
      WordsOfJoin(kept);
      var once := TruncateText(text, size);
      if -size < |kept| {
        PrefixWords(kept, |kept| + size);
        WordsOfJoin(kept[..|kept| + size]);
      } else {
        WordsOfJoin([]);
      }
      assert |Words(TruncateText(once, size))| < |Words(once)|;
    } else {
      WordsOfJoin([]);
    }
  }
}
