/**
 * `extract_news_data`: turning one HackerNews search response into records,
 * one per hit, with a fixed placeholder for every missing field, the matched
 * words joined by ", " and the highlight tags removed from the title text.
 *
 * A response is seen through a typed view of its JSON: every key the code
 * reads is an `Option` (absent or present). The four fields copied as they are
 * may hold a JSON null, which the code passes through unchanged, so their
 * values are `Value`s.
 */
module NewsExtract {
  import opened Common
  import opened Keywords

  const NO_TITLE: string := "No Title Available"
  const NO_DATE: string := "No Date Available"
  const NO_AUTHOR: string := "Unknown Author"
  const NO_URL: string := "No URL Available"
  const EM_OPEN: string := "<em>"
  const EM_CLOSE: string := "</em>"
  const WORD_SEPARATOR: string := ", "

  /** A JSON value of a field that is copied into the record unchanged. */
  datatype Value = Null | Str(s: string)

  datatype TitleHighlight = TitleHighlight(matchedWords: Option<seq<string>>, value: Option<string>)

  datatype HighlightResult = HighlightResult(title: Option<TitleHighlight>)

  /** One element of `hits`. */
  datatype Hit = Hit(
    title: Option<Value>,
    createdAt: Option<Value>,
    author: Option<Value>,
    url: Option<Value>,
    highlightResult: Option<HighlightResult>)

  /** The decoded response body; `hits` is `None` when the key is missing. */
  datatype SearchData = SearchData(hits: Option<seq<Hit>>)

  /** One row of `final_news_data`. */
  datatype NewsRecord = NewsRecord(
    newsTitle: Value,
    newsText: string,
    storyDate: Value,
    matchedKeywords: string,
    url: Value,
    authorName: Value)

  // ---------------------------------------------------------------------------
  // Removing the highlight tags
  // ---------------------------------------------------------------------------

  /**
   * `s.replace(pat, "")`: one scan from the left, dropping every occurrence of
   * `pat` that starts where the scan stands and keeping every other character.
   */
  function RemoveAll(s: string, pat: string): (r: string)
    requires |pat| > 0
    ensures |r| <= |s|
    decreases |s|
  {
    if |s| == 0 then ""
    else if pat <= s then RemoveAll(s[|pat|..], pat)
    else [s[0]] + RemoveAll(s[1..], pat)
  }

  /** The title text: `<em>` removed first, then `</em>`. */
  function StripEm(s: string): string
  {
    RemoveAll(RemoveAll(s, EM_OPEN), EM_CLOSE)
  }

  predicate NoTagStart(t: string)
  {
    forall i :: 0 <= i < |t| ==> t[i] != '<'
  }

  /** Text without a `<` passes through a removal whose pattern starts with `<`. */
  lemma {:induction false} RemoveAllKeepsPlainText(t: string, rest: string, pat: string)
    requires |pat| > 0 && pat[0] == '<'
    requires NoTagStart(t)
    ensures RemoveAll(t + rest, pat) == t + RemoveAll(rest, pat)
    decreases |t|
  {
    if |t| > 0 {
      var s := t + rest;
      assert s[0] == t[0] && s[0] != pat[0];
      assert !(pat <= s);
      assert s[1..] == t[1..] + rest;
      RemoveAllKeepsPlainText(t[1..], rest, pat);
      assert [t[0]] + t[1..] == t;
    } else {
      assert t + rest == rest;
    }
  }

  /** An occurrence of the pattern where the scan stands is dropped whole. */
  lemma RemoveAllDropsPattern(rest: string, pat: string)
    requires |pat| > 0
    ensures RemoveAll(pat + rest, pat) == RemoveAll(rest, pat)
  {
    assert pat <= pat + rest;
    assert (pat + rest)[|pat|..] == rest;
  }

  /** Removing `<em>` leaves a closing tag alone. */
  lemma RemoveOpenKeepsClose(rest: string)
    ensures RemoveAll(EM_CLOSE + rest, EM_OPEN) == EM_CLOSE + RemoveAll(rest, EM_OPEN)
  {
    var s := EM_CLOSE + rest;
    assert s[1] == '/';
    assert !(EM_OPEN <= s);
    assert s[1..] == "/em>" + rest;
    RemoveAllKeepsPlainText("/em>", rest, EM_OPEN);
  }

  /** A piece of a highlighted title: a matched word is wrapped in tags. */
  datatype Segment = Segment(text: string, matched: bool)

  /** The title as the search service highlights it. */
  function Highlighted(parts: seq<Segment>): string
  {
    if |parts| == 0 then ""
    else (if parts[0].matched then EM_OPEN + parts[0].text + EM_CLOSE else parts[0].text) + Highlighted(parts[1..])
  }

  /** The title with every tag gone. */
  function PlainText(parts: seq<Segment>): string
  {
    if |parts| == 0 then "" else parts[0].text + PlainText(parts[1..])
  }

  /** The title after the `<em>` pass: only the closing tags remain. */
  function ClosingTagsOnly(parts: seq<Segment>): string
  {
    if |parts| == 0 then ""
    else (if parts[0].matched then parts[0].text + EM_CLOSE else parts[0].text) + ClosingTagsOnly(parts[1..])
  }

  predicate PlainSegments(parts: seq<Segment>)
  {
    forall i :: 0 <= i < |parts| ==> NoTagStart(parts[i].text)
  }

  /** The `<em>` pass on one tagged word drops the opening tag only. */
  lemma OpenPassTagged(text: string, tail: string)
    requires NoTagStart(text)
    ensures RemoveAll(EM_OPEN + text + EM_CLOSE + tail, EM_OPEN) == text + EM_CLOSE + RemoveAll(tail, EM_OPEN)
  {
    assert EM_OPEN + text + EM_CLOSE + tail == EM_OPEN + (text + (EM_CLOSE + tail));
    RemoveAllDropsPattern(text + (EM_CLOSE + tail), EM_OPEN);
    RemoveAllKeepsPlainText(text, EM_CLOSE + tail, EM_OPEN);
    RemoveOpenKeepsClose(tail);
    assert text + (EM_CLOSE + RemoveAll(tail, EM_OPEN)) == text + EM_CLOSE + RemoveAll(tail, EM_OPEN);
  }

  lemma {:induction false} OpenPass(parts: seq<Segment>)
    requires PlainSegments(parts)
    ensures RemoveAll(Highlighted(parts), EM_OPEN) == ClosingTagsOnly(parts)
  {
    if |parts| > 0 {
      var p := parts[0];
      assert NoTagStart(p.text);
      OpenPass(parts[1..]);
      var tail := Highlighted(parts[1..]);
      if p.matched {
        OpenPassTagged(p.text, tail);
      } else {
        RemoveAllKeepsPlainText(p.text, tail, EM_OPEN);
      }
    }
  }

  lemma {:induction false} ClosePass(parts: seq<Segment>)
    requires PlainSegments(parts)
    ensures RemoveAll(ClosingTagsOnly(parts), EM_CLOSE) == PlainText(parts)
  {
    if |parts| > 0 {
      var p := parts[0];
      assert NoTagStart(p.text);
      ClosePass(parts[1..]);
      var tail := ClosingTagsOnly(parts[1..]);
      if p.matched {
        assert ClosingTagsOnly(parts) == p.text + (EM_CLOSE + tail);
        RemoveAllKeepsPlainText(p.text, EM_CLOSE + tail, EM_CLOSE);
        RemoveAllDropsPattern(tail, EM_CLOSE);
      } else {
        RemoveAllKeepsPlainText(p.text, tail, EM_CLOSE);
      }
    }
  }

  /**
   * The round trip the tag removal exists for: a highlighted title whose text
   * has no `<` comes back as the plain title.
   */
  lemma StripEmUndoesHighlighting(parts: seq<Segment>)
    requires PlainSegments(parts)
    ensures StripEm(Highlighted(parts)) == PlainText(parts)
  {
    OpenPass(parts);
    ClosePass(parts);
  }

  /** Whether `pat` occurs anywhere in `s`. */
  predicate Occurs(s: string, pat: string)
  {
    exists i :: 0 <= i <= |s| && pat <= s[i..]
  }

  /** Text in which the pattern never occurs passes through unchanged, whatever characters it holds. */
  lemma {:induction false} RemoveAllWithoutOccurrence(s: string, pat: string)
    requires |pat| > 0
    requires !Occurs(s, pat)
    ensures RemoveAll(s, pat) == s
    decreases |s|
  {
    if |s| > 0 {
      assert s[0..] == s;
      forall i | 0 <= i <= |s[1..]|
        ensures !(pat <= s[1..][i..])
      {
        assert s[1..][i..] == s[i + 1..];
      }
      RemoveAllWithoutOccurrence(s[1..], pat);
      assert [s[0]] + s[1..] == s;
    }
  }

  /** A title holding neither tag is kept as it is, `<` included. */
  lemma StripEmWithoutTags(s: string)
    requires !Occurs(s, EM_OPEN) && !Occurs(s, EM_CLOSE)
    ensures StripEm(s) == s
  {
    RemoveAllWithoutOccurrence(s, EM_OPEN);
    RemoveAllWithoutOccurrence(s, EM_CLOSE);
  }

  /**
   * The removal is a single pass: a tag that only forms once another tag is
   * removed stays in the text.
   */
  lemma StripEmIsSinglePass()
    ensures StripEm("<<em>em>") == "<em>"
  {
    var s := "<<em>em>";
    assert s[1] == '<' && EM_OPEN[1] == 'e';
    assert !(EM_OPEN <= s);
    assert EM_OPEN <= s[1..];
    assert s[1..][|EM_OPEN|..] == "em>";
    RemoveAllKeepsPlainText("em>", "", EM_OPEN);
    assert RemoveAll(s, EM_OPEN) == "<em>";
    assert !(EM_CLOSE <= "<em>");
    assert "<em>"[1..] == "em>";
    RemoveAllKeepsPlainText("em>", "", EM_CLOSE);
  }

  // ---------------------------------------------------------------------------
  // Joining the matched words
  // ---------------------------------------------------------------------------

  /**
   * Reading the "Matched Keywords" cell back with the keyword splitter gives
   * the words, each but the first with the space of the separator in front.
   */
  lemma {:induction false} SplitJoinedWords(words: seq<string>)
    requires |words| >= 1
    requires forall i :: 0 <= i < |words| ==> SEPARATOR !in words[i]
    ensures Split(JoinWords(words, WORD_SEPARATOR)) ==
              [words[0]] + seq(|words| - 1, i requires 0 <= i < |words| - 1 => " " + words[i + 1])
  {
    var n := |words|;
    if n == 1 {
      SplitNoSeparator(words[0]);
    } else {
      var init := words[..n - 1];
      SplitJoinedWords(init);
      var head := JoinWords(init, WORD_SEPARATOR);
      var tail := " " + words[n - 1];
      assert SEPARATOR !in tail;
      assert JoinWords(words, WORD_SEPARATOR) == head + [SEPARATOR] + tail;
      SplitAppendPiece(head, tail);
    }
  }

  // ---------------------------------------------------------------------------
  // One hit, one response
  // ---------------------------------------------------------------------------

  /** The record built for one hit. */
  function HitRecord(hit: Hit): (r: NewsRecord)
    ensures r.newsTitle == if hit.title.Some? then hit.title.value else Str(NO_TITLE)
    ensures r.storyDate == if hit.createdAt.Some? then hit.createdAt.value else Str(NO_DATE)
    ensures r.authorName == if hit.author.Some? then hit.author.value else Str(NO_AUTHOR)
    ensures r.url == if hit.url.Some? then hit.url.value else Str(NO_URL)
  {
    var highlight := match hit.highlightResult
      case None => TitleHighlight(None, None)
      case Some(h) => h.title.GetOr(TitleHighlight(None, None));
    NewsRecord(
      hit.title.GetOr(Str(NO_TITLE)),
      StripEm(highlight.value.GetOr("")),
      hit.createdAt.GetOr(Str(NO_DATE)),
      JoinWords(highlight.matchedWords.GetOr([]), WORD_SEPARATOR),
      hit.url.GetOr(Str(NO_URL)),
      hit.author.GetOr(Str(NO_AUTHOR)))
  }

  /** The highlighted title of a hit, when the hit has one. */
  function TitleOf(hit: Hit): Option<TitleHighlight>
  {
    match hit.highlightResult
    case None => None
    case Some(h) => h.title
  }

  /** The text and keyword cells: empty when the highlight is missing at any level. */
  lemma HitRecordHighlight(hit: Hit)
    ensures TitleOf(hit).None? ==> HitRecord(hit).newsText == "" && HitRecord(hit).matchedKeywords == ""
    ensures TitleOf(hit).Some? && TitleOf(hit).value.value.None? ==> HitRecord(hit).newsText == ""
    ensures TitleOf(hit).Some? && TitleOf(hit).value.matchedWords.None? ==> HitRecord(hit).matchedKeywords == ""
    ensures TitleOf(hit).Some? && TitleOf(hit).value.matchedWords.Some? ==>
              HitRecord(hit).matchedKeywords == JoinWords(TitleOf(hit).value.matchedWords.value, WORD_SEPARATOR)
  {
    assert RemoveAll("", EM_OPEN) == "";
    assert RemoveAll("", EM_CLOSE) == "";
  }

  /** A highlighted title whose text has no `<` gives the plain title as the text cell. */
  lemma HitRecordText(hit: Hit, parts: seq<Segment>)
    requires TitleOf(hit).Some? && TitleOf(hit).value.value == Some(Highlighted(parts))
    requires PlainSegments(parts)
    ensures HitRecord(hit).newsText == PlainText(parts)
  {
    StripEmUndoesHighlighting(parts);
  }

  /** Null only reaches a record where the hit itself holds a null. */
  lemma HitRecordNulls(hit: Hit)
    ensures HitRecord(hit).newsTitle == Null <==> hit.title == Some(Null)
    ensures HitRecord(hit).storyDate == Null <==> hit.createdAt == Some(Null)
    ensures HitRecord(hit).authorName == Null <==> hit.author == Some(Null)
    ensures HitRecord(hit).url == Null <==> hit.url == Some(Null)
  {
  }

  /** `extract_news_data` as a value: one record per hit, in order; none when `hits` is missing. */
  function Extracted(data: SearchData): (news: seq<NewsRecord>)
    ensures data.hits.None? ==> news == []
    ensures data.hits.Some? ==> |news| == |data.hits.value|
  {
    match data.hits
    case None => []
    case Some(hits) => seq(|hits|, i requires 0 <= i < |hits| => HitRecord(hits[i]))
  }

  /** Record `i` is the record of hit `i`: the order of the hits is kept. */
  lemma ExtractedInOrder(data: SearchData, i: nat)
    requires data.hits.Some? && i < |data.hits.value|
    ensures |Extracted(data)| == |data.hits.value|
    ensures Extracted(data)[i] == HitRecord(data.hits.value[i])
  {
  }

  /** Every record comes from a hit, and every hit gives a record. */
  lemma ExtractedMembers(data: SearchData, x: NewsRecord)
    ensures x in Extracted(data) <==> data.hits.Some? && exists h :: h in data.hits.value && x == HitRecord(h)
  {
    if data.hits.Some? {
      var hits := data.hits.value;
      if x in Extracted(data) {
        var i :| 0 <= i < |hits| && Extracted(data)[i] == x;
        assert hits[i] in hits;
      }
      if exists h :: h in hits && x == HitRecord(h) {
        var h :| h in hits && x == HitRecord(h);
        var i :| 0 <= i < |hits| && hits[i] == h;
        assert Extracted(data)[i] == x;
      }
    }
  }

  /**
   * `extract_news_data`: a missing `hits` key raises the `KeyError` the
   * function catches before anything is appended, so the result is empty.
   */
  method ExtractNewsData(data: SearchData) returns (news: seq<NewsRecord>)
    ensures news == Extracted(data)
  {
    news := [];
    if data.hits.None? {
      return;
    }
    var hits := data.hits.value;
    var i := 0;
    while i < |hits|
      invariant 0 <= i <= |hits|
      invariant |news| == i
      invariant forall k :: 0 <= k < i ==> news[k] == HitRecord(hits[k])
    {
      news := news + [HitRecord(hits[i])];
      i := i + 1;
    }
  }
}
