/**
 * The HackerNews run: one search request per keyword, the records of every
 * successful response appended to `final_news_data`, then either the saved
 * table or a warning.
 */
module NewsFlow {
  import opened Common
  import opened Keywords
  import opened NewsExtract

  const SEARCH_ENDPOINT: string := "https://hn.algolia.com/api/v1/search?query="
  const STATUS_OK: int := 200

  /** The request URL for a keyword. */
  function RequestUrl(keyword: string): string
  {
    SEARCH_ENDPOINT + keyword
  }

  /**
   * The URL is the fixed endpoint followed by the keyword exactly as typed:
   * nothing is encoded or trimmed, so the keyword can be read back from it.
   */
  lemma RequestUrlParts(keyword: string)
    ensures |RequestUrl(keyword)| == |SEARCH_ENDPOINT| + |keyword|
    ensures RequestUrl(keyword)[..|SEARCH_ENDPOINT|] == SEARCH_ENDPOINT
    ensures RequestUrl(keyword)[|SEARCH_ENDPOINT|..] == keyword
  {
  }

  /** Different keywords give different URL strings. */
  lemma RequestUrlInjective(a: string, b: string)
    requires a != b
    ensures RequestUrl(a) != RequestUrl(b)
  {
    RequestUrlParts(a);
    RequestUrlParts(b);
  }

  /** What `requests.get` returns: the status and the body as `response.json()` decodes it. */
  datatype Response = Response(status: int, data: SearchData)

  /** The search service: the response it gives to each URL. */
  datatype HackerNewsApi = HackerNewsApi(respond: string -> Response)

  function ResponseFor(api: HackerNewsApi, keyword: string): Response
  {
    api.respond(RequestUrl(keyword))
  }

  /** What one keyword adds to `final_news_data`: nothing unless the status is 200. */
  function KeywordNews(api: HackerNewsApi, keyword: string): seq<NewsRecord>
  {
    var response := ResponseFor(api, keyword);
    if response.status == STATUS_OK then Extracted(response.data) else []
  }

  function KeywordNewsOf(api: HackerNewsApi): string -> seq<NewsRecord>
  {
    (keyword: string) => KeywordNews(api, keyword)
  }

  /** `final_news_data` after the loop over `keywords`, starting empty. */
  function Collected(api: HackerNewsApi, keywords: seq<string>): seq<NewsRecord>
  {
    FlatMap(KeywordNewsOf(api), keywords)
  }

  /** The keywords reported as failed, in order: those whose status is not 200. */
  function FailedKeywords(api: HackerNewsApi, keywords: seq<string>): (failed: seq<string>)
    ensures |failed| <= |keywords|
  {
    if |keywords| == 0 then []
    else
      var last := keywords[|keywords| - 1];
      FailedKeywords(api, keywords[..|keywords| - 1]) + (if ResponseFor(api, last).status == STATUS_OK then [] else [last])
  }

  lemma {:induction false} FailedKeywordsMembers(api: HackerNewsApi, keywords: seq<string>, k: string)
    ensures k in FailedKeywords(api, keywords) <==> k in keywords && ResponseFor(api, k).status != STATUS_OK
  {
    if |keywords| > 0 {
      var n := |keywords| - 1;
      FailedKeywordsMembers(api, keywords[..n], k);
      assert keywords == keywords[..n] + [keywords[n]];
    }
  }

  /**
   * A record is collected exactly when it comes from a hit in the successful
   * response to one of the keywords.
   */
  lemma CollectedMembers(api: HackerNewsApi, keywords: seq<string>, x: NewsRecord)
    ensures x in Collected(api, keywords) <==>
              exists i :: 0 <= i < |keywords| && ResponseFor(api, keywords[i]).status == STATUS_OK &&
                          x in Extracted(ResponseFor(api, keywords[i]).data)
  {
    FlatMapMember(KeywordNewsOf(api), keywords, x);
    forall i | 0 <= i < |keywords|
      ensures KeywordNewsOf(api)(keywords[i]) == KeywordNews(api, keywords[i])
    {
    }
  }

  /** A failed keyword contributes nothing and the keywords after it are still collected. */
  lemma SkipsFailedKeyword(api: HackerNewsApi, before: seq<string>, keyword: string, after: seq<string>)
    requires ResponseFor(api, keyword).status != STATUS_OK
    ensures Collected(api, before + [keyword] + after) == Collected(api, before) + Collected(api, after)
  {
    var f := KeywordNewsOf(api);
    FlatMapAppend(f, before + [keyword], after);
    FlatMapAppend(f, before, [keyword]);
    FlatMapSingle(f, keyword);
    assert f(keyword) == [];
  }

  /** Results are not deduplicated: a keyword given twice is collected twice. */
  lemma RepeatedKeyword(api: HackerNewsApi, keyword: string)
    ensures Collected(api, [keyword, keyword]) == KeywordNews(api, keyword) + KeywordNews(api, keyword)
  {
    var f := KeywordNewsOf(api);
    FlatMapAppend(f, [keyword], [keyword]);
    assert [keyword] + [keyword] == [keyword, keyword];
    FlatMapSingle(f, keyword);
  }

  /** One more keyword: its news and, when it failed, its name are appended. */
  lemma CollectStep(api: HackerNewsApi, keywords: seq<string>, i: nat)
    requires i < |keywords|
    ensures Collected(api, keywords[..i + 1]) == Collected(api, keywords[..i]) + KeywordNews(api, keywords[i])
    ensures FailedKeywords(api, keywords[..i + 1]) ==
              FailedKeywords(api, keywords[..i]) + (if ResponseFor(api, keywords[i]).status == STATUS_OK then [] else [keywords[i]])
  {
    assert KeywordNewsOf(api)(keywords[i]) == KeywordNews(api, keywords[i]);
    FlatMapTakeOneMore(KeywordNewsOf(api), keywords, i);
    TakeOneMore(keywords, i);
  }

  /** The module-level `final_news_data` list. */
  class NewsStore {
    var finalNewsData: seq<NewsRecord>

    constructor ()
      ensures finalNewsData == []
    {
      finalNewsData := [];
    }

    /**
     * The per-keyword loop. `failed` lists the keywords the failure message is
     * printed for.
     */
    method CollectNews(api: HackerNewsApi, keywords: seq<string>) returns (failed: seq<string>)
      modifies this
      ensures finalNewsData == old(finalNewsData) + Collected(api, keywords)
      ensures failed == FailedKeywords(api, keywords)
    {
      failed := [];
      var i := 0;
      while i < |keywords|
        invariant 0 <= i <= |keywords|
        invariant finalNewsData == old(finalNewsData) + Collected(api, keywords[..i])
        invariant failed == FailedKeywords(api, keywords[..i])
      {
        var keyword := keywords[i];
        var url := RequestUrl(keyword);
        var response := api.respond(url);
        ghost var added: seq<NewsRecord> := [];
        if response.status == STATUS_OK {
          var news := ExtractNewsData(response.data);
          finalNewsData := finalNewsData + news;
          added := news;
        } else {
          failed := failed + [keyword];
        }
        assert added == KeywordNews(api, keyword);
        CollectStep(api, keywords, i);
        i := i + 1;
      }
      assert keywords[..i] == keywords;
    }
  }

  /** How a HackerNews run ends: the saved table or the warning. */
  datatype NewsOutcome = NoNewsFound | Saved(records: seq<NewsRecord>)

  /** One press of the HackerNews run button. */
  method RunHackerNews(keywordsInput: string, api: HackerNewsApi) returns (outcome: NewsOutcome, failed: seq<string>)
    ensures outcome == NoNewsFound <==> Collected(api, Split(keywordsInput)) == []
    ensures outcome.Saved? ==> outcome.records == Collected(api, Split(keywordsInput)) && outcome.records != []
    ensures failed == FailedKeywords(api, Split(keywordsInput))
    ensures forall k :: k in failed <==> k in Split(keywordsInput) && ResponseFor(api, k).status != STATUS_OK
  {
    var keywords := ParseKeywords(keywordsInput);
    var store := new NewsStore();
    failed := store.CollectNews(api, keywords);
    forall k
      ensures k in failed <==> k in keywords && ResponseFor(api, k).status != STATUS_OK
    {
      FailedKeywordsMembers(api, keywords, k);
    }
    if store.finalNewsData == [] {
      outcome := NoNewsFound;
    } else {
      outcome := Saved(store.finalNewsData);
    }
  }
}
