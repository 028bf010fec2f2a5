/**
 * The Reddit run: credential guard, discovery, validation and the
 * collection into the shared `posts` list, one subreddit at a time.
 */
module RedditFlow {
  import opened Common
  import opened Keywords
  import opened RedditData

  /**
   * `search_subreddits`: gathers the names into a set across all keywords and
   * returns it as a list. The order of the list is whatever the set gives.
   */
  method SearchSubreddits(api: RedditApi, keywords: seq<string>) returns (found: seq<string>)
    ensures NoDuplicates(found)
    ensures forall x :: x in found <==> x in Discovered(api, keywords)
  {
    var names: set<string> := {};
    var i := 0;
    while i < |keywords|
      invariant 0 <= i <= |keywords|
      invariant names == Discovered(api, keywords[..i])
    {
      var results := SearchResults(api, keywords[i]);
      ghost var before := names;
      var j := 0;
      while j < |results|
        invariant 0 <= j <= |results|
        invariant names == before + AsSet(results[..j])
      {
        TakeOneMore(results, j);
        names := names + {results[j]};
        j := j + 1;
      }
      assert names == Discovered(api, keywords[..i + 1]) by {
        assert results[..j] == results;
        DiscoveredTakeOneMore(api, keywords, i);
      }
      i := i + 1;
    }
    assert keywords[..i] == keywords;
    found := ListOfSet(names);
  }

  /** The module-level `posts` list, which `scrape_subreddit` appends to. */
  class PostStore {
    var posts: seq<PostRecord>

    constructor ()
      ensures posts == []
    {
      posts := [];
    }

    /**
     * `scrape_subreddit`: one record per comment of each of the newest five
     * submissions. An exception ends the call; what was appended stays and
     * `failed` reports the warning.
     */
    method ScrapeSubreddit(api: RedditApi, subreddit: string) returns (failed: bool)
      modifies this
      ensures posts == old(posts) + ScrapeResult(api, subreddit)
      ensures failed == ScrapeFails(api, subreddit)
    {
      var failsAt := api.ListingFor(subreddit).failsAt;
      var subs := NewestSubmissions(api, subreddit);
      ghost var done: seq<PostRecord> := [];
      var appended := 0;
      var i := 0;
      while i < |subs|
        invariant 0 <= i <= |subs|
        invariant done == SubredditRecords(subreddit, subs[..i])
        invariant posts == old(posts) + done
        invariant appended == |done|
        invariant failsAt.Some? ==> appended <= failsAt.value
      {
        var s := subs[i];
        var comments := s.comments;
        ghost var before := done;
        var j := 0;
        while j < |comments|
          invariant 0 <= j <= |comments|
          invariant done == before + CommentRecords(subreddit, s, comments[..j])
          invariant posts == old(posts) + done
          invariant appended == |done|
          invariant failsAt.Some? ==> appended <= failsAt.value
        {
          if failsAt == Some(appended) {
            LoopRecordsPrefix(subreddit, subs, i, j);
            ScrapeResultWhenFailing(api, subreddit, done);
            failed := true;
            return;
          }
          TakeOneMore(comments, j);
          var record := CommentRecord(subreddit, s, comments[j]);
          posts := posts + [record];
          done := done + [record];
          appended := appended + 1;
          j := j + 1;
        }
        assert comments[..j] == comments;
        TakeOneMore(subs, i);
        i := i + 1;
      }
      assert subs[..i] == subs;
      ScrapeResultWhenComplete(api, subreddit);
      failed := failsAt.Some?;
    }

    /**
     * The loop calling `scrape_subreddit` on every valid subreddit, in order.
     * `warned` lists the subreddits a warning is shown for.
     */
    method ScrapeAll(api: RedditApi, subreddits: seq<string>) returns (warned: seq<string>)
      modifies this
      ensures posts == old(posts) + CollectAll(api, subreddits)
      ensures warned == FailedSubreddits(api, subreddits)
    {
      warned := [];
      var i := 0;
      while i < |subreddits|
        invariant 0 <= i <= |subreddits|
        invariant posts == old(posts) + CollectAll(api, subreddits[..i])
        invariant warned == FailedSubreddits(api, subreddits[..i])
      {
        var failed := ScrapeSubreddit(api, subreddits[i]);
        ScrapeStep(api, subreddits, i);
        warned := warned + (if failed then [subreddits[i]] else []);
        i := i + 1;
      }
      assert subreddits[..i] == subreddits;
    }
  }

  /** How a Reddit run ends: an error, one of two warnings, or the collected records. */
  datatype RedditOutcome = MissingCredentials | NoValidSubreddits | NoPostsFound | Scraped(posts: seq<PostRecord>)

  /**
   * One press of the Reddit run button. `valid` is the list of valid
   * subreddits in the order they were scraped; `warned` lists those a
   * scraping warning is shown for.
   */
  method RunReddit(credentials: Credentials, keywordsInput: string, api: RedditApi)
    returns (outcome: RedditOutcome, valid: seq<string>, warned: seq<string>)
    ensures outcome == MissingCredentials <==> !CredentialsPresent(credentials)
    ensures !CredentialsPresent(credentials) ==> valid == []
    ensures CredentialsPresent(credentials) ==>
              && NoDuplicates(valid)
              && forall x :: x in valid <==> x in Discovered(api, Split(keywordsInput)) && IsValidSubreddit(api, x)
    ensures outcome == NoValidSubreddits <==> CredentialsPresent(credentials) && valid == []
    ensures outcome == NoPostsFound <==> valid != [] && CollectAll(api, valid) == []
    ensures outcome.Scraped? ==> valid != [] && outcome.posts == CollectAll(api, valid) && outcome.posts != []
    ensures outcome.Scraped? ==> forall p :: p in outcome.posts ==> p.subreddit in valid && IsValidSubreddit(api, p.subreddit)
    ensures warned == FailedSubreddits(api, valid)
    ensures forall x :: x in warned <==> x in valid && ScrapeFails(api, x)
  {
    if !CredentialsPresent(credentials) {
      return MissingCredentials, [], [];
    }
    var keywords := ParseKeywords(keywordsInput);
    var found := SearchSubreddits(api, keywords);
    valid := ValidSubreddits(api, found);
    if valid == [] {
      return NoValidSubreddits, valid, [];
    }
    var store := new PostStore();
    warned := store.ScrapeAll(api, valid);
    forall x
      ensures x in warned <==> x in valid && ScrapeFails(api, x)
    {
      FailedSubredditsMembers(api, valid, x);
    }
    if store.posts == [] {
      outcome := NoPostsFound;
    } else {
      outcome := Scraped(store.posts);
      forall p | p in outcome.posts
        ensures p.subreddit in valid
      {
        CollectAllNames(api, valid, p);
      }
    }
  }
}
