/**
 * The Reddit flow's view of the Reddit API, given as data, and the
 * specification functions the flow's methods are proved against.
 */
module RedditData {
  import opened Common

  /** `limit=10` on the discovery search. */
  const SEARCH_LIMIT: nat := 10
  /** `limit=5` on a subreddit's newest submissions. */
  const SUBMISSION_LIMIT: nat := 5
  /** Stands in for the author of a comment whose author is gone. */
  const UNKNOWN_AUTHOR: string := "Unknown"

  datatype Credentials = Credentials(clientId: string, clientSecret: string, userAgent: string)

  /** The guard in front of the run: all three credentials are non-empty. */
  predicate CredentialsPresent(c: Credentials)
  {
    c.clientId != "" && c.clientSecret != "" && c.userAgent != ""
  }

  /** What resolving a subreddit by name yields. */
  datatype SubredditInfo = SubredditInfo(over18: bool, displayName: Option<string>)

  datatype Comment = Comment(body: string, author: Option<string>)

  datatype Submission = Submission(
    title: string, url: string, score: int, createdUtc: real, selftext: string,
    comments: seq<Comment>)

  /**
   * A subreddit's newest submissions, each with its flattened comment list.
   * `failsAt == Some(k)`: an exception is raised before the record with index
   * `k` (counted within this subreddit) is appended, or after the last record
   * when `k` is at least their number.
   */
  datatype Listing = Listing(submissions: seq<Submission>, failsAt: Option<nat>)

  /**
   * The API as given data. A keyword missing from `search` finds nothing; a
   * name missing from `lookup` is one whose resolution raises; a name missing
   * from `listings` is one whose listing raises before anything is appended.
   */
  datatype RedditApi = RedditApi(
    search: map<string, seq<string>>,
    lookup: map<string, SubredditInfo>,
    listings: map<string, Listing>)
  {
    /** The subreddit names of the search results for `keyword`, newest first. */
    function Search(keyword: string): seq<string>
    {
      if keyword in search then search[keyword] else []
    }

    /** Resolving subreddit `name`: `None` when that raises. */
    function Lookup(name: string): Option<SubredditInfo>
    {
      if name in lookup then Some(lookup[name]) else None
    }

    /** What `subreddit(name).new(...)` delivers. */
    function ListingFor(name: string): Listing
    {
      if name in listings then listings[name] else Listing([], Some(0))
    }
  }

  /** One row of `posts`. */
  datatype PostRecord = PostRecord(
    title: string, url: string, score: int, created: real, subreddit: string,
    submissionContent: string, comment: string, commentAuthor: string)

  // ----- discovery -----

  function SearchResults(api: RedditApi, keyword: string): seq<string>
  {
    Limit(api.Search(keyword), SEARCH_LIMIT)
  }

  /** The union, over all keywords, of the subreddit names their searches return. */
  function Discovered(api: RedditApi, keywords: seq<string>): set<string>
  {
    if |keywords| == 0 then {}
    else Discovered(api, keywords[..|keywords| - 1]) + AsSet(SearchResults(api, keywords[|keywords| - 1]))
  }

  lemma DiscoveredTakeOneMore(api: RedditApi, keywords: seq<string>, i: nat)
    requires i < |keywords|
    ensures Discovered(api, keywords[..i + 1]) == Discovered(api, keywords[..i]) + AsSet(SearchResults(api, keywords[i]))
  {
    TakeOneMore(keywords, i);
  }

  /** A name is discovered exactly when the search for some keyword returns it. */
  lemma {:induction false} DiscoveredMembers(api: RedditApi, keywords: seq<string>, name: string)
    ensures name in Discovered(api, keywords) <==>
            exists i :: 0 <= i < |keywords| && name in SearchResults(api, keywords[i])
  {
    if keywords != [] {
      var init := keywords[..|keywords| - 1];
      DiscoveredMembers(api, init, name);
      if name in Discovered(api, keywords) && name !in Discovered(api, init) {
        assert name in SearchResults(api, keywords[|keywords| - 1]);
      }
      if i :| 0 <= i < |keywords| && name in SearchResults(api, keywords[i]) {
        if i < |init| {
          assert keywords[i] == init[i];
        }
      }
    }
  }

  // ----- validation -----

  /** `is_valid_subreddit`: resolvable, not over 18, with a display name; a failure counts as invalid. */
  predicate IsValidSubreddit(api: RedditApi, name: string)
  {
    match api.Lookup(name)
    case None => false
    case Some(info) => !info.over18 && info.displayName.Some?
  }

  /**
   * The check is total: it holds exactly when the name resolves to a
   * subreddit that is not over 18 and has a display name.
   */
  lemma IsValidSubredditMeaning(api: RedditApi, name: string)
    ensures IsValidSubreddit(api, name) <==>
              name in api.lookup && !api.lookup[name].over18 && api.lookup[name].displayName.Some?
  {
  }

  /** The comprehension keeping the valid subreddits of `found`, in order. */
  function ValidSubreddits(api: RedditApi, found: seq<string>): (valid: seq<string>)
    ensures forall x :: x in valid <==> x in found && IsValidSubreddit(api, x)
    ensures |valid| <= |found|
    ensures NoDuplicates(found) ==> NoDuplicates(valid)
    ensures (forall x :: x in found ==> IsValidSubreddit(api, x)) ==> valid == found
  {
    if |found| == 0 then []
    else
      var init := ValidSubreddits(api, found[..|found| - 1]);
      var last := found[|found| - 1];
      assert found == found[..|found| - 1] + [last];
      if IsValidSubreddit(api, last) then init + [last] else init
  }

  /**
   * Each name is judged on its own lookup alone: two APIs that resolve the
   * found names alike keep the same list.
   */
  lemma {:induction false} ValidSubredditsDependsOnLookups(api: RedditApi, api': RedditApi, found: seq<string>)
    requires forall x :: x in found ==> api'.Lookup(x) == api.Lookup(x)
    ensures ValidSubreddits(api', found) == ValidSubreddits(api, found)
  {
    if |found| > 0 {
      var init := found[..|found| - 1];
      assert forall x :: x in init ==> x in found;
      ValidSubredditsDependsOnLookups(api, api', init);
    }
  }

  /** Filtering distributes over concatenation, so the relative order of `found` is kept. */
  lemma {:induction false} ValidSubredditsAppend(api: RedditApi, a: seq<string>, b: seq<string>)
    ensures ValidSubreddits(api, a + b) == ValidSubreddits(api, a) + ValidSubreddits(api, b)
  {
    if b != [] {
      var b' := b[..|b| - 1];
      DropLast(a, b);
      ValidSubredditsAppend(api, a, b');
    } else {
      assert a + b == a;
    }
  }

  // ----- collection -----

  /** The dictionary appended for one comment of one submission. */
  function CommentRecord(subreddit: string, s: Submission, c: Comment): PostRecord
  {
    PostRecord(
      s.title, s.url, s.score, s.createdUtc, subreddit, s.selftext, c.body,
      if c.author.Some? then c.author.value else UNKNOWN_AUTHOR)
  }

  /** The records for the comments `cs` of submission `s`, in comment order. */
  function CommentRecords(subreddit: string, s: Submission, cs: seq<Comment>): seq<PostRecord>
  {
    if |cs| == 0 then []
    else CommentRecords(subreddit, s, cs[..|cs| - 1]) + [CommentRecord(subreddit, s, cs[|cs| - 1])]
  }

  /** The records of all comments of one submission, as a function value. */
  function SubmissionRecordsOf(subreddit: string): Submission -> seq<PostRecord>
  {
    (s: Submission) => CommentRecords(subreddit, s, s.comments)
  }

  /** All records of the submissions `subs`: submission order, then comment order. */
  function SubredditRecords(subreddit: string, subs: seq<Submission>): seq<PostRecord>
  {
    FlatMap(SubmissionRecordsOf(subreddit), subs)
  }

  /** Total number of comments under `subs`. */
  function CommentCount(subs: seq<Submission>): nat
  {
    if |subs| == 0 then 0 else CommentCount(subs[..|subs| - 1]) + |subs[|subs| - 1].comments|
  }

  lemma {:induction false} CommentRecordsLength(subreddit: string, s: Submission, cs: seq<Comment>)
    ensures |CommentRecords(subreddit, s, cs)| == |cs|
  {
    if cs != [] {
      CommentRecordsLength(subreddit, s, cs[..|cs| - 1]);
    }
  }

  lemma {:induction false} CommentRecordsAt(subreddit: string, s: Submission, cs: seq<Comment>, k: nat)
    requires k < |cs|
    ensures |CommentRecords(subreddit, s, cs)| == |cs|
    ensures CommentRecords(subreddit, s, cs)[k] == CommentRecord(subreddit, s, cs[k])
  {
    var init := cs[..|cs| - 1];
    if k < |init| {
      CommentRecordsAt(subreddit, s, init, k);
    } else if init != [] {
      CommentRecordsAt(subreddit, s, init, 0);
    } else {
      assert CommentRecords(subreddit, s, init) == [];
    }
  }

  lemma {:induction false} SubredditRecordsLength(subreddit: string, subs: seq<Submission>)
    ensures |SubredditRecords(subreddit, subs)| == CommentCount(subs)
  {
    if subs != [] {
      var last := subs[|subs| - 1];
      SubredditRecordsLength(subreddit, subs[..|subs| - 1]);
      CommentRecordsLength(subreddit, last, last.comments);
    }
  }

  /** Records of consecutive runs of submissions are consecutive. */
  lemma SubredditRecordsAppend(subreddit: string, a: seq<Submission>, b: seq<Submission>)
    ensures SubredditRecords(subreddit, a + b) == SubredditRecords(subreddit, a) + SubredditRecords(subreddit, b)
  {
    FlatMapAppend(SubmissionRecordsOf(subreddit), a, b);
  }

  lemma SubredditRecordIndex(subreddit: string, subs: seq<Submission>, j: nat, k: nat)
    requires j < |subs| && k < |subs[j].comments|
    ensures |SubredditRecords(subreddit, subs)| == CommentCount(subs)
    ensures CommentCount(subs[..j]) + k < CommentCount(subs)
    ensures SubredditRecords(subreddit, subs)[CommentCount(subs[..j]) + k]
         == CommentRecord(subreddit, subs[j], subs[j].comments[k])
  {
    var f := SubmissionRecordsOf(subreddit);
    CommentRecordsAt(subreddit, subs[j], subs[j].comments, k);
    assert f(subs[j]) == CommentRecords(subreddit, subs[j], subs[j].comments);
    FlatMapIndex(f, subs, j, k);
    SubredditRecordsLength(subreddit, subs[..j]);
    SubredditRecordsLength(subreddit, subs);
    var i := |FlatMap(f, subs[..j])| + k;
    assert CommentCount(subs[..j]) + k == i;
    assert SubredditRecords(subreddit, subs)[i] == f(subs[j])[k];
  }

  /**
   * Fan-out: comment `k` of submission `j` gives the record at position
   * (comments of the earlier submissions) + k, which copies the submission's
   * fields and names the comment's author, or "Unknown" when it has none.
   */
  lemma SubredditRecordAt(subreddit: string, subs: seq<Submission>, j: nat, k: nat)
    requires j < |subs| && k < |subs[j].comments|
    ensures |SubredditRecords(subreddit, subs)| == CommentCount(subs)
    ensures CommentCount(subs[..j]) + k < CommentCount(subs)
    ensures
      var r := SubredditRecords(subreddit, subs)[CommentCount(subs[..j]) + k];
      var s := subs[j];
      var c := s.comments[k];
      && r.title == s.title && r.url == s.url && r.score == s.score
      && r.created == s.createdUtc && r.submissionContent == s.selftext
      && r.subreddit == subreddit && r.comment == c.body
      && (c.author.None? ==> r.commentAuthor == UNKNOWN_AUTHOR)
      && (c.author.Some? ==> r.commentAuthor == c.author.value)
      && (r.commentAuthor == UNKNOWN_AUTHOR <==> c.author.None? || c.author == Some(UNKNOWN_AUTHOR))
  {
    SubredditRecordIndex(subreddit, subs, j, k);
  }

  lemma {:induction false} CommentRecordsPrefix(subreddit: string, s: Submission, cs: seq<Comment>, j: nat)
    requires j <= |cs|
    ensures CommentRecords(subreddit, s, cs[..j]) <= CommentRecords(subreddit, s, cs)
  {
    if j < |cs| {
      var init := cs[..|cs| - 1];
      assert init[..j] == cs[..j];
      CommentRecordsPrefix(subreddit, s, init, j);
    } else {
      assert cs[..j] == cs;
    }
  }

  lemma SubredditRecordsPrefix(subreddit: string, subs: seq<Submission>, i: nat)
    requires i <= |subs|
    ensures SubredditRecords(subreddit, subs[..i]) <= SubredditRecords(subreddit, subs)
  {
    assert subs == subs[..i] + subs[i..];
    SubredditRecordsAppend(subreddit, subs[..i], subs[i..]);
  }

  /** What the nested loops have appended after `j` comments of submission `i`: a prefix of all records. */
  lemma LoopRecordsPrefix(subreddit: string, subs: seq<Submission>, i: nat, j: nat)
    requires i < |subs| && j <= |subs[i].comments|
    ensures SubredditRecords(subreddit, subs[..i]) + CommentRecords(subreddit, subs[i], subs[i].comments[..j])
            <= SubredditRecords(subreddit, subs)
  {
    TakeOneMore(subs, i);
    CommentRecordsPrefix(subreddit, subs[i], subs[i].comments, j);
    SubredditRecordsPrefix(subreddit, subs, i + 1);
  }

  /** The submissions `scrape_subreddit` walks through: the newest five. */
  function NewestSubmissions(api: RedditApi, subreddit: string): seq<Submission>
  {
    Limit(api.ListingFor(subreddit).submissions, SUBMISSION_LIMIT)
  }

  /** Whether scraping the subreddit raises, so that a warning replaces the rest. */
  predicate ScrapeFails(api: RedditApi, subreddit: string)
  {
    api.ListingFor(subreddit).failsAt.Some?
  }

  /**
   * The records one call of `scrape_subreddit` leaves in `posts`: all of them,
   * or those appended before the exception.
   */
  function ScrapeResult(api: RedditApi, subreddit: string): seq<PostRecord>
  {
    var all := SubredditRecords(subreddit, NewestSubmissions(api, subreddit));
    match api.ListingFor(subreddit).failsAt
    case None => all
    case Some(k) => if k < |all| then all[..k] else all
  }

  /** Records appended before a failure stay: the result is a prefix of all the subreddit's records. */
  lemma ScrapeResultIsPrefix(api: RedditApi, subreddit: string)
    ensures ScrapeResult(api, subreddit) <= SubredditRecords(subreddit, NewestSubmissions(api, subreddit))
  {
  }

  /** An exception raised once `done` has been appended leaves exactly `done`. */
  lemma ScrapeResultWhenFailing(api: RedditApi, subreddit: string, done: seq<PostRecord>)
    requires done <= SubredditRecords(subreddit, NewestSubmissions(api, subreddit))
    requires api.ListingFor(subreddit).failsAt == Some(|done|)
    ensures ScrapeResult(api, subreddit) == done
  {
  }

  /** With no exception before the last record, every record stays. */
  lemma ScrapeResultWhenComplete(api: RedditApi, subreddit: string)
    requires var f := api.ListingFor(subreddit).failsAt;
             f.Some? ==> |SubredditRecords(subreddit, NewestSubmissions(api, subreddit))| <= f.value
    ensures ScrapeResult(api, subreddit) == SubredditRecords(subreddit, NewestSubmissions(api, subreddit))
  {
  }

  /** `ScrapeResult` for a fixed API, as a function value. */
  function ScrapeResultOf(api: RedditApi): string -> seq<PostRecord>
  {
    (subreddit: string) => ScrapeResult(api, subreddit)
  }

  /** `posts` after scraping each of `subreddits` in turn, starting empty. */
  function CollectAll(api: RedditApi, subreddits: seq<string>): seq<PostRecord>
  {
    FlatMap(ScrapeResultOf(api), subreddits)
  }

  /** The subreddits `scrape_subreddit` warns about, in the order they were scraped. */
  function FailedSubreddits(api: RedditApi, subreddits: seq<string>): (warned: seq<string>)
    ensures |warned| <= |subreddits|
  {
    if |subreddits| == 0 then []
    else
      var last := subreddits[|subreddits| - 1];
      FailedSubreddits(api, subreddits[..|subreddits| - 1]) + (if ScrapeFails(api, last) then [last] else [])
  }

  /** A warning is given for a subreddit exactly when it is scraped and its scrape raises. */
  lemma {:induction false} FailedSubredditsMembers(api: RedditApi, subreddits: seq<string>, x: string)
    ensures x in FailedSubreddits(api, subreddits) <==> x in subreddits && ScrapeFails(api, x)
  {
    if |subreddits| > 0 {
      var n := |subreddits| - 1;
      FailedSubredditsMembers(api, subreddits[..n], x);
      assert subreddits == subreddits[..n] + [subreddits[n]];
    }
  }

  /** One more subreddit: its records and, when its scrape raised, its name are appended. */
  lemma ScrapeStep(api: RedditApi, subreddits: seq<string>, i: nat)
    requires i < |subreddits|
    ensures CollectAll(api, subreddits[..i + 1]) == CollectAll(api, subreddits[..i]) + ScrapeResult(api, subreddits[i])
    ensures FailedSubreddits(api, subreddits[..i + 1]) ==
              FailedSubreddits(api, subreddits[..i]) + (if ScrapeFails(api, subreddits[i]) then [subreddits[i]] else [])
  {
    assert ScrapeResultOf(api)(subreddits[i]) == ScrapeResult(api, subreddits[i]);
    FlatMapTakeOneMore(ScrapeResultOf(api), subreddits, i);
    TakeOneMore(subreddits, i);
  }

  /** Only the listings of the subreddits scraped matter. */
  lemma {:induction false} CollectAllDependsOnListings(api: RedditApi, api': RedditApi, subreddits: seq<string>)
    requires forall x :: x in subreddits ==> api'.ListingFor(x) == api.ListingFor(x)
    ensures CollectAll(api', subreddits) == CollectAll(api, subreddits)
  {
    if subreddits != [] {
      var init := subreddits[..|subreddits| - 1];
      CollectAllDependsOnListings(api, api', init);
      assert CollectAll(api', subreddits) == CollectAll(api', init) + ScrapeResult(api', subreddits[|subreddits| - 1]);
    }
  }

  /**
   * Failure isolation: whatever subreddit `n` does, failing part way or at
   * once, the subreddits before and after it contribute exactly what they
   * would have, in place.
   */
  lemma FailureIsolation(api: RedditApi, api': RedditApi, before: seq<string>, n: string, after: seq<string>)
    requires forall x :: x != n ==> api'.ListingFor(x) == api.ListingFor(x)
    requires n !in before && n !in after
    ensures CollectAll(api', before + [n] + after)
         == CollectAll(api, before) + ScrapeResult(api', n) + CollectAll(api, after)
  {
    FlatMapAppend(ScrapeResultOf(api'), before + [n], after);
    FlatMapAppend(ScrapeResultOf(api'), before, [n]);
    FlatMapSingle(ScrapeResultOf(api'), n);
    CollectAllDependsOnListings(api, api', before);
    CollectAllDependsOnListings(api, api', after);
  }

  lemma {:induction false} CommentRecordsName(subreddit: string, s: Submission, cs: seq<Comment>, p: PostRecord)
    requires p in CommentRecords(subreddit, s, cs)
    ensures p.subreddit == subreddit
  {
    var n := |cs| - 1;
    if p in CommentRecords(subreddit, s, cs[..n]) {
      CommentRecordsName(subreddit, s, cs[..n], p);
    }
  }

  /** Every record one call appends names the subreddit being scraped. */
  lemma ScrapeResultName(api: RedditApi, subreddit: string, p: PostRecord)
    requires p in ScrapeResult(api, subreddit)
    ensures p.subreddit == subreddit
  {
    var subs := NewestSubmissions(api, subreddit);
    var f := SubmissionRecordsOf(subreddit);
    ScrapeResultIsPrefix(api, subreddit);
    FlatMapMember(f, subs, p);
    var j :| 0 <= j < |subs| && p in f(subs[j]);
    CommentRecordsName(subreddit, subs[j], subs[j].comments, p);
  }

  /** Every collected record names one of the subreddits that were scraped. */
  lemma CollectAllNames(api: RedditApi, subreddits: seq<string>, p: PostRecord)
    requires p in CollectAll(api, subreddits)
    ensures p.subreddit in subreddits
  {
    FlatMapMember(ScrapeResultOf(api), subreddits, p);
    var i :| 0 <= i < |subreddits| && p in ScrapeResultOf(api)(subreddits[i]);
    ScrapeResultName(api, subreddits[i], p);
  }
}
