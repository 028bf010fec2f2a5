# Keyword-driven media monitoring, modelled in Dafny

`app_gui.py` is a Streamlit page with two pipelines. Both start from one
comma-separated keyword box.

**Reddit run.** It first checks that the three API credentials are filled in.
It then splits the keywords and searches all of Reddit for each keyword
(newest, past hour, 10 results). The subreddit names of the results are
gathered into a set, and the subreddits that resolve, are not over 18 and
have a display name are kept, in list order. The run then scrapes each kept
subreddit. For each of the subreddit's five newest submissions it appends
one record per comment to the module-level `posts` list. An exception while
scraping one subreddit is caught and turned into a warning. The records
appended before it stay, and the remaining subreddits are still scraped.

**HackerNews run.** It splits the keywords and sends one search request per
keyword to the Algolia endpoint. For every response with status 200 it
appends one record per hit to `final_news_data`. Each record takes
placeholder texts for missing fields, the matched words joined by `", "`,
and the highlighted title with its `<em>`/`</em>` tags removed.

Both runs end in a table or a warning.

The model keeps the source's form:

- The keyword loop, the nested search loop, the scraping loops, the hit loop
  and the per-keyword request loop are methods with loop invariants.
- `posts` and `final_news_data` are fields of the classes `PostStore` and
  `NewsStore`. The methods that append to them are proved against
  specification functions (`ScrapeResult`, `CollectAll`, `Extracted`,
  `Collected`).
- The pure parts are functions: the subreddit check, the filter, the field
  lookups, the tag removal and the URL.
- The Reddit API and the search service are given as data.

Files:

- `common.dfy`: `Option`, a generic `FlatMap` with its lemmas, and
  `ListOfSet` (Python's `list(set)`).
- `keywords.dfy`: `split(",")`, `sep.join` and the keyword loop.
- `reddit_data.dfy`: the API as data and the Reddit specification functions
  and lemmas.
- `reddit_flow.dfy`: `search_subreddits`, the `posts` store with
  `scrape_subreddit`, and the run.
- `news_extract.dfy`: the typed view of a search response, the tag
  removal, and `extract_news_data`.
- `news_flow.dfy`: the request URL, the `final_news_data` store with the
  per-keyword loop, and the run.

The model follows the code where a cleaner behaviour might be expected:

- Keywords are not trimmed, and empty or duplicate pieces are kept.
- The keyword goes into the URL unencoded.
- A title, date, author or URL that is present but JSON `null` is copied
  into the record as `null`. It is not replaced by the placeholder.
- Only a missing `hits` key is caught, and it empties the whole batch. A
  malformed highlight structure is not replaced by placeholders. Most
  malformed shapes raise an uncaught error; the few that do not are listed
  under "Left out".

## Model

| member | source | states |
|---|---|---|
| Keywords.Split | app_gui.py:40 | splitting always gives at least one piece, even for empty input |
| Keywords.SplitCount | app_gui.py:40 | the number of pieces is the number of commas plus one |
| Keywords.SplitPiecesHaveNoSeparator | app_gui.py:40 | no piece contains a comma |
| Keywords.JoinSplit | app_gui.py:40 | joining the pieces with "," gives back the input exactly: nothing is trimmed or dropped |
| Keywords.SplitNoSeparator | app_gui.py:40 | text without a comma is one keyword |
| Keywords.SplitAppendPiece | app_gui.py:40 | a comma followed by comma-free text adds exactly that text as the last piece |
| Keywords.SplitJoin | app_gui.py:40 | comma-free pieces, including empty and repeated ones, come back in order from their join |
| Keywords.ParseKeywords | app_gui.py:39-41 | the keyword list is the split of the input: commas + 1 pieces, comma-free, joining back to the input |
| RedditData.DiscoveredMembers | app_gui.py:48-51 | a name is gathered iff the first 10 search results of some keyword contain it |
| RedditFlow.SearchSubreddits | app_gui.py:46-52 | the returned list has no duplicates, and its members are exactly the names gathered over all keywords |
| Common.ListOfSet | app_gui.py:52 | the list holds every element of the set exactly once |
| RedditData.IsValidSubredditMeaning | app_gui.py:54-60 | a subreddit is valid iff it resolves, is not over 18 and has a display name; a failed resolution is invalid |
| RedditData.ValidSubreddits | app_gui.py:83 | the kept names are exactly the valid names of the found list; a duplicate-free list stays duplicate-free; when all are valid, nothing is dropped |
| RedditData.ValidSubredditsAppend | app_gui.py:83 | filtering distributes over concatenation, so the order of the found list is kept |
| RedditData.ValidSubredditsDependsOnLookups | app_gui.py:54-83 | each name is judged on its own lookup: two APIs that resolve the found names alike keep the same list |
| RedditData.CommentRecordsLength | app_gui.py:67-77 | one record per comment of a submission |
| RedditData.CommentRecordsAt | app_gui.py:67-77 | record k is the record of comment k |
| RedditData.SubredditRecordsLength | app_gui.py:65-77 | a subreddit gives as many records as its submissions have comments |
| RedditData.SubredditRecordsAppend | app_gui.py:65-77 | the records of consecutive submissions are consecutive (submission order) |
| RedditData.SubredditRecordAt | app_gui.py:65-77 | comment k of submission j gives the record at (comments of the earlier submissions) + k; it copies title, url, score, created and selftext from the submission, names the subreddit, and has author "Unknown" exactly when the comment has no author (or an author of that name) |
| RedditData.ScrapeResultIsPrefix | app_gui.py:64-79 | what one call leaves in `posts` is a prefix of all the subreddit's records |
| RedditData.ScrapeResultWhenFailing | app_gui.py:64-79 | an exception raised once some records are appended leaves exactly those records |
| RedditData.ScrapeResultWhenComplete | app_gui.py:64-77 | without an exception, all of the subreddit's records stay |
| RedditData.CollectAllDependsOnListings | app_gui.py:89-90 | the collected records depend only on the listings of the subreddits scraped |
| RedditData.FailureIsolation | app_gui.py:78-90 | whatever one subreddit does, failing part way or at once, the subreddits before and after it contribute exactly what they would have, in place |
| RedditData.ScrapeResultName | app_gui.py:73 | every record one call appends names the subreddit being scraped |
| RedditData.CollectAllNames | app_gui.py:89-90 | every collected record names one of the subreddits scraped |
| RedditData.FailedSubreddits | app_gui.py:78-90 | no more warnings than subreddits scraped |
| RedditData.FailedSubredditsMembers | app_gui.py:78-90 | a warning is shown for a subreddit iff it is scraped and its scrape raises |
| RedditData.ScrapeStep | app_gui.py:89-90 | one more subreddit appends its records and, if its scrape raised, its warning |
| RedditFlow.PostStore.constructor | app_gui.py:14 | `posts` starts empty |
| RedditFlow.PostStore.ScrapeSubreddit | app_gui.py:62-79 | `posts` grows by exactly the records the call leaves, and the warning is given iff the listing raises |
| RedditFlow.PostStore.ScrapeAll | app_gui.py:78-90 | `posts` grows by the results of every subreddit, in list order; the warnings are exactly the failed subreddits, in order |
| RedditFlow.RunReddit | app_gui.py:27-114 | missing credentials: the error, with an empty valid list. Otherwise the valid list is duplicate-free and holds exactly the discovered valid subreddits. An empty valid list warns. Empty collected records warn. Else the table is the collected records, each from a valid subreddit. A scraping warning is shown exactly for the valid subreddits whose scrape raises |
| NewsExtract.RemoveAll | app_gui.py:137 | removing a tag never lengthens the text |
| NewsExtract.RemoveAllKeepsPlainText | app_gui.py:137 | text without `<` passes through the removal unchanged |
| NewsExtract.RemoveAllDropsPattern | app_gui.py:137 | a tag where the scan stands is dropped whole |
| NewsExtract.RemoveOpenKeepsClose | app_gui.py:137 | removing `<em>` leaves `</em>` alone |
| NewsExtract.OpenPassTagged | app_gui.py:137 | the `<em>` pass on one tagged word drops the opening tag and keeps the word and its closing tag |
| NewsExtract.OpenPass | app_gui.py:137 | the `<em>` pass on a highlighted title leaves only the closing tags |
| NewsExtract.ClosePass | app_gui.py:137 | the `</em>` pass then leaves the plain title |
| NewsExtract.StripEmUndoesHighlighting | app_gui.py:137 | a highlighted title whose text has no `<` comes back as the plain title |
| NewsExtract.RemoveAllWithoutOccurrence | app_gui.py:137 | text in which the tag never occurs passes through the removal unchanged, whatever characters it holds |
| NewsExtract.StripEmWithoutTags | app_gui.py:137 | a title holding neither `<em>` nor `</em>` is kept as it is, `<` included |
| NewsExtract.StripEmIsSinglePass | app_gui.py:137 | each tag is removed in one pass: `<<em>em>` becomes `<em>` |
| Keywords.JoinWords | app_gui.py:143 | no words give "", one word gives that word |
| NewsExtract.SplitJoinedWords | app_gui.py:143 | splitting the joined matched words on "," gives the words back, each after the first with a leading space |
| NewsExtract.HitRecord | app_gui.py:131-134 | a missing title, date, author or url becomes its placeholder; a present one, null included, is copied unchanged |
| NewsExtract.HitRecordHighlight | app_gui.py:136-137 | a highlight missing at any level gives an empty text and keyword cell; present matched words are joined with ", " |
| NewsExtract.HitRecordText | app_gui.py:137 | a highlighted title without `<` gives the plain title as the text cell |
| NewsExtract.HitRecordNulls | app_gui.py:131-134 | a record field is null iff the hit holds null there |
| NewsExtract.Extracted | app_gui.py:127-149 | a missing `hits` gives no records; otherwise one record per hit |
| NewsExtract.ExtractedInOrder | app_gui.py:130-146 | record i is the record of hit i |
| NewsExtract.ExtractedMembers | app_gui.py:130-146 | a record is extracted iff it is the record of some hit |
| NewsExtract.ExtractNewsData | app_gui.py:127-149 | the loop returns exactly the extracted records |
| NewsFlow.RequestUrlParts | app_gui.py:153 | the URL is the fixed endpoint followed by the raw keyword, unencoded and untrimmed |
| NewsFlow.RequestUrlInjective | app_gui.py:153 | different keywords give different URL strings (before `requests` re-quotes them) |
| NewsFlow.FailedKeywords | app_gui.py:159-160 | no more failure messages than keywords |
| NewsFlow.FailedKeywordsMembers | app_gui.py:156-160 | a failure message is given for a keyword iff its status is not 200 |
| NewsFlow.CollectedMembers | app_gui.py:152-158 | a record is collected iff it comes from a hit of a status-200 response to one of the keywords |
| NewsFlow.SkipsFailedKeyword | app_gui.py:156-160 | a non-200 keyword contributes nothing, and the keywords after it are still collected |
| NewsFlow.RepeatedKeyword | app_gui.py:152-158 | results are not deduplicated: a repeated keyword is collected twice |
| NewsFlow.CollectStep | app_gui.py:152-160 | one more keyword appends its news and, if it failed, its name |
| NewsFlow.NewsStore.constructor | app_gui.py:15 | `final_news_data` starts empty |
| NewsFlow.NewsStore.CollectNews | app_gui.py:152-160 | `final_news_data` grows by the news of every keyword, in keyword order; failures are reported in order |
| NewsFlow.RunHackerNews | app_gui.py:120-181 | warns iff nothing was collected. Otherwise the table is the collected records. Failure messages are given exactly for the keywords whose status is not 200, once per occurrence, in keyword order |

## Left out

- The Streamlit UI is left out: the sidebar, text inputs, buttons, messages, table display and download button. The end of each run is an outcome value.
- The PRAW client is left out. Search results, subreddit lookups and listings are given as maps.
  - The search options (newest, past hour) are whatever the given results already reflect.
  - The limits 10 and 5 are taken as prefixes.
  - `replace_more(limit=0)` fetches nothing. Each submission's flattened comment list is given.
- Where a scrape raises is given as a position in the subreddit's records. Exception kinds and messages are not modelled.
- A search that raises is not modelled. The source does not catch it in `search_subreddits`.
- `requests` re-quotes the URL it is given and cuts it at a `#`. Neither is modelled, so two different keywords can still reach the service as one query, although their URL strings differ.
- The service is taken to answer the same URL the same way within a run: it is a function of the URL. `RepeatedKeyword`, `FailedKeywordsMembers` and the run rely on this.
- `requests.get` and `response.json()` are left out. A response is a status and a decoded body. The source does not catch network errors or undecodable bodies, and neither is modelled.
- Nulls inside the highlight structure are not modelled, nor a non-object highlight structure. Nor are a null `hits`, a `hits` that is not a list, or a hit that is not an object. Most of these raise an uncaught error in the source. Two do not: a string or object `matchedWords` is joined character by character or key by key, and an empty-string or empty-object `hits` gives no records. None of these inputs is modelled. Title, date, author and url values are modelled as null or text only.
- pandas, the Excel and CSV export, and reading the file back are left out.
- The text of the scraping warning (the exception message) is left out. The warnings are kept as the list of subreddits they are shown for.
- `print` is left out. The HackerNews failure messages are kept as the list of failed keywords.
- `score` and `created_utc` are copied as opaque values. No arithmetic is done on them.
- `list(set)` gives an unspecified order. `ListOfSet` may return any order, and the run is proved for every order.
- `posts` and `final_news_data` are re-created on each rerun of the script. The model starts each run with a fresh store.
- RemoveAll: its own contract gives only the length bound. The removal itself is stated by the lemmas that follow it.
- JoinWords: its own contract covers only the empty and one-word cases. The whole join is stated through `SplitJoinedWords`.
- FailedKeywords: its own contract gives only the count bound. Its members are stated by `FailedKeywordsMembers`.
