# Samsung sourcing news pipeline — verified model

This project models the logic of four core classes of the sourcing-news app.
`WebCrawler` (crawler.py) scrapes supplier news sites. `Deduplicator`
(deduplicator.py) keeps the history of saved articles. `NewsScraper`
(news_scraper.py) filters Google News feed entries and processes articles.
`Categorizer` (categorizer.py) parses the language model's category answer.
The model is written in Dafny and its properties are proved.

- `Crawler` covers the keyword gate on titles and the fallback from the site's
  container selector to the generic selectors. It also covers the title and
  link fallback chains, the joining of relative links to the site URL, and
  the crawler's set of processed links. `WebCrawler` is a class whose
  `processedUrls` field is updated in place, as in the source.
- `Dedup` covers the duplicate test (same link, or a title at least 50 %
  similar) and the batch save that appends to the in-memory history. It also
  covers the age-based clean-up, which aborts on an unparseable timestamp and
  leaves a history with nothing to remove unchanged. `Deduplicator` holds the
  history as a `seq` field.
- `News` covers the first-ten-entries feed filter and the title-similarity
  test. It also covers the accept/reject rules of `process_article` and the
  batch loop, with `NewsScraper.processedUrls` as a mutable set.
- `Categorizer` covers the parse of `answer.split("카테고리:")[1]`: strip,
  split on commas, strip each item, keep exact category names, and fall back
  to "Components".
- `Strings` and `Similarity` model the Python string operations used. They
  are `in`, `lower`, `startswith`, `strip`, `rstrip('/')` and `split`, plus
  the similarity test `ratio(a.lower(), b.lower()) >= threshold`. The search
  for the first occurrence of a marker, which `split` performs, is
  `Strings.IndexOf`.
- Everything outside the process is an input to the operations. This covers
  HTML pages, feed entries, the clock, the scraped text, the model's replies
  and difflib's score.

Points of the code's behaviour that the model follows closely:

- The generic container selectors are tried only when the site's own
  selector matches nothing. Among the fallbacks, more than three matches is
  only the condition for stopping the search (crawler.py:104-114).
- Relative links are joined to the whole configured `url` with its trailing
  slashes removed, not to its scheme and host (crawler.py:165-171).
- A configured title element is accepted at ten characters or more. Anchor
  and heading texts must be longer than ten (crawler.py:127-143).
- The duplicate test compares links exactly and titles by similarity only.
  It computes no content hash and collapses no whitespace
  (deduplicator.py:47-70).

## Model

| member | source | states |
|---|---|---|
| Crawler.FindKeyword | crawler.py:67-77 | finds a keyword exactly when some keyword of the list occurs in the text; what it returns is a listed keyword that occurs |
| Crawler.IsValidArticle | crawler.py:58-79 | a title passes iff its lower-cased text contains no exclude keyword and at least one include keyword, both by substring |
| Crawler.TaiwanIsRejected | crawler.py:64-70 | "Taiwan chip exports" contains the include keyword "chip", yet it is rejected because "ai" occurs inside "Taiwan" |
| Crawler.Cascade | crawler.py:110-114 | the result is the first fallback match list with more than three elements; if there is none, the last list tried, or the incoming list when there are no fallbacks |
| Crawler.SelectContainers | crawler.py:101-114 | the loop gives the site's own matches when non-empty, else the cascade over the fallback selectors |
| Crawler.Examined | crawler.py:93-121 | no containers unless the status is 200; otherwise the prefix of the selected containers of length min(their number, 100) |
| Crawler.FirstLongText | crawler.py:130-141 | some text is found iff a text longer than ten characters exists; it is the first such text |
| Crawler.ResolveTitle | crawler.py:124-141 | the configured title element's text when present; else the first anchor text longer than ten when there is one, else the first such heading text; no title only when all those texts are at most ten characters |
| Crawler.FirstHref | crawler.py:157-160 | finds an href iff some anchor has a non-empty href; it is the first such anchor's href |
| Crawler.ResolveLink | crawler.py:151-163 | a resolved link is never empty; the configured element's non-empty href wins, otherwise the result is the first anchor's non-empty href; there is no link iff neither source gives one |
| Crawler.StripKeepsScheme | crawler.py:167 | removing trailing slashes from a URL starting with "http" keeps that prefix |
| Crawler.JoinUrl | crawler.py:165-171 | the joined link ends with the raw link; a link starting with "http" is kept as it is; under an "http" site URL every joined link starts with "http" |
| Crawler.JoinUnderBase | crawler.py:166-170 | a link starting with "/" is the site URL without trailing slashes followed by the link; another link not starting with "http" is that base, one slash and the link |
| Crawler.JoinIdempotent | crawler.py:165-171 | for a site URL starting with "http", joining an already joined link changes nothing |
| Crawler.JoinNotIdempotentForRelativeBase | crawler.py:169-171 | for the site URL "news", joining "item" twice nests the base: "news/news/item" |
| Crawler.CandidateSpec | crawler.py:123-186 | a container yields an article iff its title resolves with at least ten characters, passes the keyword gate, and a link resolves; the article's title is the resolved title, its link the resolved link joined to the site URL, and it carries the site's name and categories |
| Crawler.ExtractedFresh | crawler.py:121-188 | at most one article per container; no extracted link was processed before; no two extracted articles share a link |
| Crawler.ExtractedSound | crawler.py:121-188 | every extracted article is the candidate of one of the containers |
| Crawler.ExtractedComplete | crawler.py:173-177 | every container's candidate link ends up among the processed links, either already there or newly extracted |
| Crawler.ExtractedPrefix | crawler.py:121-188 | extraction keeps container order: a prefix of the containers yields a prefix of the articles |
| Crawler.AllExtractedFresh | crawler.py:201-221 | across all sites, each extracted against the links seen before it, no article reuses a link seen before and no two articles share a link |
| Crawler.WebCrawler.ExtractArticles | crawler.py:121-192 | the loop returns exactly the extraction of the containers against the processed set at entry; the set grows by exactly the returned links |
| Crawler.WebCrawler.CrawlWebsite | crawler.py:81-199 | the articles are the extraction of the examined containers; the processed set grows by their links; there are at most 100 |
| Crawler.WebCrawler.CrawlAllWebsites | crawler.py:201-221 | the result is the site-by-site extraction of the jobs, each against the links processed before it; it never repeats a link or reuses one processed before; the processed set grows by exactly its links |
| Similarity.SimilarIgnoresCase | deduplicator.py:32-45 | the similarity test ignores case: lower-casing the titles first does not change it |
| Similarity.SimilarThresholds | deduplicator.py:32-45 | the test compares the score of the lower-cased titles with the threshold inclusively: a score equal to the threshold is similar, similarity at a threshold holds at every lower one, and at threshold zero always |
| Dedup.LinkSeen | deduplicator.py:58-62 | true iff some history record has exactly the article's link |
| Dedup.TitleSeen | deduplicator.py:64-68 | true iff some history title is at least 0.5 similar to the article's |
| Dedup.IsDuplicate | deduplicator.py:47-70 | a duplicate iff some record has the same link or a title at least half similar; never for an empty history |
| Dedup.SavedAreFresh | deduplicator.py:98-108 | each saved record was not a duplicate of the history plus the records saved before it; it is a batch article stamped with now; no more are saved than there are articles |
| Dedup.SavedComplete | deduplicator.py:98-108 | every batch article that is not a duplicate of the history plus the records saved before it is saved, stamped with now; with SavedAreFresh the saved records and their count are exactly the articles that pass at their turn |
| Dedup.SavedLinksDistinct | deduplicator.py:98-108 | no saved record repeats a history link, or the link of another record saved in the same batch |
| Dedup.SavedPrefix | deduplicator.py:98-108 | saving keeps batch order: a prefix of the batch saves a prefix of the records |
| Dedup.Kept | deduplicator.py:115-119 | pruning never lengthens the history |
| Dedup.KeptMembers | deduplicator.py:115-119 | a record survives pruning iff it is in the history and was saved after the cutoff, with a missing saved_at counting as now |
| Dedup.KeptConcat | deduplicator.py:115-119 | pruning preserves order: pruning a concatenation is the concatenation of the prunings |
| Dedup.KeptAllIsIdentity | deduplicator.py:121-128 | when pruning removes nothing, its result is the history itself, so keeping the old list is exact |
| Dedup.Deduplicator.SaveArticle | deduplicator.py:72-96 | writes a row iff the article is not a duplicate of the history; the row is the article stamped with now |
| Dedup.Deduplicator.SaveArticles | deduplicator.py:98-108 | the history grows by exactly the saved records of the batch, each checked against the history at its turn; the count is their number |
| Dedup.Deduplicator.CleanupOldArticles | deduplicator.py:110-131 | the history becomes its pruning when every timestamp parses and something is removed; it is unchanged when a timestamp fails to parse |
| News.Unprocessed | news_scraper.py:36-49 | an article is returned iff it comes from an entry, with defaults filled in, and its link is not processed; never more than the entries |
| News.UnprocessedPrefix | news_scraper.py:36-49 | the filter keeps feed order: a prefix of the entries yields a prefix of the articles |
| News.IsDuplicateByTitle | news_scraper.py:55-63 | true iff some existing title is at least `threshold` similar after lower-casing; never for an empty list |
| News.ShortAnswersAreNotRejected | news_scraper.py:126-127 | a summary that is just "NOT_RELEVANT" and the fallback "요약 실패" are both accepted, since neither contains a rejection marker |
| News.Outcome | news_scraper.py:113-140 | an article is accepted iff its link is new, the scraped text is present and non-empty, and the summary carries neither marker; the result copies the article's fields and adds the summary |
| News.BatchFresh | news_scraper.py:142-156 | at most one result per article; no result for a link processed before; results have distinct links; each carries the link and summary of some article |
| News.BatchSound | news_scraper.py:142-156 | every result is the accepted outcome of some article, processed against the links processed before the batch plus those accepted earlier in it |
| News.BatchComplete | news_scraper.py:142-156 | an article accepted at its turn has its result in the batch |
| News.BatchPrefix | news_scraper.py:142-156 | batch results keep input order: a prefix of the articles yields a prefix of the results |
| News.NewsScraper.FetchRssFeed | news_scraper.py:25-53 | returns the unprocessed articles of the first ten entries, at most ten, none processed; nothing is recorded |
| News.NewsScraper.ProcessArticle | news_scraper.py:113-140 | the result is the outcome against the processed links at entry; the link is recorded exactly when accepted |
| News.NewsScraper.ProcessArticlesBatch | news_scraper.py:142-156 | the results are the batch outcome in input order; the processed set grows by exactly their links |
| Categorizer.DefaultIsListed | categorizer.py:16-27 | the fallback "Components" is one of the ten category names |
| Categorizer.Segment | categorizer.py:71-72 | the text from the end of the first marker up to the next marker or the end of the answer; no marker starts inside it |
| Categorizer.StripAll | categorizer.py:74 | one stripped item per comma-separated piece, in order |
| Categorizer.KeepListed | categorizer.py:77-79 | a name is kept iff it is an item and one of the given names; never more than the items |
| Categorizer.KeepListedConcat | categorizer.py:77-79 | filtering keeps order and repeats: filtering a concatenation is the concatenation of the filterings |
| Categorizer.KeepListedKeepsAll | categorizer.py:77-79 | when every item is one of the given names, all of them are kept, in order and with repeats |
| Categorizer.Items | categorizer.py:71-74 | one item per comma-separated piece of the stripped segment, each piece stripped, at least one |
| Categorizer.ParseCategories | categorizer.py:69-83 | with the marker, the result is the listed items of the segment in order and with repeats, or ["Components"] when none is listed; without the marker it is ["Components"]; it is never empty and holds only category names |
| Categorizer.ParseKeepsListedItems | categorizer.py:74-79 | when all parsed items are category names, the result is exactly those items |
| Categorizer.SampleAnswer | categorizer.py:64-79 | the answer "카테고리: Semiconductors, Energy/Power" yields the items and the categories Semiconductors and Energy/Power |
| Categorizer.Categorize | categorizer.py:66-90 | the result is non-empty and holds only category names; a failed model call gives ["Components"] |
| Categorizer.IgnoresTextAfterSecondMarker | categorizer.py:72 | replacing everything after the second marker leaves the segment and the parsed categories unchanged |
| Strings.IndexOf | categorizer.py:71-72 | finds an index iff the marker occurs; the index is the first occurrence |
| Strings.SecondPiece | categorizer.py:72 | `s.split(k)[1]`: the text from the end of the first `k` up to the next `k` or the end; no `k` starts inside it |
| Strings.SecondPieceIgnoresTail | categorizer.py:72 | whatever follows the second `k` does not change `s.split(k)[1]` |
| Strings.StripShape | categorizer.py:72-74 | stripping removes only a whitespace prefix and a whitespace suffix: the result is a slice of the input with only spaces before and after it |
| Strings.JoinSplit | categorizer.py:74 | `split(',')` loses nothing: joining the pieces with commas gives back the text |

## Left out

- HTTP requests, `feedparser`, the RSS URL built from the query, and BeautifulSoup parsing are not modelled. A page is its status plus the containers each selector matched. A container is what the title, anchor, heading and link selectors found in it.
- The seven generic fallback selector strings are not modelled: fallbacks are a list of match lists, so any number of them can be given.
- Concurrency and `url_lock` are not modelled. `CrawlAllWebsites` runs the sites one after another, in the order the tasks finish, and a task is atomic per site. Interleavings of single links between sites are not reproduced: with sites A of links [L1, L2] and B of links [L2, L1] the source can give A [L1] and B [L2], which no order of whole sites gives.
- difflib's `SequenceMatcher.ratio` is a parameter: any scoring function into [0, 1].
- News.IsDuplicateByTitle: takes the threshold as a parameter. The source's default of 0.8 (news_scraper.py:55) is not built in, because nothing in the core calls the method.
- CSV reading and writing are not modelled. Loading is the constructor's argument. A record keeps only title, link and saved_at.
- Dates are integers in seconds. `datetime.fromisoformat` is reflected only as "parses" or "cannot parse". The clean-up uses one clock reading `now` where the source reads the clock once per missing timestamp.
- Dedup.Deduplicator.CleanupOldArticles: takes `days` as a parameter; the source's default of 30 (deduplicator.py:110) is not built in.
- Dedup.Deduplicator.CleanupOldArticles: always replaces the history when something is removed. In the source a failed rewrite of the file, for example `DictWriter` raising `ValueError` on a record with a key missing from `remaining[0]` (deduplicator.py:122-125), skips line 128 and leaves the history unchanged.
- `crawled_at` is not modelled; it is a clock reading with no effect on the logic.
- `scrape_article`'s 3000-character truncation and the model-reply `strip` are inside the scraped-text and summary inputs.
- The Gemini calls, the prompts, `time.sleep`, logging and `print` are not modelled.
- Strings.Lower: lower-cases ASCII letters only, not full Unicode case mapping.
- Per-element exception handlers are not modelled; no modelled operation can raise.
- Dedup.Deduplicator.SaveArticles: stamps the whole batch with one clock reading `now`, where the source reads the clock once per saved article.
- Dedup.Deduplicator.SaveArticle: leaves out the file write and models only whether a row is written and what it holds.
