/**
  The processed-link state of `NewsScraper`: filtering a feed's entries
  against the links already processed, the title-similarity duplicate test,
  the accept/reject rules for one article, and the batch loop.

  Fetching the feed, scraping a page and asking the language model for a
  summary happen outside the model: their outcomes are inputs.
*/
module News {
  import opened Wrappers
  import opened Strings
  import opened Similarity
  import opened Links

  /** Only this many feed entries are considered. */
  const MaxEntries: nat := 10

  /** Summaries containing either marker are rejected. */
  const NotRelevantMarker: string := "NOT_RELEVANT_TO_PROCUREMENT"
  const InsufficientMarker: string := "INSUFFICIENT_DETAILS"

  /** What the summarizer returns when the model call fails. */
  const SummaryFailure: string := "요약 실패"

  /** A parsed feed entry; each field is None when the entry lacks it. */
  datatype FeedEntry = FeedEntry(
    title: Option<string>,
    link: Option<string>,
    sourceTitle: Option<string>,
    published: Option<string>)

  datatype FeedArticle = FeedArticle(
    title: string, link: string, source: string, published: string, language: string, region: string)

  datatype ProcessedArticle = ProcessedArticle(
    title: string, link: string, source: string, published: string, language: string, region: string,
    summary: string, processedAt: int)

  /**
    What the outside world answers while one article is processed: the
    scraped text (None when scraping failed or found nothing), the summary
    the model would give for it, and the clock.
  */
  datatype Reply = Reply(scraped: Option<string>, summary: string, clock: int)

  // ---------------------------------------------------------------- feed filter

  /** An entry as an article record, with "" and "Unknown" for missing fields. */
  function ToArticle(e: FeedEntry, lang: string, region: string): FeedArticle {
    FeedArticle(e.title.GetOr(""), e.link.GetOr(""), e.sourceTitle.GetOr("Unknown"),
                e.published.GetOr(""), lang, region)
  }

  /** The articles of `entries` whose link has not been processed, in feed order. */
  function Unprocessed(entries: seq<FeedEntry>, processed: set<string>, lang: string, region: string)
    : (r: seq<FeedArticle>)
    ensures |r| <= |entries|
    ensures forall a :: a in r <==>
              (exists i :: 0 <= i < |entries| && a == ToArticle(entries[i], lang, region)) && a.link !in processed
    decreases |entries|
  {
    if entries == [] then []
    else
      var init := entries[..|entries| - 1];
      var a := ToArticle(entries[|entries| - 1], lang, region);
      var r := Unprocessed(init, processed, lang, region) + if a.link !in processed then [a] else [];
      assert forall i :: 0 <= i < |init| ==> init[i] == entries[i];
      r
  }

  lemma UnprocessedSnoc(entries: seq<FeedEntry>, e: FeedEntry, processed: set<string>, lang: string, region: string)
    ensures Unprocessed(entries + [e], processed, lang, region) ==
      Unprocessed(entries, processed, lang, region) + if ToArticle(e, lang, region).link !in processed then [ToArticle(e, lang, region)] else []
  {
    assert (entries + [e])[..|entries|] == entries;
  }

  /** The filter keeps feed order: a prefix of the entries yields a prefix of the articles. */
  lemma {:induction false} UnprocessedPrefix(entries: seq<FeedEntry>, n: nat, processed: set<string>, lang: string, region: string)
    requires n <= |entries|
    ensures Unprocessed(entries[..n], processed, lang, region) <= Unprocessed(entries, processed, lang, region)
    decreases |entries|
  {
    if n < |entries| {
      assert entries[..|entries| - 1][..n] == entries[..n];
      UnprocessedPrefix(entries[..|entries| - 1], n, processed, lang, region);
    } else {
      assert entries[..n] == entries;
    }
  }

  // ---------------------------------------------------------------- title duplicates

  /**
    A title is a duplicate when some existing title is at least `threshold`
    similar to it after lower-casing both; never for an empty list.
  */
  function IsDuplicateByTitle(ratio: Scorer, title: string, existing: seq<string>, threshold: real): (r: bool)
    ensures existing == [] ==> !r
    ensures r <==> exists i :: 0 <= i < |existing| && Similar(ratio, title, existing[i], threshold)
  {
    if existing == [] then false
    else if Similar(ratio, title, existing[0], threshold) then true
    else
      assert forall i :: 1 <= i < |existing| ==> existing[1..][i - 1] == existing[i];
      IsDuplicateByTitle(ratio, title, existing[1..], threshold)
  }

  // ---------------------------------------------------------------- one article

  /** Only the two procurement markers reject a summary, wherever they occur in it. */
  predicate Rejects(summary: string) {
    Contains(summary, NotRelevantMarker) || Contains(summary, InsufficientMarker)
  }

  /**
    The plain "NOT_RELEVANT" answer the prompt asks the model for, and the
    text that stands for a failed model call, enclose neither marker: both
    are accepted as summaries.
  */
  lemma ShortAnswersAreNotRejected()
    ensures !Rejects("NOT_RELEVANT")
    ensures !Rejects(SummaryFailure)
  {
  }

  /**
    The result of processing one article against the processed links: None
    when its link was processed already, when the scraped text is missing or
    empty, or when the summary carries a rejection marker; otherwise the
    article's fields with the summary added.
  */
  function Outcome(processed: set<string>, article: FeedArticle, reply: Reply): (r: Option<ProcessedArticle>)
    ensures r.Some? <==>
      && article.link !in processed
      && reply.scraped.Some? && reply.scraped.value != ""
      && !Rejects(reply.summary)
    ensures r.Some? ==> r.value == ProcessedArticle(
      article.title, article.link, article.source, article.published, article.language, article.region,
      reply.summary, reply.clock)
  {
    if article.link in processed then None
    else if reply.scraped.None? || reply.scraped.value == "" then None
    else if Rejects(reply.summary) then None
    else Some(ProcessedArticle(article.title, article.link, article.source, article.published,
                               article.language, article.region, reply.summary, reply.clock))
  }

  function ResultLink(p: ProcessedArticle): string {
    p.link
  }

  function LinksOf(results: seq<ProcessedArticle>): set<string> {
    LinksBy(results, ResultLink)
  }

  // ---------------------------------------------------------------- the batch

  /**
    The results of a batch, in input order, starting from the processed
    links `processed`: each article is processed against the links processed
    before it, including those accepted earlier in the batch.
  */
  function Batch(processed: set<string>, articles: seq<FeedArticle>, replies: seq<Reply>): seq<ProcessedArticle>
    requires |replies| == |articles|
    decreases |articles|
  {
    if articles == [] then []
    else
      var n := |articles| - 1;
      var prev := Batch(processed, articles[..n], replies[..n]);
      match Outcome(processed + LinksOf(prev), articles[n], replies[n])
      case None => prev
      case Some(p) => prev + [p]
  }

  /** The batch up to `i` extends the batch up to `i - 1` by the `i`-th article's outcome. */
  lemma BatchStep(processed: set<string>, articles: seq<FeedArticle>, replies: seq<Reply>, i: nat)
    requires |replies| == |articles| && i < |articles|
    ensures Batch(processed, articles[..i + 1], replies[..i + 1]) ==
      var prev := Batch(processed, articles[..i], replies[..i]);
      match Outcome(processed + LinksOf(prev), articles[i], replies[i])
      case None => prev
      case Some(p) => prev + [p]
  {
    assert articles[..i + 1][..i] == articles[..i];
    assert replies[..i + 1][..i] == replies[..i];
  }

  /**
    A batch yields at most one result per article and per link, never for a
    link processed before it, and each result carries the link and the
    summary of one of its articles.
  */
  lemma {:induction false} BatchFresh(processed: set<string>, articles: seq<FeedArticle>, replies: seq<Reply>)
    requires |replies| == |articles|
    ensures |Batch(processed, articles, replies)| <= |articles|
    ensures forall i :: 0 <= i < |Batch(processed, articles, replies)| ==>
              Batch(processed, articles, replies)[i].link !in processed
    ensures forall i, j :: 0 <= i < j < |Batch(processed, articles, replies)| ==>
              Batch(processed, articles, replies)[i].link != Batch(processed, articles, replies)[j].link
    ensures forall p :: p in Batch(processed, articles, replies) ==>
              exists k :: 0 <= k < |articles| && p.link == articles[k].link && p.summary == replies[k].summary
    decreases |articles|
  {
    if articles != [] {
      var n := |articles| - 1;
      var prev := Batch(processed, articles[..n], replies[..n]);
      BatchFresh(processed, articles[..n], replies[..n]);
      match Outcome(processed + LinksOf(prev), articles[n], replies[n])
      case None =>
        forall p | p in prev
          ensures exists k :: 0 <= k < |articles| && p.link == articles[k].link && p.summary == replies[k].summary
        {
          var k :| 0 <= k < n && p.link == articles[..n][k].link && p.summary == replies[..n][k].summary;
          assert articles[..n][k] == articles[k] && replies[..n][k] == replies[k];
        }
      case Some(q) =>
        var r := prev + [q];
        forall i | 0 <= i < |prev| ensures r[i].link != q.link {
          assert prev[i].link in LinksOf(prev);
        }
        forall p | p in r
          ensures exists k :: 0 <= k < |articles| && p.link == articles[k].link && p.summary == replies[k].summary
        {
          if p in prev {
            var k :| 0 <= k < n && p.link == articles[..n][k].link && p.summary == replies[..n][k].summary;
            assert articles[..n][k] == articles[k] && replies[..n][k] == replies[k];
          } else {
            assert p == q;
          }
        }
    }
  }

  /** `p` is the accepted outcome of the `k`-th article at its turn in the batch. */
  predicate AcceptedAt(processed: set<string>, articles: seq<FeedArticle>, replies: seq<Reply>, k: nat, p: ProcessedArticle) {
    && |replies| == |articles| && k < |articles|
    && Outcome(processed + LinksOf(Batch(processed, articles[..k], replies[..k])), articles[k], replies[k]) == Some(p)
  }

  /** Acceptance at a turn does not depend on the articles after it. */
  lemma AcceptedAtExtends(processed: set<string>, articles: seq<FeedArticle>, replies: seq<Reply>, n: nat, k: nat, p: ProcessedArticle)
    requires |replies| == |articles| && n <= |articles|
    requires AcceptedAt(processed, articles[..n], replies[..n], k, p)
    ensures AcceptedAt(processed, articles, replies, k, p)
  {
    assert articles[..n][..k] == articles[..k] && replies[..n][..k] == replies[..k];
    assert articles[..n][k] == articles[k] && replies[..n][k] == replies[k];
  }

  /** Every result is the accepted outcome of one article at its turn in the batch. */
  lemma {:induction false} BatchSound(processed: set<string>, articles: seq<FeedArticle>, replies: seq<Reply>)
    requires |replies| == |articles|
    ensures forall p :: p in Batch(processed, articles, replies) ==>
              exists k: nat :: AcceptedAt(processed, articles, replies, k, p)
    decreases |articles|
  {
    if articles != [] {
      var n := |articles| - 1;
      var prev := Batch(processed, articles[..n], replies[..n]);
      BatchSound(processed, articles[..n], replies[..n]);
      forall p | p in Batch(processed, articles, replies)
        ensures exists k: nat :: AcceptedAt(processed, articles, replies, k, p)
      {
        if p in prev {
          var k: nat :| AcceptedAt(processed, articles[..n], replies[..n], k, p);
          AcceptedAtExtends(processed, articles, replies, n, k, p);
        } else {
          assert AcceptedAt(processed, articles, replies, n, p);
        }
      }
    }
  }

  /** An article accepted at its turn yields its result in the batch: the converse of `BatchSound`. */
  lemma BatchComplete(processed: set<string>, articles: seq<FeedArticle>, replies: seq<Reply>, j: nat, p: ProcessedArticle)
    requires AcceptedAt(processed, articles, replies, j, p)
    ensures p in Batch(processed, articles, replies)
  {
    BatchStep(processed, articles, replies, j);
    BatchPrefix(processed, articles, replies, j + 1);
    var b := Batch(processed, articles[..j + 1], replies[..j + 1]);
    assert b[|b| - 1] == p;
  }

  /** The results of a prefix of the batch are a prefix of the batch's results. */
  lemma {:induction false} BatchPrefix(processed: set<string>, articles: seq<FeedArticle>, replies: seq<Reply>, m: nat)
    requires |replies| == |articles| && m <= |articles|
    ensures Batch(processed, articles[..m], replies[..m]) <= Batch(processed, articles, replies)
    decreases |articles|
  {
    var n := |articles| - 1;
    if m <= n {
      assert articles[..n][..m] == articles[..m];
      assert replies[..n][..m] == replies[..m];
      BatchPrefix(processed, articles[..n], replies[..n], m);
    } else {
      assert articles[..m] == articles && replies[..m] == replies;
    }
  }

  class NewsScraper {
    /** The links of every article accepted so far. */
    var processedUrls: set<string>

    constructor ()
      ensures processedUrls == {}
    {
      processedUrls := {};
    }

    /**
      `fetch_rss_feed` after parsing: of the first ten entries, the articles
      whose link is not processed yet, in feed order. Nothing is recorded.
    */
    method FetchRssFeed(entries: seq<FeedEntry>, lang: string, region: string) returns (articles: seq<FeedArticle>)
      ensures articles == Unprocessed(entries[..if |entries| <= MaxEntries then |entries| else MaxEntries],
                                      processedUrls, lang, region)
      ensures |articles| <= MaxEntries
      ensures forall a :: a in articles ==> a.link !in processedUrls
    {
      var n := if |entries| <= MaxEntries then |entries| else MaxEntries;
      articles := [];
      var i := 0;
      while i < n
        invariant 0 <= i <= n
        invariant articles == Unprocessed(entries[..i], processedUrls, lang, region)
      {
        var a := ToArticle(entries[i], lang, region);
        assert entries[..i + 1] == entries[..i] + [entries[i]];
        UnprocessedSnoc(entries[..i], entries[i], processedUrls, lang, region);
        if a.link !in processedUrls {
          articles := articles + [a];
        }
        i := i + 1;
      }
    }

    /**
      `process_article`: accepts the article, recording its link, exactly
      when `Outcome` says so; the processed links are unchanged otherwise.
    */
    method ProcessArticle(article: FeedArticle, reply: Reply) returns (result: Option<ProcessedArticle>)
      modifies this
      ensures result == Outcome(old(processedUrls), article, reply)
      ensures processedUrls == if result.Some? then old(processedUrls) + {article.link} else old(processedUrls)
    {
      if article.link in processedUrls {
        return None;
      }
      if reply.scraped.None? || reply.scraped.value == "" {
        return None;
      }
      var summary := reply.summary;
      if Contains(summary, NotRelevantMarker) || Contains(summary, InsufficientMarker) {
        return None;
      }
      processedUrls := processedUrls + {article.link};
      result := Some(ProcessedArticle(article.title, article.link, article.source, article.published,
                                      article.language, article.region, summary, reply.clock));
    }

    /** `process_articles_batch`: the accepted results, in input order. */
    method ProcessArticlesBatch(articles: seq<FeedArticle>, replies: seq<Reply>) returns (processed: seq<ProcessedArticle>)
      requires |replies| == |articles|
      modifies this
      ensures processed == Batch(old(processedUrls), articles, replies)
      ensures processedUrls == old(processedUrls) + LinksOf(processed)
    {
      ghost var start := processedUrls;
      processed := [];
      var i := 0;
      while i < |articles|
        invariant 0 <= i <= |articles|
        invariant processed == Batch(start, articles[..i], replies[..i])
        invariant processedUrls == start + LinksOf(processed)
      {
        BatchStep(start, articles, replies, i);
        var result := ProcessArticle(articles[i], replies[i]);
        assert result == Outcome(start + LinksOf(processed), articles[i], replies[i]);
        if result.Some? {
          LinksByAppend(processed, result.value, ResultLink);
          processed := processed + [result.value];
        }
        i := i + 1;
      }
      assert articles[..i] == articles && replies[..i] == replies;
    }
  }
}
