/**
  The per-site extraction pipeline of `WebCrawler`: the keyword gate on
  titles, the container-selector fallback, the title and link fallback
  chains, relative-to-absolute link joining, and the crawler's set of
  processed links that is checked and extended once per accepted article.

  HTML parsing is abstracted: a page is the HTTP status plus the matches of
  the site's container selector and of each generic fallback selector, and
  a container is what the per-container selectors found inside it.
*/
module Crawler {
  import opened Wrappers
  import opened Strings
  import opened Links

  /** The crawler's exclude list: titles containing any of these (after lower-casing) are rejected. */
  const ExcludeKeywords: seq<string> := [
    "ai", "artificial intelligence", "llm", "chatgpt", "openai",
    "machine learning", "deep learning", "neural", "algorithm",
    "software", "cloud", "data center", "server",
    "cryptocurrency", "blockchain", "crypto",
    "startup", "investment", "funding", "venture"
  ]

  /** The crawler's include list: a title must contain one of these (after lower-casing). */
  const IncludeKeywords: seq<string> := [
    "semiconductor", "chip", "processor", "fab", "foundry", "tsmc", "samsung", "intel",
    "processor", "cpu", "gpu", "asic", "5nm", "3nm",
    "sensor", "display", "lcd", "oled", "capacitor", "resistor",
    "smartphone", "iphone", "android", "tablet", "smartwatch", "wearable",
    "battery", "power", "energy", "charging", "electric vehicle", "ev",
    "5g", "6g", "network", "wifi", "broadband", "telecom",
    "robot", "automation", "manufacturing",
    "photon", "quantum", "laser", "optical",
    "graphene", "nanotechnology", "material",
    "rare earth", "lithium", "cobalt", "mineral",
    "recycling", "e-waste", "circular economy", "sustainability"
  ]

  /** A kept title has at least this many characters; a fallback title needs more. */
  const MinTitleLength: nat := 10

  /** A generic fallback selector is used once it matches more than this many containers. */
  const MinFallbackMatches: nat := 3

  /** Only this many containers of a page are examined. */
  const MaxContainers: nat := 100

  /** The HTTP status of a listing page that is parsed at all. */
  const StatusOk: int := 200

  /** An `<a>` element of a container: its stripped text and its `href` attribute, if any. */
  datatype Anchor = Anchor(text: string, href: Option<string>)

  /**
    One article container: the stripped text of the element matched by the
    site's title selector (None when nothing matched), its anchors and its
    h1/h2/h3 texts in document order, and the `href` of the element matched
    by the site's link selector (None when nothing matched or it has none).
  */
  datatype Container = Container(
    configuredTitle: Option<string>,
    anchors: seq<Anchor>,
    headings: seq<string>,
    configuredHref: Option<string>)

  /**
    A fetched listing page: its status, the containers matched by the site's
    own selector, and the matches of each generic fallback selector, in the
    order in which they are tried.
  */
  datatype Page = Page(status: int, primary: seq<Container>, fallbacks: seq<seq<Container>>)

  /** The parts of a site's configuration that reach the extracted articles. */
  datatype SiteConfig = SiteConfig(name: string, url: string, categories: seq<string>)

  /** The two keyword lists a crawler is built with. */
  datatype Keywords = Keywords(excluded: seq<string>, included: seq<string>)

  datatype Article = Article(titleEn: string, link: string, source: string, categories: seq<string>)

  // ---------------------------------------------------------------- keyword gate

  /** The first keyword that occurs in `text`, scanning the list in order. */
  function FindKeyword(keywords: seq<string>, text: string): (r: Option<string>)
    ensures r.Some? <==> exists i :: 0 <= i < |keywords| && Contains(text, keywords[i])
    ensures r.Some? ==> r.value in keywords && Contains(text, r.value)
  {
    assert forall i :: 1 <= i < |keywords| ==> keywords[1..][i - 1] == keywords[i];
    if keywords == [] then None
    else if Contains(text, keywords[0]) then Some(keywords[0])
    else FindKeyword(keywords[1..], text)
  }

  /**
    A title passes when its lower-cased text contains no exclude keyword and
    at least one include keyword, both by substring.
  */
  function IsValidArticle(kw: Keywords, title: string): (r: bool)
    ensures r <==>
      && (forall k :: k in kw.excluded ==> !Contains(Lower(title), k))
      && (exists k :: k in kw.included && Contains(Lower(title), k))
  {
    var text := Lower(title);
    FindKeyword(kw.excluded, text).None? && FindKeyword(kw.included, text).Some?
  }

  /**
    Substring matching rejects a title that merely contains the letters of an
    exclude keyword inside another word, even when it names a chip: "Taiwan"
    contains "ai".
  */
  lemma TaiwanIsRejected(title: string)
    requires title == "Taiwan chip exports"
    ensures Contains(Lower(title), "chip")
    ensures !IsValidArticle(Keywords(ExcludeKeywords, IncludeKeywords), title)
  {
    var text := Lower(title);
    assert title[1] == 'a' && title[2] == 'i';
    assert text[1..3] == ['a', 'i'];
    assert OccursAt(text, "ai", 1);
    assert title[7] == 'c' && title[8] == 'h' && title[9] == 'i' && title[10] == 'p';
    assert text[7..11] == ['c', 'h', 'i', 'p'];
    assert OccursAt(text, "chip", 7);
    assert ExcludeKeywords[0] == "ai";
  }

  // ---------------------------------------------------------------- containers

  /**
    The generic fallback loop: each selector's matches replace the current
    ones, and the loop stops at the first that has more than three.
  */
  function Cascade(fallbacks: seq<seq<Container>>, current: seq<Container>): (r: seq<Container>)
    ensures forall i :: 0 <= i < |fallbacks| && |fallbacks[i]| > MinFallbackMatches
                   && (forall j :: 0 <= j < i ==> |fallbacks[j]| <= MinFallbackMatches)
                   ==> r == fallbacks[i]
    ensures (forall i :: 0 <= i < |fallbacks| ==> |fallbacks[i]| <= MinFallbackMatches)
            ==> r == if fallbacks == [] then current else fallbacks[|fallbacks| - 1]
  {
    if fallbacks == [] then current
    else if |fallbacks[0]| > MinFallbackMatches then fallbacks[0]
    else
      var r := Cascade(fallbacks[1..], fallbacks[0]);
      assert forall i :: 1 <= i < |fallbacks| ==> fallbacks[1..][i - 1] == fallbacks[i];
      r
  }

  /** The site's own matches when there are any, otherwise the fallback cascade. */
  function ChooseContainers(primary: seq<Container>, fallbacks: seq<seq<Container>>): seq<Container> {
    if primary != [] then primary else Cascade(fallbacks, primary)
  }

  method SelectContainers(primary: seq<Container>, fallbacks: seq<seq<Container>>)
    returns (elems: seq<Container>)
    ensures elems == ChooseContainers(primary, fallbacks)
    ensures primary != [] ==> elems == primary
  {
    elems := primary;
    if elems == [] {
      var i := 0;
      while i < |fallbacks|
        invariant 0 <= i <= |fallbacks|
        invariant Cascade(fallbacks[i..], elems) == Cascade(fallbacks, primary)
      {
        assert fallbacks[i..][1..] == fallbacks[i + 1..];
        elems := fallbacks[i];
        if |elems| > MinFallbackMatches {
          break;
        }
        i := i + 1;
      }
    }
  }

  /** The containers whose articles are extracted from a page: at most the first hundred. */
  function Examined(page: Page): (r: seq<Container>)
    ensures |r| <= MaxContainers
    ensures page.status != StatusOk ==> r == []
    ensures page.status == StatusOk ==> r <= ChooseContainers(page.primary, page.fallbacks)
    ensures page.status == StatusOk ==>
      |r| == if |ChooseContainers(page.primary, page.fallbacks)| <= MaxContainers
             then |ChooseContainers(page.primary, page.fallbacks)| else MaxContainers
  {
    if page.status != StatusOk then []
    else
      var elems := ChooseContainers(page.primary, page.fallbacks);
      if |elems| <= MaxContainers then elems else elems[..MaxContainers]
  }

  // ---------------------------------------------------------------- title and link

  function AnchorTexts(anchors: seq<Anchor>): (r: seq<string>)
    ensures |r| == |anchors| && forall i :: 0 <= i < |anchors| ==> r[i] == anchors[i].text
  {
    seq(|anchors|, i requires 0 <= i < |anchors| => anchors[i].text)
  }

  /** The first text longer than the minimum title length. */
  function FirstLongText(texts: seq<string>): (r: Option<string>)
    ensures r.Some? <==> exists i :: 0 <= i < |texts| && |texts[i]| > MinTitleLength
    ensures r.Some? ==> exists i :: 0 <= i < |texts| && texts[i] == r.value && |r.value| > MinTitleLength
                          && forall j :: 0 <= j < i ==> |texts[j]| <= MinTitleLength
  {
    if texts == [] then None
    else if |texts[0]| > MinTitleLength then Some(texts[0])
    else
      var r := FirstLongText(texts[1..]);
      assert forall i :: 1 <= i < |texts| ==> texts[1..][i - 1] == texts[i];
      r
  }

  /**
    The title chain: the configured title element's text if that element
    exists (whatever its length), else the first anchor text longer than ten
    characters, else the first such heading text.
  */
  function ResolveTitle(c: Container): (r: Option<string>)
    ensures c.configuredTitle.Some? ==> r == c.configuredTitle
    ensures c.configuredTitle.None? && r.Some? ==>
      |r.value| > MinTitleLength && (r.value in AnchorTexts(c.anchors) || r.value in c.headings)
    ensures c.configuredTitle.None? && r.None? ==>
      && (forall i :: 0 <= i < |c.anchors| ==> |c.anchors[i].text| <= MinTitleLength)
      && (forall i :: 0 <= i < |c.headings| ==> |c.headings[i]| <= MinTitleLength)
    ensures c.configuredTitle.None? && FirstLongText(AnchorTexts(c.anchors)).Some? ==>
      r == FirstLongText(AnchorTexts(c.anchors))
    ensures c.configuredTitle.None? && FirstLongText(AnchorTexts(c.anchors)).None? ==>
      r == FirstLongText(c.headings)
  {
    if c.configuredTitle.Some? then c.configuredTitle
    else match FirstLongText(AnchorTexts(c.anchors))
      case Some(t) => Some(t)
      case None => FirstLongText(c.headings)
  }

  /** An anchor whose `href` is present and non-empty (truthy in Python). */
  predicate HasHref(a: Anchor) {
    a.href.Some? && a.href.value != ""
  }

  /** The `href` of the first anchor that has a non-empty one. */
  function FirstHref(anchors: seq<Anchor>): (r: Option<string>)
    ensures r.Some? <==> exists i :: 0 <= i < |anchors| && HasHref(anchors[i])
    ensures r.Some? ==> exists i :: 0 <= i < |anchors| && HasHref(anchors[i]) && anchors[i].href == r
                          && forall j :: 0 <= j < i ==> !HasHref(anchors[j])
  {
    if anchors == [] then None
    else if HasHref(anchors[0]) then anchors[0].href
    else
      var r := FirstHref(anchors[1..]);
      assert forall i :: 1 <= i < |anchors| ==> anchors[1..][i - 1] == anchors[i];
      r
  }

  /**
    The link chain: the configured link element's `href` when non-empty,
    else the first anchor with a non-empty `href`. A resolved link is never
    empty, and there is none exactly when neither source provides one.
  */
  function ResolveLink(c: Container): (r: Option<string>)
    ensures r.Some? ==> r.value != ""
    ensures c.configuredHref.Some? && c.configuredHref.value != "" ==> r == c.configuredHref
    ensures r.None? <==>
      && (c.configuredHref.None? || c.configuredHref.value == "")
      && forall i :: 0 <= i < |c.anchors| ==> !HasHref(c.anchors[i])
    ensures !(c.configuredHref.Some? && c.configuredHref.value != "") ==> r == FirstHref(c.anchors)
  {
    if c.configuredHref.Some? && c.configuredHref.value != "" then c.configuredHref
    else FirstHref(c.anchors)
  }

  // ---------------------------------------------------------------- URL joining

  /** Stripping trailing slashes from a URL that starts with "http" keeps that prefix. */
  lemma StripKeepsScheme(url: string)
    ensures StartsWith(url, "http") ==> StartsWith(RStripSlash(url), "http")
  {
    if StartsWith(url, "http") {
      var r := RStripSlash(url);
      assert url[3] != '/';
      assert r[..4] == url[..4];
    }
  }

  /**
    Joins a raw link to the site's base URL: a link starting with "/" is
    appended to the URL without its trailing slashes, any other link not
    starting with "http" is appended after one slash, and the rest are kept.
  */
  function JoinUrl(url: string, link: string): (r: string)
    ensures EndsWith(r, link)
    ensures StartsWith(link, "http") ==> r == link
    ensures StartsWith(url, "http") ==> StartsWith(r, "http")
  {
    var base := RStripSlash(url);
    SchemeIsNotRooted(link);
    StripKeepsScheme(url);
    AppendFacts(base, "/");
    if StartsWith(link, "/") then
      AppendFacts(base, link);
      base + link
    else if !StartsWith(link, "http") then
      AppendFacts(base + "/", link);
      base + "/" + link
    else
      link
  }

  /** A link starting with "http" does not start with "/". */
  lemma SchemeIsNotRooted(link: string)
    ensures StartsWith(link, "http") ==> !StartsWith(link, "/")
  {
    if StartsWith(link, "http") {
      assert link[0] == "http"[0];
    }
  }

  /** The two facts about `prefix + s` that joining needs. */
  lemma AppendFacts(prefix: string, s: string)
    ensures StartsWith(prefix + s, prefix) && EndsWith(prefix + s, s)
    ensures StartsWith(prefix, "http") ==> StartsWith(prefix + s, "http")
  {
    assert (prefix + s)[..|prefix|] == prefix;
    assert (prefix + s)[|prefix|..] == s;
    if StartsWith(prefix, "http") {
      assert (prefix + s)[..4] == prefix[..4];
    }
  }

  /**
    Where a joined link sits: a link starting with "/" follows the site URL
    without its trailing slashes, and any other link not starting with
    "http" follows that base and one slash. Together with `EndsWith` in
    `JoinUrl`'s contract this determines the result.
  */
  lemma JoinUnderBase(url: string, link: string)
    ensures StartsWith(link, "/") ==>
      StartsWith(JoinUrl(url, link), RStripSlash(url))
      && |JoinUrl(url, link)| == |RStripSlash(url)| + |link|
    ensures !StartsWith(link, "/") && !StartsWith(link, "http") ==>
      StartsWith(JoinUrl(url, link), RStripSlash(url) + "/")
      && |JoinUrl(url, link)| == |RStripSlash(url)| + 1 + |link|
  {
    var base := RStripSlash(url);
    if StartsWith(link, "/") {
      AppendFacts(base, link);
    } else if !StartsWith(link, "http") {
      AppendFacts(base + "/", link);
    }
  }

  /** Joining is idempotent for a site URL that starts with "http". */
  lemma JoinIdempotent(url: string, link: string)
    requires StartsWith(url, "http")
    ensures JoinUrl(url, JoinUrl(url, link)) == JoinUrl(url, link)
  {
    var once := JoinUrl(url, link);
    assert StartsWith(once, "http");
  }

  /** Without an absolute site URL, joining twice nests the base twice. */
  lemma JoinNotIdempotentForRelativeBase()
    ensures JoinUrl("news", "item") == "news/item"
    ensures JoinUrl("news", JoinUrl("news", "item")) == "news/news/item"
  {
    assert "item"[0] == 'i' && "news/item"[0] == 'n';
    assert !StartsWith("item", "/") && !StartsWith("item", "http");
    assert !StartsWith("news/item", "/") && !StartsWith("news/item", "http");
    assert RStripSlash("news") == "news";
  }

  // ---------------------------------------------------------------- one container

  /**
    What one container contributes before the duplicate check: an article
    when its title resolves, has at least ten characters and passes the
    keyword gate, and a link resolves; the link is then joined to the site URL.
  */
  function Candidate(kw: Keywords, site: SiteConfig, c: Container): Option<Article> {
    match ResolveTitle(c)
    case None => None
    case Some(title) =>
      if |title| < MinTitleLength || !IsValidArticle(kw, title) then None
      else match ResolveLink(c)
        case None => None
        case Some(link) => Some(Article(title, JoinUrl(site.url, link), site.name, site.categories))
  }

  /**
    A container yields an article exactly when it has a title of at least ten
    characters that passes the keyword filter and a link; the article carries
    that title, the joined link and the site's name and categories.
  */
  lemma CandidateSpec(kw: Keywords, site: SiteConfig, c: Container)
    ensures Candidate(kw, site, c).Some? <==>
      && ResolveTitle(c).Some? && |ResolveTitle(c).value| >= MinTitleLength
      && IsValidArticle(kw, ResolveTitle(c).value)
      && ResolveLink(c).Some?
    ensures Candidate(kw, site, c).Some? ==>
      var r := Candidate(kw, site, c).value;
      && r.titleEn == ResolveTitle(c).value
      && r.link == JoinUrl(site.url, ResolveLink(c).value)
      && |r.titleEn| >= MinTitleLength && IsValidArticle(kw, r.titleEn)
      && r.source == site.name && r.categories == site.categories
      && (c.configuredTitle.Some? ==> r.titleEn == c.configuredTitle.value)
      && (c.configuredTitle.None? ==> |r.titleEn| > MinTitleLength)
      && EndsWith(r.link, ResolveLink(c).value)
      && (StartsWith(site.url, "http") ==> StartsWith(r.link, "http"))
  {
  }

  // ---------------------------------------------------------------- the extraction loop

  function ArticleLink(a: Article): string {
    a.link
  }

  function LinksOf(articles: seq<Article>): set<string> {
    LinksBy(articles, ArticleLink)
  }

  /**
    The articles extracted from containers `cs`, in order, given the links
    `seen` already processed: each container's candidate is kept unless its
    link was already seen or produced earlier in the same pass.
  */
  function Extracted(kw: Keywords, site: SiteConfig, cs: seq<Container>, seen: set<string>): seq<Article>
    decreases |cs|
  {
    if cs == [] then []
    else Admit(seen, Extracted(kw, site, cs[..|cs| - 1], seen), Candidate(kw, site, cs[|cs| - 1]))
  }

  /** One container's candidate is appended unless its link is already known. */
  function Admit(seen: set<string>, prev: seq<Article>, candidate: Option<Article>): seq<Article> {
    match candidate
    case None => prev
    case Some(a) => if a.link in seen + LinksOf(prev) then prev else prev + [a]
  }

  /** Extraction of the containers up to `i` extends extraction up to `i - 1` by one step. */
  lemma ExtractedStep(kw: Keywords, site: SiteConfig, cs: seq<Container>, i: nat, seen: set<string>)
    requires i < |cs|
    ensures Extracted(kw, site, cs[..i + 1], seen) ==
      Admit(seen, Extracted(kw, site, cs[..i], seen), Candidate(kw, site, cs[i]))
  {
    assert cs[..i + 1][..i] == cs[..i];
  }

  /**
    The extracted articles are at most one per container, never repeat a
    link, and never reuse a link processed before.
  */
  lemma {:induction false} ExtractedFresh(kw: Keywords, site: SiteConfig, cs: seq<Container>, seen: set<string>)
    ensures |Extracted(kw, site, cs, seen)| <= |cs|
    ensures forall i :: 0 <= i < |Extracted(kw, site, cs, seen)| ==> Extracted(kw, site, cs, seen)[i].link !in seen
    ensures forall i, j :: 0 <= i < j < |Extracted(kw, site, cs, seen)| ==>
              Extracted(kw, site, cs, seen)[i].link != Extracted(kw, site, cs, seen)[j].link
    decreases |cs|
  {
    if cs != [] {
      var prev := Extracted(kw, site, cs[..|cs| - 1], seen);
      ExtractedFresh(kw, site, cs[..|cs| - 1], seen);
      match Candidate(kw, site, cs[|cs| - 1])
      case None =>
      case Some(a) =>
        if a.link !in seen + LinksOf(prev) {
          var r := prev + [a];
          forall i | 0 <= i < |prev| ensures r[i].link != a.link {
            assert prev[i].link in LinksOf(prev);
          }
        }
    }
  }

  /** Every extracted article is the candidate of one of the containers. */
  lemma {:induction false} ExtractedSound(kw: Keywords, site: SiteConfig, cs: seq<Container>, seen: set<string>)
    ensures forall a :: a in Extracted(kw, site, cs, seen) ==>
              exists k :: 0 <= k < |cs| && Candidate(kw, site, cs[k]) == Some(a)
    decreases |cs|
  {
    if cs != [] {
      var init := cs[..|cs| - 1];
      ExtractedSound(kw, site, init, seen);
      forall a | a in Extracted(kw, site, init, seen)
        ensures exists k :: 0 <= k < |cs| && Candidate(kw, site, cs[k]) == Some(a)
      {
        var k :| 0 <= k < |init| && Candidate(kw, site, init[k]) == Some(a);
        assert cs[k] == init[k];
      }
    }
  }

  /**
    Every container that yields a candidate leaves its link among the
    processed ones: either it was already there, or its article was extracted.
  */
  lemma {:induction false} ExtractedComplete(kw: Keywords, site: SiteConfig, cs: seq<Container>, seen: set<string>)
    ensures forall k :: 0 <= k < |cs| && Candidate(kw, site, cs[k]).Some? ==>
              Candidate(kw, site, cs[k]).value.link in seen + LinksOf(Extracted(kw, site, cs, seen))
    decreases |cs|
  {
    if cs != [] {
      var init := cs[..|cs| - 1];
      var prev := Extracted(kw, site, init, seen);
      var r := Extracted(kw, site, cs, seen);
      ExtractedComplete(kw, site, init, seen);
      assert LinksOf(prev) <= LinksOf(r) by {
        match Candidate(kw, site, cs[|cs| - 1])
        case None =>
        case Some(a) =>
          if a.link !in seen + LinksOf(prev) { LinksByAppend(prev, a, ArticleLink); }
      }
      forall k | 0 <= k < |cs| && Candidate(kw, site, cs[k]).Some?
        ensures Candidate(kw, site, cs[k]).value.link in seen + LinksOf(r)
      {
        if k < |init| {
          assert cs[k] == init[k];
        } else {
          var a := Candidate(kw, site, cs[k]).value;
          if a.link !in seen + LinksOf(prev) {
            LinksByAppend(prev, a, ArticleLink);
          }
        }
      }
    }
  }

  /** Extraction keeps container order: a prefix of the containers yields a prefix of the articles. */
  lemma {:induction false} ExtractedPrefix(kw: Keywords, site: SiteConfig, cs: seq<Container>, n: nat, seen: set<string>)
    requires n <= |cs|
    ensures Extracted(kw, site, cs[..n], seen) <= Extracted(kw, site, cs, seen)
    decreases |cs|
  {
    if n < |cs| {
      assert cs[..|cs| - 1][..n] == cs[..n];
      ExtractedPrefix(kw, site, cs[..|cs| - 1], n, seen);
    } else {
      assert cs[..n] == cs;
    }
  }

  // ---------------------------------------------------------------- all sites

  /**
    The articles of a sequence of crawl jobs taken one after another: each
    site is extracted against the links seen before plus those of the
    earlier sites.
  */
  function AllExtracted(kw: Keywords, jobs: seq<(SiteConfig, Page)>, seen: set<string>): seq<Article>
    decreases |jobs|
  {
    if jobs == [] then []
    else
      var prev := AllExtracted(kw, jobs[..|jobs| - 1], seen);
      var job := jobs[|jobs| - 1];
      prev + Extracted(kw, job.0, Examined(job.1), seen + LinksOf(prev))
  }

  lemma AllExtractedStep(kw: Keywords, jobs: seq<(SiteConfig, Page)>, n: nat, seen: set<string>)
    requires n < |jobs|
    ensures AllExtracted(kw, jobs[..n + 1], seen) ==
      AllExtracted(kw, jobs[..n], seen)
      + Extracted(kw, jobs[n].0, Examined(jobs[n].1), seen + LinksOf(AllExtracted(kw, jobs[..n], seen)))
  {
    assert jobs[..n + 1][..n] == jobs[..n];
  }

  /**
    Across all sites no link was seen before and no link occurs twice, so
    sharing one processed set makes the sites' articles disjoint.
  */
  lemma {:induction false} AllExtractedFresh(kw: Keywords, jobs: seq<(SiteConfig, Page)>, seen: set<string>)
    ensures forall i :: 0 <= i < |AllExtracted(kw, jobs, seen)| ==> AllExtracted(kw, jobs, seen)[i].link !in seen
    ensures forall i, j :: 0 <= i < j < |AllExtracted(kw, jobs, seen)| ==>
              AllExtracted(kw, jobs, seen)[i].link != AllExtracted(kw, jobs, seen)[j].link
    decreases |jobs|
  {
    if jobs != [] {
      var prev := AllExtracted(kw, jobs[..|jobs| - 1], seen);
      var job := jobs[|jobs| - 1];
      var next := Extracted(kw, job.0, Examined(job.1), seen + LinksOf(prev));
      var all := prev + next;
      AllExtractedFresh(kw, jobs[..|jobs| - 1], seen);
      ExtractedFresh(kw, job.0, Examined(job.1), seen + LinksOf(prev));
      forall i | 0 <= i < |all|
        ensures all[i].link !in seen
      {
        if i >= |prev| {
          assert all[i] == next[i - |prev|];
        }
      }
      forall i, j | 0 <= i < j < |all|
        ensures all[i].link != all[j].link
      {
        if j < |prev| {
          assert all[i] == prev[i] && all[j] == prev[j];
        } else if i < |prev| {
          assert all[i].link in LinksOf(prev);
          assert all[j] == next[j - |prev|];
        } else {
          assert all[i] == next[i - |prev|] && all[j] == next[j - |prev|];
        }
      }
    }
  }

  class WebCrawler {
    /** Every link accepted so far by this crawler, across all sites. */
    var processedUrls: set<string>

    /** The keyword lists fixed when the crawler is built. */
    const keywords: Keywords

    constructor ()
      ensures processedUrls == {}
      ensures keywords == Keywords(ExcludeKeywords, IncludeKeywords)
    {
      processedUrls := {};
      keywords := Keywords(ExcludeKeywords, IncludeKeywords);
    }

    /**
      Extracts the articles of one site's listing page: none unless the status
      is 200; otherwise from at most the first hundred selected containers, in
      container order, skipping links already processed and recording new ones.
    */
    method CrawlWebsite(site: SiteConfig, page: Page) returns (articles: seq<Article>)
      modifies this
      ensures articles == Extracted(keywords, site, Examined(page), old(processedUrls))
      ensures processedUrls == old(processedUrls) + LinksOf(articles)
      ensures |articles| <= MaxContainers
    {
      if page.status != StatusOk {
        return [];
      }
      var elems := SelectContainers(page.primary, page.fallbacks);
      if elems == [] {
        return [];
      }
      var todo := if |elems| <= MaxContainers then elems else elems[..MaxContainers];
      assert todo == Examined(page);
      articles := ExtractArticles(site, todo);
      ExtractedFresh(keywords, site, todo, old(processedUrls));
    }

    /** The per-container loop: check each candidate's link against the processed set and add it. */
    method ExtractArticles(site: SiteConfig, todo: seq<Container>) returns (articles: seq<Article>)
      modifies this
      ensures articles == Extracted(keywords, site, todo, old(processedUrls))
      ensures processedUrls == old(processedUrls) + LinksOf(articles)
    {
      ghost var start := processedUrls;
      articles := [];
      var i := 0;
      while i < |todo|
        invariant 0 <= i <= |todo|
        invariant articles == Extracted(keywords, site, todo[..i], start)
        invariant processedUrls == start + LinksOf(articles)
      {
        ExtractedStep(keywords, site, todo, i, start);
        var candidate := Candidate(keywords, site, todo[i]);
        if candidate.Some? && candidate.value.link !in processedUrls {
          LinksByAppend(articles, candidate.value, ArticleLink);
          processedUrls := processedUrls + {candidate.value.link};
          articles := articles + [candidate.value];
        }
        i := i + 1;
      }
      assert todo[..i] == todo;
    }

    /**
      Crawls every site, one after another in the given order (the order in
      which the concurrent tasks would finish), and concatenates their
      articles. No link occurs twice in the result, none was processed
      before, and every returned link is now processed.
    */
    method CrawlAllWebsites(jobs: seq<(SiteConfig, Page)>) returns (all: seq<Article>)
      modifies this
      ensures all == AllExtracted(keywords, jobs, old(processedUrls))
      ensures processedUrls == old(processedUrls) + LinksOf(all)
      ensures forall i :: 0 <= i < |all| ==> all[i].link !in old(processedUrls)
      ensures forall i, j :: 0 <= i < j < |all| ==> all[i].link != all[j].link
    {
      ghost var start := processedUrls;
      all := [];
      var n := 0;
      while n < |jobs|
        invariant 0 <= n <= |jobs|
        invariant all == AllExtracted(keywords, jobs[..n], start)
        invariant processedUrls == start + LinksOf(all)
      {
        AllExtractedStep(keywords, jobs, n, start);
        var articles := CrawlWebsite(jobs[n].0, jobs[n].1);
        LinksByConcat(all, articles, ArticleLink);
        all := all + articles;
        n := n + 1;
      }
      assert jobs[..n] == jobs;
      AllExtractedFresh(keywords, jobs, start);
    }
  }
}
