/** `crawlSiteFromSitemap`: the sitemap page is scraped once, the links on
    it give the work list, and the pass loop processes that list. The whole
    run sits in one `try`; for thrown `Error` objects, the only call in it
    that can throw outside the inner `try` of a pass is the sitemap scrape. */
module Crawler {
  import opened Wrappers
  import opened JsText
  import opened LinkScanner
  import opened UrlExtraction
  import opened PageOutput
  import opened RetryScheduler
  import opened SchedulerProperties

  /** How a run ends. */
  datatype Run =
    | CriticalError
    | SitemapUnavailable
    | NoUrlsFound
    | Completed(urls: seq<string>, report: Report)

  /** The sitemap check: a falsy result or an empty markdown ends the run;
      the result's `success` flag is not looked at. */
  predicate SitemapUsable(result: Option<PageData>)
    ensures SitemapUsable(result) ==> result.Some? && result.value.markdown != []
    ensures result.Some? && result.value.markdown != [] && !result.value.success ==> SitemapUsable(result)
  {
    result.Some? && result.value.markdown != []
  }

  /** What a run does, given the sitemap scrape and the environment of the
      page scrapes. */
  function CrawlRun(sitemap: Scrape, baseUrl: string, env: Env): (run: Run)
    ensures run.CriticalError? <==> sitemap.Threw?
    ensures run.SitemapUnavailable? <==> sitemap.Returned? && !SitemapUsable(sitemap.result)
    ensures run.NoUrlsFound? <==> && sitemap.Returned? && SitemapUsable(sitemap.result)
                                  && UniqueInternalUrls(AllLinks(sitemap.result.value.markdown), baseUrl) == []
    ensures run.Completed? ==>
      && run.urls == UniqueInternalUrls(AllLinks(sitemap.result.value.markdown), baseUrl)
      && run.report == Crawl(run.urls, VerdictsOf(env))
    ensures run.Completed? ==>
      && run.urls != []
      && NoDuplicates(run.urls)
      && (forall u | u in run.urls :: StartsWith(u, baseUrl))
      && run.report.successCount + |run.report.permanentlyFailed| == |run.urls|
  {
    match sitemap
    case Threw => CriticalError
    case Returned(result) =>
      if !SitemapUsable(result) then SitemapUnavailable
      else
        var urls := UniqueInternalUrls(AllLinks(result.value.markdown), baseUrl);
        if urls == [] then NoUrlsFound
        else
          CrawlPartition(urls, VerdictsOf(env));
          Completed(urls, Crawl(urls, VerdictsOf(env)))
  }

  /** The crawl as written: phase 1 with its two early exits, then phase 2.
      It follows the branches of `CrawlRun` on purpose: the method is the
      code, the function its specification. */
  method CrawlSiteFromSitemap(sitemap: Scrape, baseUrl: string, env: Env) returns (run: Run)
    ensures run == CrawlRun(sitemap, baseUrl, env)
  {
    match sitemap {
      case Threw =>
        run := CriticalError;
      case Returned(sitemapResult) =>
        if sitemapResult.None? || sitemapResult.value.markdown == [] {
          run := SitemapUnavailable;
          return;
        }
        var allLinks := AllLinks(sitemapResult.value.markdown);
        var urlsToProcess := CollectUniqueUrls(allLinks, baseUrl);
        if |urlsToProcess| == 0 {
          run := NoUrlsFound;
          return;
        }
        VerdictsRealize(env);
        var report := ProcessPasses(urlsToProcess, env, VerdictsOf(env));
        run := Completed(urlsToProcess, report);
    }
  }

  /** The URLs the links carry, in order. */
  function LinkTargets(ms: seq<Link>): (urls: seq<string>)
    ensures |urls| == |ms|
    ensures forall k | 0 <= k < |ms| :: urls[k] == ms[k].url
  {
    seq(|ms|, k requires 0 <= k < |ms| => ms[k].url)
  }

  /** On a sitemap page that lists well-formed links one per line, with no
      `]` and no `(` in any link text, the URLs cut from the matches are the
      links' own URLs. */
  lemma RenderedCandidates(ms: seq<Link>)
    requires forall k | 0 <= k < |ms| :: WellFormed(ms[k])
    requires forall k, t | 0 <= k < |ms| && 0 <= t < |ms[k].text| :: ms[k].text[t] != ']' && ms[k].text[t] != '('
    ensures Candidates(AllLinks(Render(ms))) == LinkTargets(ms)
  {
    MatchAllRender(ms);
    forall k | 0 <= k < |ms| ensures LinkUrl(Whole(ms[k])) == ms[k].url {
      LinkUrlOfMatch(ms[k]);
    }
  }

  /** The internal URLs of such a sitemap page are the link URLs under the
      base URL; there are some exactly when one link points under it. */
  lemma RenderedInternalUrls(ms: seq<Link>, baseUrl: string)
    requires forall k | 0 <= k < |ms| :: WellFormed(ms[k])
    requires forall k, t | 0 <= k < |ms| && 0 <= t < |ms[k].text| :: ms[k].text[t] != ']' && ms[k].text[t] != '('
    ensures var urls := UniqueInternalUrls(AllLinks(Render(ms)), baseUrl);
      && (forall u :: u in urls <==> u in LinkTargets(ms) && StartsWith(u, baseUrl))
      && (urls != [] <==> exists k | 0 <= k < |ms| :: StartsWith(ms[k].url, baseUrl))
  {
    RenderedCandidates(ms);
    var links := AllLinks(Render(ms));
    var urls := UniqueInternalUrls(links, baseUrl);
    var targets := LinkTargets(ms);
    assert Candidates(links) == targets;
    assert forall u :: u in urls <==> u in targets && StartsWith(u, baseUrl);
    if urls != [] {
      var u := urls[0];
      assert u in targets;
      var k :| 0 <= k < |targets| && targets[k] == u;
      assert StartsWith(ms[k].url, baseUrl);
    }
    if exists k | 0 <= k < |ms| :: StartsWith(ms[k].url, baseUrl) {
      var k :| 0 <= k < |ms| && StartsWith(ms[k].url, baseUrl);
      assert targets[k] == ms[k].url;
      assert ms[k].url in urls;
    }
  }

  /** A sitemap result with content: the run ends without URLs or completes
      phase 2 on the internal URLs of its links. */
  lemma UsableSitemapRun(page: PageData, baseUrl: string, env: Env)
    requires page.markdown != []
    ensures var urls := UniqueInternalUrls(AllLinks(page.markdown), baseUrl);
      CrawlRun(Returned(Some(page)), baseUrl, env)
      == if urls == [] then NoUrlsFound else Completed(urls, Crawl(urls, VerdictsOf(env)))
  {
  }

  /** A run over such a sitemap page: the work list holds each link URL under
      the base URL once; the run completes exactly when there is one, and
      then every such URL is saved or permanently failed. */
  lemma CrawlOfRenderedSitemap(ms: seq<Link>, baseUrl: string, success: bool, metadata: Option<Metadata>,
                               env: Env)
    requires ms != []
    requires forall k | 0 <= k < |ms| :: WellFormed(ms[k])
    requires forall k, t | 0 <= k < |ms| && 0 <= t < |ms[k].text| :: ms[k].text[t] != ']' && ms[k].text[t] != '('
    ensures var run := CrawlRun(Returned(Some(PageData(success, Render(ms), metadata))), baseUrl, env);
      && (run.Completed? <==> exists k | 0 <= k < |ms| :: StartsWith(ms[k].url, baseUrl))
      && (!run.Completed? ==> run == NoUrlsFound)
      && (run.Completed? ==>
            && (forall u :: u in run.urls <==> u in LinkTargets(ms) && StartsWith(u, baseUrl))
            && multiset(run.urls) == multiset(run.report.succeeded) + multiset(run.report.permanentlyFailed))
  {
    var page := PageData(success, Render(ms), metadata);
    assert Render(ms) == Whole(ms[0]) + "\n" + Render(ms[1..]);
    UsableSitemapRun(page, baseUrl, env);
    RenderedInternalUrls(ms, baseUrl);
    CrawlPartition(UniqueInternalUrls(AllLinks(Render(ms)), baseUrl), VerdictsOf(env));
  }
}
