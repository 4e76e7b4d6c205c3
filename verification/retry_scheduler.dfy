/** Phase 2 of the crawl: the work list is processed in at most `MAX_PASSES`
    passes.  Every URL of a pass is scraped in list order and followed by a
    pause whose length grows with the pass number; a URL whose scrape or save
    fails goes on the list for the next pass, and what is left after the last
    pass is reported as permanently failed.

    The scraper, the URL parser, the random file-name suffix and the outcome
    of the file writes are oracles of an `Env`, keyed by URL and pass. */
module RetryScheduler {
  import opened Wrappers
  import opened Slug
  import opened PageOutput

  const MAX_PASSES: nat := 3
  const BASE_DELAY_MS: nat := 1500

  /** What `await app.scrapeUrl(url, ...)` does: throw, or return a result
      that may be falsy (`None`). */
  datatype Scrape = Threw | Returned(result: Option<PageData>)

  datatype Env = Env(
    scrape: (string, nat) -> Scrape,
    parse: string -> UrlParse,
    suffix: (string, nat) -> string,
    writesOk: (string, nat) -> bool)

  datatype Outcome = Saved(page: SavedPage) | Failed

  /** The pause after every URL of pass `pass`. */
  function PassDelay(pass: nat): (ms: nat)
    ensures pass >= 1 ==> ms >= BASE_DELAY_MS
  {
    BASE_DELAY_MS * pass
  }

  /** A later pass waits strictly longer after each URL. */
  lemma PassDelayIncreases(p: nat, q: nat)
    requires p < q
    ensures PassDelay(p) < PassDelay(q)
  {
  }

  /** The condition under which a scrape counts as content. */
  predicate HasContent(s: Scrape) {
    s.Returned? && s.result.Some? && s.result.value.success && s.result.value.markdown != []
  }

  /** One URL in one pass: scraped, and when the result holds content, saved
      by `processSinglePage`; a throw anywhere, or a result without content,
      is a failure. */
  function Attempt(url: string, pass: nat, env: Env): (o: Outcome)
    ensures o.Saved? <==> HasContent(env.scrape(url, pass))
                          && env.scrape(url, pass).result.value.metadata.Some?
                          && env.writesOk(url, pass)
    ensures o.Saved? ==> o.page.record.url == url
                         && o.page.record.content == env.scrape(url, pass).result.value.markdown
  {
    match env.scrape(url, pass)
    case Threw => Failed
    case Returned(result) =>
      if result.Some? && result.value.success && result.value.markdown != [] then
        match ProcessSinglePage(result.value, url, env.parse(url), env.suffix(url, pass), env.writesOk(url, pass))
        case Some(page) => Saved(page)
        case None => Failed
      else Failed
  }

  /** Which (URL, pass) attempts end in a saved page. */
  type Verdicts = (string, nat) -> bool

  /** The verdicts an environment produces. */
  function VerdictsOf(env: Env): (succeeds: Verdicts)
    ensures forall url, pass :: succeeds(url, pass) == Attempt(url, pass, env).Saved?
  {
    (url: string, pass: nat) => Attempt(url, pass, env).Saved?
  }

  /** `succeeds` agrees with `Attempt` under `env`; the trigger keeps this
      fact from unfolding `Attempt` where no attempt is made. */
  ghost predicate Realizes(succeeds: Verdicts, env: Env) {
    forall url, pass {:trigger Attempt(url, pass, env)} :: succeeds(url, pass) == Attempt(url, pass, env).Saved?
  }

  /** The verdicts of an environment agree with its attempts. */
  lemma VerdictsRealize(env: Env)
    ensures Realizes(VerdictsOf(env), env)
  {
    forall url, pass ensures VerdictsOf(env)(url, pass) == Attempt(url, pass, env).Saved? {
    }
  }

  /** The URLs of a pass that succeeded and those that failed, in list order. */
  datatype PassResult = PassResult(succeeded: seq<string>, failed: seq<string>)

  /** The inner loop over the first `|urls|` URLs of a pass. */
  function RunPass(urls: seq<string>, pass: nat, succeeds: Verdicts): (r: PassResult)
    decreases |urls|
    ensures |r.succeeded| + |r.failed| == |urls|
  {
    if urls == [] then PassResult([], [])
    else
      var r := RunPass(urls[..|urls| - 1], pass, succeeds);
      Record(r, urls[|urls| - 1], succeeds(urls[|urls| - 1], pass))
  }

  /** The bookkeeping after one attempt: a success is counted, a failure
      goes on the retry list. */
  function Record(r: PassResult, url: string, ok: bool): (r': PassResult)
    ensures |r'.succeeded| + |r'.failed| == |r.succeeded| + |r.failed| + 1
  {
    if ok then PassResult(r.succeeded + [url], r.failed) else PassResult(r.succeeded, r.failed + [url])
  }

  /** The scrape calls of a pass, as (pass, URL) pairs, and its pauses. */
  function PassAttempts(urls: seq<string>, pass: nat): (calls: seq<(nat, string)>)
    ensures |calls| == |urls|
  {
    if urls == [] then [] else PassAttempts(urls[..|urls| - 1], pass) + [(pass, urls[|urls| - 1])]
  }

  function PassSleeps(n: nat, pass: nat): (sleeps: seq<nat>)
    ensures |sleeps| == n
  {
    if n == 0 then [] else PassSleeps(n - 1, pass) + [PassDelay(pass)]
  }

  /** The outcome of phase 2: the success count, the permanently failed URLs,
      the number of passes run, every scrape call as (pass, URL), every pause,
      and the URLs whose page was saved, in that order. */
  datatype Report = Report(
    successCount: nat,
    permanentlyFailed: seq<string>,
    passes: nat,
    attempts: seq<(nat, string)>,
    sleeps: seq<nat>,
    succeeded: seq<string>)

  /** The work list of pass `pass`: the given URLs for pass 1, and for every
      later pass the URLs that failed in the pass before it. */
  function WorkList(urls: seq<string>, pass: nat, succeeds: Verdicts): (list: seq<string>)
    requires pass >= 1
    decreases pass
    ensures |list| <= |urls|
  {
    if pass == 1 then urls else RunPass(WorkList(urls, pass - 1, succeeds), pass - 1, succeeds).failed
  }

  /** The scrape calls of the passes before `pass`. */
  function CallsBefore(urls: seq<string>, pass: nat, succeeds: Verdicts): seq<(nat, string)>
    requires pass >= 1
    decreases pass
  {
    if pass == 1 then []
    else CallsBefore(urls, pass - 1, succeeds) + PassAttempts(WorkList(urls, pass - 1, succeeds), pass - 1)
  }

  /** The pauses of the passes before `pass`. */
  function SleepsBefore(urls: seq<string>, pass: nat, succeeds: Verdicts): seq<nat>
    requires pass >= 1
    decreases pass
  {
    if pass == 1 then []
    else SleepsBefore(urls, pass - 1, succeeds) + PassSleeps(|WorkList(urls, pass - 1, succeeds)|, pass - 1)
  }

  /** The URLs saved in the passes before `pass`. */
  function SucceededBefore(urls: seq<string>, pass: nat, succeeds: Verdicts): seq<string>
    requires pass >= 1
    decreases pass
  {
    if pass == 1 then []
    else SucceededBefore(urls, pass - 1, succeeds) + RunPass(WorkList(urls, pass - 1, succeeds), pass - 1, succeeds).succeeded
  }

  /** The pass number at which the loop stops, searching from `pass`: the
      first whose work list is empty, or the one after `MAX_PASSES`. */
  function StopPass(urls: seq<string>, pass: nat, succeeds: Verdicts): (stop: nat)
    requires pass >= 1
    decreases MAX_PASSES + 1 - pass
    ensures pass <= stop
  {
    if WorkList(urls, pass, succeeds) == [] || pass > MAX_PASSES then pass else StopPass(urls, pass + 1, succeeds)
  }

  /** What phase 2 does with the work list `urls`. */
  function Crawl(urls: seq<string>, succeeds: Verdicts): (r: Report)
    ensures r.successCount + |r.permanentlyFailed| == |urls|
  {
    var stop := StopPass(urls, 1, succeeds);
    var rest := WorkList(urls, stop, succeeds);
    Report(|urls| - |rest|, rest, stop - 1, CallsBefore(urls, stop, succeeds), SleepsBefore(urls, stop, succeeds),
           SucceededBefore(urls, stop, succeeds))
  }

  /** The pass loop as written: a `while` over the passes, each pass the
      `for` loop of `ProcessPass` over the current work list. */
  method ProcessPasses(urls: seq<string>, env: Env, ghost succeeds: Verdicts) returns (report: Report)
    requires Realizes(succeeds, env)
    ensures report == Crawl(urls, succeeds)
    ensures report.successCount + |report.permanentlyFailed| == |urls|
  {
    var urlsToProcess := urls;
    var passNumber: nat := 1;
    var successCount: nat := 0;
    var attempts: seq<(nat, string)> := [];
    var sleeps: seq<nat> := [];
    var succeeded: seq<string> := [];
    while |urlsToProcess| > 0 && passNumber <= MAX_PASSES
      invariant 1 <= passNumber <= MAX_PASSES + 1
      invariant urlsToProcess == WorkList(urls, passNumber, succeeds)
      invariant successCount + |urlsToProcess| == |urls|
      invariant attempts == CallsBefore(urls, passNumber, succeeds)
      invariant sleeps == SleepsBefore(urls, passNumber, succeeds)
      invariant succeeded == SucceededBefore(urls, passNumber, succeeds)
      invariant StopPass(urls, passNumber, succeeds) == StopPass(urls, 1, succeeds)
      decreases MAX_PASSES + 1 - passNumber
    {
      var nextPassFailedUrls, passCalls, passSleeps, passSucceeded;
      successCount, nextPassFailedUrls, passCalls, passSleeps, passSucceeded :=
        ProcessPass(urlsToProcess, passNumber, env, succeeds, successCount);
      attempts, sleeps, succeeded := attempts + passCalls, sleeps + passSleeps, succeeded + passSucceeded;
      PassAdvance(urls, passNumber, succeeds);
      urlsToProcess := nextPassFailedUrls;
      passNumber := passNumber + 1;
    }
    report := Report(successCount, urlsToProcess, passNumber - 1, attempts, sleeps, succeeded);
  }

  /** One pass: every URL of the work list is scraped in order; one with
      content is saved and counted, any other goes on the retry list; a pause
      of `BASE_DELAY_MS * passNumber` follows each URL.  Answers the new
      success count, the retry list, and the scrape calls, the pauses and the
      URLs saved in this pass. */
  method ProcessPass(urlsToProcess: seq<string>, passNumber: nat, env: Env, ghost succeeds: Verdicts,
                     successCount0: nat)
    returns (successCount: nat, nextPassFailedUrls: seq<string>, calls: seq<(nat, string)>,
             pauses: seq<nat>, succeeded: seq<string>)
    requires Realizes(succeeds, env)
    ensures var r := RunPass(urlsToProcess, passNumber, succeeds);
      && successCount == successCount0 + |r.succeeded|
      && nextPassFailedUrls == r.failed
      && succeeded == r.succeeded
      && calls == PassAttempts(urlsToProcess, passNumber)
      && pauses == PassSleeps(|urlsToProcess|, passNumber)
  {
    successCount := successCount0;
    var currentDelay := BASE_DELAY_MS * passNumber;
    nextPassFailedUrls, calls, pauses, succeeded := [], [], [], [];
    PassStart(urlsToProcess, passNumber, succeeds);
    for index := 0 to |urlsToProcess|
      invariant var r := RunPass(urlsToProcess[..index], passNumber, succeeds);
        && successCount == successCount0 + |r.succeeded|
        && nextPassFailedUrls == r.failed
        && succeeded == r.succeeded
        && calls == PassAttempts(urlsToProcess[..index], passNumber)
        && pauses == PassSleeps(index, passNumber)
    {
      var url := urlsToProcess[index];
      PassStep(urlsToProcess, index, passNumber, succeeds);
      calls := calls + [(passNumber, url)];
      var outcome := TryUrl(url, passNumber, env);
      if outcome.Saved? {
        succeeded := succeeded + [url];
        successCount := successCount + 1;
      } else {
        nextPassFailedUrls := nextPassFailedUrls + [url];
      }
      pauses := pauses + [currentDelay];
    }
    assert urlsToProcess[..|urlsToProcess|] == urlsToProcess;
  }

  /** The `try` block for one URL: the scrape, the content check and the
      save; a throw from the scraper or from `processSinglePage`, like a
      result without content, ends in `Failed`.  The branching is that of
      `Attempt` on purpose: the method is the code, the function its
      specification. */
  method TryUrl(url: string, passNumber: nat, env: Env) returns (outcome: Outcome)
    ensures outcome == Attempt(url, passNumber, env)
  {
    var pageData := env.scrape(url, passNumber);
    match pageData {
      case Threw =>
        outcome := Failed;
      case Returned(result) =>
        if result.Some? && result.value.success && result.value.markdown != [] {
          var page := ProcessSinglePage(result.value, url, env.parse(url), env.suffix(url, passNumber),
                                        env.writesOk(url, passNumber));
          if page.Some? {
            outcome := Saved(page.value);
          } else {
            outcome := Failed;
          }
        } else {
          outcome := Failed;
        }
    }
  }

  /** One more URL of the pass: the prefix grows by that URL, the calls and
      the pauses by one entry each. */
  lemma PassStep(urls: seq<string>, index: nat, pass: nat, succeeds: Verdicts)
    requires index < |urls|
    ensures RunPass(urls[..index + 1], pass, succeeds)
      == Record(RunPass(urls[..index], pass, succeeds), urls[index], succeeds(urls[index], pass))
    ensures PassAttempts(urls[..index + 1], pass) == PassAttempts(urls[..index], pass) + [(pass, urls[index])]
    ensures PassSleeps(index + 1, pass) == PassSleeps(index, pass) + [PassDelay(pass)]
  {
    assert urls[..index + 1][..index] == urls[..index];
  }

  /** One more pass of the loop: the next work list is this pass's
      failures, the traces grow by this pass's, and the stopping pass is
      still ahead. */
  lemma PassAdvance(urls: seq<string>, pass: nat, succeeds: Verdicts)
    requires 1 <= pass <= MAX_PASSES && WorkList(urls, pass, succeeds) != []
    ensures var p := RunPass(WorkList(urls, pass, succeeds), pass, succeeds);
      && WorkList(urls, pass + 1, succeeds) == p.failed
      && CallsBefore(urls, pass + 1, succeeds)
         == CallsBefore(urls, pass, succeeds) + PassAttempts(WorkList(urls, pass, succeeds), pass)
      && SleepsBefore(urls, pass + 1, succeeds)
         == SleepsBefore(urls, pass, succeeds) + PassSleeps(|WorkList(urls, pass, succeeds)|, pass)
      && SucceededBefore(urls, pass + 1, succeeds) == SucceededBefore(urls, pass, succeeds) + p.succeeded
      && StopPass(urls, pass + 1, succeeds) == StopPass(urls, pass, succeeds)
  {
  }

  lemma PassStart(urls: seq<string>, pass: nat, succeeds: Verdicts)
    ensures RunPass(urls[..0], pass, succeeds) == PassResult([], [])
    ensures PassAttempts(urls[..0], pass) == []
    ensures PassSleeps(0, pass) == []
  {
    assert urls[..0] == [];
  }
}
