/** What the pass loop promises: every URL ends up either saved or
    permanently failed, a URL is retried exactly while it keeps failing and
    never after it was saved, at most `MAX_PASSES` passes run, and every
    scrape call is followed by a pause that grows with the pass number. */
module SchedulerProperties {
  import opened UrlExtraction
  import opened RetryScheduler

  /** `a` is `b` with some elements left out, in the same order. */
  predicate IsSubsequence(a: seq<string>, b: seq<string>)
    decreases |b|
  {
    if b == [] then a == []
    else
      || (a != [] && a[|a| - 1] == b[|b| - 1] && IsSubsequence(a[..|a| - 1], b[..|b| - 1]))
      || IsSubsequence(a, b[..|b| - 1])
  }

  // ---------------------------------------------------------------------
  // One pass

  /** A pass splits its work list: every URL is counted once, either as a
      success or on the retry list. */
  lemma {:induction false} PassPartition(urls: seq<string>, pass: nat, succeeds: Verdicts)
    decreases |urls|
    ensures var r := RunPass(urls, pass, succeeds);
      multiset(urls) == multiset(r.succeeded) + multiset(r.failed)
  {
    if urls != [] {
      var init, u := urls[..|urls| - 1], urls[|urls| - 1];
      PassPartition(init, pass, succeeds);
      assert urls == init + [u];
    }
  }

  /** A URL goes on the retry list exactly when it is on the work list and
      its attempt fails, and is counted exactly when its attempt succeeds. */
  lemma {:induction false} PassMembership(urls: seq<string>, pass: nat, succeeds: Verdicts, u: string)
    decreases |urls|
    ensures var r := RunPass(urls, pass, succeeds);
      && (u in r.failed <==> u in urls && !succeeds(u, pass))
      && (u in r.succeeded <==> u in urls && succeeds(u, pass))
  {
    if urls != [] {
      var init := urls[..|urls| - 1];
      PassMembership(init, pass, succeeds, u);
      assert urls == init + [urls[|urls| - 1]];
    }
  }

  /** The retry list, and the list of successes, keep the order of the work
      list. */
  lemma {:induction false} PassKeepsOrder(urls: seq<string>, pass: nat, succeeds: Verdicts)
    decreases |urls|
    ensures var r := RunPass(urls, pass, succeeds);
      IsSubsequence(r.failed, urls) && IsSubsequence(r.succeeded, urls)
  {
    var r := RunPass(urls, pass, succeeds);
    if urls != [] {
      var init, u := urls[..|urls| - 1], urls[|urls| - 1];
      var r0 := RunPass(init, pass, succeeds);
      PassKeepsOrder(init, pass, succeeds);
      if succeeds(u, pass) {
        assert r.succeeded[..|r.succeeded| - 1] == r0.succeeded;
        assert IsSubsequence(r.succeeded, urls);
        assert IsSubsequence(r.failed, urls);
      } else {
        assert r.failed[..|r.failed| - 1] == r0.failed;
        assert IsSubsequence(r.failed, urls);
        assert IsSubsequence(r.succeeded, urls);
      }
    }
  }

  /** A work list without duplicates gives a retry list without duplicates. */
  lemma {:induction false} PassKeepsNoDuplicates(urls: seq<string>, pass: nat, succeeds: Verdicts)
    requires NoDuplicates(urls)
    decreases |urls|
    ensures NoDuplicates(RunPass(urls, pass, succeeds).failed)
  {
    if urls != [] {
      var init, u := urls[..|urls| - 1], urls[|urls| - 1];
      assert NoDuplicates(init) by {
        forall i, j | 0 <= i < j < |init| ensures init[i] != init[j] {
          assert init[i] == urls[i] && init[j] == urls[j];
        }
      }
      PassKeepsNoDuplicates(init, pass, succeeds);
      PassMembership(init, pass, succeeds, u);
      assert u !in init by {
        forall i | 0 <= i < |init| ensures init[i] != u {
          assert init[i] == urls[i] && u == urls[|urls| - 1];
        }
      }
    }
  }

  /** The pass number and URL of the k-th scrape call of a pass. */
  lemma {:induction false} PassAttemptsAt(urls: seq<string>, pass: nat)
    decreases |urls|
    ensures forall k | 0 <= k < |urls| :: PassAttempts(urls, pass)[k] == (pass, urls[k])
  {
    if urls != [] {
      var init := urls[..|urls| - 1];
      PassAttemptsAt(init, pass);
      assert forall k | 0 <= k < |init| :: init[k] == urls[k];
    }
  }

  /** Every pause of a pass is `PassDelay(pass)`. */
  lemma {:induction false} PassSleepsAt(n: nat, pass: nat)
    decreases n
    ensures forall k | 0 <= k < n :: PassSleeps(n, pass)[k] == PassDelay(pass)
  {
    if n > 0 {
      PassSleepsAt(n - 1, pass);
    }
  }

  // ---------------------------------------------------------------------
  // The passes

  /** `u` failed in every pass before `pass`. */
  predicate FailedBefore(succeeds: Verdicts, u: string, pass: nat) {
    forall k | 1 <= k < pass :: !succeeds(u, k)
  }

  /** A URL is on the work list of a pass exactly when it was on the first
      work list and failed in every earlier pass. */
  lemma {:induction false} WorkListMembership(urls: seq<string>, pass: nat, succeeds: Verdicts, u: string)
    requires pass >= 1
    decreases pass
    ensures u in WorkList(urls, pass, succeeds) <==> u in urls && FailedBefore(succeeds, u, pass)
  {
    if pass > 1 {
      WorkListMembership(urls, pass - 1, succeeds, u);
      PassMembership(WorkList(urls, pass - 1, succeeds), pass - 1, succeeds, u);
      assert FailedBefore(succeeds, u, pass)
         <==> FailedBefore(succeeds, u, pass - 1) && !succeeds(u, pass - 1);
    }
  }

  /** The work list of a pass keeps the order of the one before it. */
  lemma WorkListKeepsOrder(urls: seq<string>, pass: nat, succeeds: Verdicts)
    requires pass >= 1
    ensures IsSubsequence(WorkList(urls, pass + 1, succeeds), WorkList(urls, pass, succeeds))
  {
    PassKeepsOrder(WorkList(urls, pass, succeeds), pass, succeeds);
  }

  /** A work list without duplicates stays without duplicates. */
  lemma {:induction false} WorkListNoDuplicates(urls: seq<string>, pass: nat, succeeds: Verdicts)
    requires pass >= 1 && NoDuplicates(urls)
    decreases pass
    ensures NoDuplicates(WorkList(urls, pass, succeeds))
  {
    if pass > 1 {
      WorkListNoDuplicates(urls, pass - 1, succeeds);
      PassKeepsNoDuplicates(WorkList(urls, pass - 1, succeeds), pass - 1, succeeds);
    }
  }

  /** A URL saved in pass `k` is on no later work list. */
  lemma SavedNotRetried(urls: seq<string>, succeeds: Verdicts, u: string, k: nat, j: nat)
    requires 1 <= k < j
    requires u in WorkList(urls, k, succeeds) && succeeds(u, k)
    ensures u !in WorkList(urls, j, succeeds)
  {
    WorkListMembership(urls, j, succeeds, u);
  }

  /** Up to any pass boundary, every URL has been saved or is still to be
      processed, and not both. */
  lemma {:induction false} BoundaryPartition(urls: seq<string>, pass: nat, succeeds: Verdicts)
    requires pass >= 1
    decreases pass
    ensures multiset(urls)
            == multiset(SucceededBefore(urls, pass, succeeds)) + multiset(WorkList(urls, pass, succeeds))
  {
    if pass > 1 {
      BoundaryPartition(urls, pass - 1, succeeds);
      PassPartition(WorkList(urls, pass - 1, succeeds), pass - 1, succeeds);
    }
  }

  /** A scrape call of a pass is a (pass, URL) pair for a URL of its work list. */
  lemma PassAttemptsMembership(urls: seq<string>, pass: nat, q: nat, u: string)
    ensures (q, u) in PassAttempts(urls, pass) <==> q == pass && u in urls
  {
    PassAttemptsAt(urls, pass);
    if (q, u) in PassAttempts(urls, pass) {
      var k :| 0 <= k < |urls| && PassAttempts(urls, pass)[k] == (q, u);
    }
    if q == pass && u in urls {
      var k :| 0 <= k < |urls| && urls[k] == u;
      assert PassAttempts(urls, pass)[k] == (q, u);
    }
  }

  /** The scrape calls before pass `pass` are exactly the URLs of the work
      lists of the earlier passes, each with its pass number. */
  lemma {:induction false} CallsMembership(urls: seq<string>, pass: nat, succeeds: Verdicts, q: nat, u: string)
    requires pass >= 1
    decreases pass
    ensures (q, u) in CallsBefore(urls, pass, succeeds) <==> 1 <= q < pass && u in WorkList(urls, q, succeeds)
  {
    if pass > 1 {
      CallsMembership(urls, pass - 1, succeeds, q, u);
      PassAttemptsMembership(WorkList(urls, pass - 1, succeeds), pass - 1, q, u);
    }
  }

  /** A URL whose attempt in pass `k` succeeded is not scraped in any later
      pass. */
  lemma NeverScrapedAfterSuccess(urls: seq<string>, pass: nat, succeeds: Verdicts, u: string, k: nat, j: nat)
    requires pass >= 1 && k < j
    requires (k, u) in CallsBefore(urls, pass, succeeds) && succeeds(u, k)
    ensures (j, u) !in CallsBefore(urls, pass, succeeds)
  {
    CallsMembership(urls, pass, succeeds, k, u);
    CallsMembership(urls, pass, succeeds, j, u);
    if 1 <= j {
      SavedNotRetried(urls, succeeds, u, k, j);
    }
  }

  /** One pause per scrape call, in the same order: the pause after a call
      of pass `p` is `PassDelay(p)`, every call is of a pass before `pass`,
      and the calls come pass by pass. */
  predicate WellScheduled(calls: seq<(nat, string)>, sleeps: seq<nat>, pass: nat) {
    && |sleeps| == |calls|
    && (forall i | 0 <= i < |calls| :: 1 <= calls[i].0 < pass && sleeps[i] == PassDelay(calls[i].0))
    && (forall i, j | 0 <= i < j < |calls| :: calls[i].0 <= calls[j].0)
  }

  /** The scrape calls and pauses of all passes before `pass` are well
      scheduled. */
  lemma {:induction false} Schedule(urls: seq<string>, pass: nat, succeeds: Verdicts)
    requires pass >= 1
    decreases pass
    ensures WellScheduled(CallsBefore(urls, pass, succeeds), SleepsBefore(urls, pass, succeeds), pass)
  {
    if pass > 1 {
      Schedule(urls, pass - 1, succeeds);
      ScheduleAppend(CallsBefore(urls, pass - 1, succeeds), SleepsBefore(urls, pass - 1, succeeds),
                     WorkList(urls, pass - 1, succeeds), pass - 1);
    }
  }

  /** A pass appends its calls and pauses to a well-scheduled trace. */
  lemma ScheduleAppend(c0: seq<(nat, string)>, s0: seq<nat>, list: seq<string>, p: nat)
    requires p >= 1 && WellScheduled(c0, s0, p)
    ensures WellScheduled(c0 + PassAttempts(list, p), s0 + PassSleeps(|list|, p), p + 1)
  {
    PassAttemptsAt(list, p);
    PassSleepsAt(|list|, p);
    var calls, sleeps := c0 + PassAttempts(list, p), s0 + PassSleeps(|list|, p);
    forall i | 0 <= i < |calls|
      ensures 1 <= calls[i].0 < p + 1 && sleeps[i] == PassDelay(calls[i].0)
    {
      if i >= |c0| {
        assert calls[i] == PassAttempts(list, p)[i - |c0|];
        assert sleeps[i] == PassSleeps(|list|, p)[i - |c0|];
      } else {
        assert calls[i] == c0[i] && sleeps[i] == s0[i];
      }
    }
    forall i, j | 0 <= i < j < |calls| ensures calls[i].0 <= calls[j].0 {
      if j >= |c0| {
        assert calls[j] == PassAttempts(list, p)[j - |c0|];
      } else {
        assert calls[i] == c0[i] && calls[j] == c0[j];
      }
    }
  }

  /** The pause after a call is never shorter than the pauses before it, and
      strictly longer than those of earlier passes. */
  lemma DelaysGrow(urls: seq<string>, pass: nat, succeeds: Verdicts)
    requires pass >= 1
    ensures var calls, sleeps := CallsBefore(urls, pass, succeeds), SleepsBefore(urls, pass, succeeds);
      && |sleeps| == |calls|
      && forall i, j | 0 <= i < j < |calls| ::
        && sleeps[i] <= sleeps[j]
        && (calls[i].0 < calls[j].0 ==> sleeps[i] < sleeps[j])
  {
    Schedule(urls, pass, succeeds);
  }

  /** The search for the stopping pass never goes past `MAX_PASSES + 1`. */
  lemma {:induction false} StopPassBound(urls: seq<string>, pass: nat, succeeds: Verdicts)
    requires 1 <= pass <= MAX_PASSES + 1
    decreases MAX_PASSES + 1 - pass
    ensures StopPass(urls, pass, succeeds) <= MAX_PASSES + 1
  {
    if WorkList(urls, pass, succeeds) != [] && pass <= MAX_PASSES {
      StopPassBound(urls, pass + 1, succeeds);
    }
  }

  /** The search stops at an empty work list or after `MAX_PASSES`. */
  lemma {:induction false} StopPassStops(urls: seq<string>, pass: nat, succeeds: Verdicts)
    requires 1 <= pass <= MAX_PASSES + 1
    decreases MAX_PASSES + 1 - pass
    ensures var stop := StopPass(urls, pass, succeeds);
      WorkList(urls, stop, succeeds) == [] || stop == MAX_PASSES + 1
  {
    var stop := StopPass(urls, pass, succeeds);
    if WorkList(urls, pass, succeeds) != [] && pass <= MAX_PASSES {
      StopPassStops(urls, pass + 1, succeeds);
      assert stop == StopPass(urls, pass + 1, succeeds);
    } else {
      assert stop == pass;
    }
  }

  /** Every pass the search went past had work. */
  lemma {:induction false} StopPassBusy(urls: seq<string>, pass: nat, succeeds: Verdicts, k: nat)
    requires 1 <= pass <= k < StopPass(urls, pass, succeeds)
    decreases k - pass
    ensures WorkList(urls, k, succeeds) != []
  {
    if k == pass {
      assert StopPass(urls, pass, succeeds) != pass;
    } else {
      assert StopPass(urls, pass, succeeds) == StopPass(urls, pass + 1, succeeds);
      StopPassBusy(urls, pass + 1, succeeds, k);
    }
  }

  /** The search for the stopping pass: it stops at an empty work list or
      after `MAX_PASSES`, and every pass before it has work. */
  lemma StopPassShape(urls: seq<string>, pass: nat, succeeds: Verdicts)
    requires 1 <= pass <= MAX_PASSES + 1
    ensures var stop := StopPass(urls, pass, succeeds);
      && stop <= MAX_PASSES + 1
      && (WorkList(urls, stop, succeeds) == [] || stop == MAX_PASSES + 1)
      && forall k | pass <= k < stop :: WorkList(urls, k, succeeds) != []
  {
    StopPassBound(urls, pass, succeeds);
    StopPassStops(urls, pass, succeeds);
    forall k | pass <= k < StopPass(urls, pass, succeeds) ensures WorkList(urls, k, succeeds) != [] {
      StopPassBusy(urls, pass, succeeds, k);
    }
  }

  // ---------------------------------------------------------------------
  // The whole of phase 2

  /** No pass runs for an empty work list; otherwise between one and
      `MAX_PASSES` passes run, none of them on an empty list, and URLs are
      left over only when all `MAX_PASSES` passes ran. */
  lemma CrawlPasses(urls: seq<string>, succeeds: Verdicts)
    ensures var r := Crawl(urls, succeeds);
      && r.passes <= MAX_PASSES
      && (r.passes == 0 <==> urls == [])
      && (r.permanentlyFailed != [] ==> r.passes == MAX_PASSES)
      && forall k | 1 <= k <= r.passes :: WorkList(urls, k, succeeds) != []
  {
    StopPassShape(urls, 1, succeeds);
  }

  /** An empty work list: no pass, no call, no success, nothing failed. */
  lemma CrawlEmpty(succeeds: Verdicts)
    ensures Crawl([], succeeds) == Report(0, [], 0, [], [], [])
  {
    assert StopPass([], 1, succeeds) == 1;
  }

  /** Every URL of the work list is saved or permanently failed, and the
      success count is the number of URLs saved. */
  lemma CrawlPartition(urls: seq<string>, succeeds: Verdicts)
    ensures var r := Crawl(urls, succeeds);
      && multiset(urls) == multiset(r.succeeded) + multiset(r.permanentlyFailed)
      && r.successCount == |r.succeeded|
  {
    var stop := StopPass(urls, 1, succeeds);
    BoundaryPartition(urls, stop, succeeds);
    var succeeded, rest := SucceededBefore(urls, stop, succeeds), WorkList(urls, stop, succeeds);
    assert |multiset(urls)| == |multiset(succeeded)| + |multiset(rest)|;
  }

  /** A URL is permanently failed exactly when it was on the work list and
      failed in every pass that ran. */
  lemma CrawlPermanentFailures(urls: seq<string>, succeeds: Verdicts, u: string)
    ensures var r := Crawl(urls, succeeds);
      u in r.permanentlyFailed <==> u in urls && forall k | 1 <= k <= r.passes :: !succeeds(u, k)
  {
    WorkListMembership(urls, StopPass(urls, 1, succeeds), succeeds, u);
  }

  /** A work list without duplicates leaves permanent failures without
      duplicates. */
  lemma CrawlNoDuplicates(urls: seq<string>, succeeds: Verdicts)
    requires NoDuplicates(urls)
    ensures NoDuplicates(Crawl(urls, succeeds).permanentlyFailed)
  {
    WorkListNoDuplicates(urls, StopPass(urls, 1, succeeds), succeeds);
  }

  /** The scrape calls are exactly the URLs of the work list of each pass
      that ran, with its pass number; a URL saved in one pass is never
      scraped again. */
  lemma CrawlAttempts(urls: seq<string>, succeeds: Verdicts, u: string, k: nat)
    ensures var r := Crawl(urls, succeeds);
      && ((k, u) in r.attempts <==> 1 <= k <= r.passes && u in WorkList(urls, k, succeeds))
      && ((k, u) in r.attempts && succeeds(u, k) ==> forall j | j > k :: (j, u) !in r.attempts)
  {
    var stop := StopPass(urls, 1, succeeds);
    StopPassShape(urls, 1, succeeds);
    CallsMembership(urls, stop, succeeds, k, u);
    if (k, u) in CallsBefore(urls, stop, succeeds) && succeeds(u, k) {
      forall j | j > k ensures (j, u) !in CallsBefore(urls, stop, succeeds) {
        NeverScrapedAfterSuccess(urls, stop, succeeds, u, k, j);
      }
    }
  }

  /** Each scrape call is followed by one pause of `BASE_DELAY_MS` times its
      pass number; the calls come pass by pass, so the pauses never shrink. */
  lemma CrawlSchedule(urls: seq<string>, succeeds: Verdicts)
    ensures var r := Crawl(urls, succeeds);
      && |r.sleeps| == |r.attempts|
      && (forall i | 0 <= i < |r.attempts| ::
            1 <= r.attempts[i].0 <= r.passes && r.sleeps[i] == BASE_DELAY_MS * r.attempts[i].0)
      && (forall i, j | 0 <= i < j < |r.attempts| ::
            r.attempts[i].0 <= r.attempts[j].0 && r.sleeps[i] <= r.sleeps[j])
  {
    var stop := StopPass(urls, 1, succeeds);
    StopPassShape(urls, 1, succeeds);
    Schedule(urls, stop, succeeds);
    DelaysGrow(urls, stop, succeeds);
  }
}
