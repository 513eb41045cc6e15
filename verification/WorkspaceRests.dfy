/** How long a workspace rests after failures, and what cuts a rest short, over runs of the account pool
    (internal/app/account_pool.go:66-69, 100-192, 435-454, 584-645). */
module WorkspaceRests {
  import opened Wrappers
  import opened AccountPool

  // ---- Workspace cooldowns --------------------------------------------------------------------

  function Later(a: int, b: int): int {
    if a < b then b else a
  }

  /** When a workspace may be tried again after a failure that is its n-th in a row: six hours later if
      its quota is spent, and otherwise after the backoff or at a later Retry-After. */
  function RestAfter(n: int, now: int, f: Failure): int {
    if f.quotaExhausted then Stored(now + 21_600_000_000_000)
    else if f.api && f.retryAfter.Some? then Later(Stored(now + CooldownFor(n, f.retryable)), Stored(f.retryAfter.value))
    else Stored(now + CooldownFor(n, f.retryable))
  }

  lemma FailureRests(w: Workspace, now: int, f: Failure)
    ensures FailedWorkspace(w, now, f).cooldownUntil == Some(RestAfter(w.failures + 1, now, f))
  {
    hide CooldownFor;
  }

  predicate RestsUntil(c: Config, email: string, workspace: string, d: int) {
    Has(c, email, workspace) ==>
      c[email].workspaces[workspace].cooldownUntil.Some? && c[email].workspaces[workspace].cooldownUntil.value >= d
  }

  /** A success of a request that was still in flight ends the rest, and so does a healthy refresh, unless
      a spent allowance is sat out or something was added since it started; a failure replaces it. */
  predicate Shortens(c: Config, step: Step, email: string, workspace: string, d: int) {
    && Has(c, email, workspace) && step.email == email && step.workspace == workspace
    && match step
       case Success(_, _, _) => true
       case Fail(_, _, now, f) => RestAfter(c[email].workspaces[workspace].failures + 1, now, f) < d
       case Refresh(_, _, now, started, outcome) => Recovers(c[email].workspaces[workspace], now, started, outcome)
       case _ => false
  }

  /** A rest survives a step exactly if the step is neither a success on the workspace, nor a failure on it
      whose own rest ends earlier, nor a refresh from which it recovers. */
  lemma RestSurvivesExactly(c: Config, step: Step, email: string, workspace: string, d: int)
    requires RestsUntil(c, email, workspace, d)
    ensures RestsUntil(Next(c, step), email, workspace, d) <==> !Shortens(c, step, email, workspace, d)
  {
    hide Remaining, CooldownFor, Stored, FailedWorkspace, Backoff, Raised, Eligible, RestAfter, Recovers;
    match step
    case Fail(e, w, now, f) =>
      if Has(c, e, w) {
        FailureRests(c[e].workspaces[w], now, f);
      }
    case _ =>
  }

  predicate ShortenedDuring(c: Config, steps: seq<Step>, email: string, workspace: string, d: int)
    decreases |steps|
  {
    steps != []
    && (Shortens(c, steps[0], email, workspace, d) || ShortenedDuring(Next(c, steps[0]), steps[1..], email, workspace, d))
  }

  lemma EligibleIsRested(c: Config, start: Step, d: int)
    requires start.Begin? && RestsUntil(c, start.email, start.workspace, d) && Admits(c, start)
    ensures start.now >= d
  {
    hide Remaining;
  }

  /** A start before the end of a rest means that some step of the run since cut the rest short. */
  lemma {:induction false} EarlyStartWasShortened(c: Config, steps: seq<Step>, start: Step, d: int)
    requires start.Begin? && RestsUntil(c, start.email, start.workspace, d)
    requires Admits(Run(c, steps), start) && start.now < d
    ensures ShortenedDuring(c, steps, start.email, start.workspace, d)
    decreases |steps|
  {
    hide Next, Shortens, RestsUntil, Admits;
    if steps == [] {
      EligibleIsRested(c, start, d);
    } else {
      RestSurvivesExactly(c, steps[0], start.email, start.workspace, d);
      if !Shortens(c, steps[0], start.email, start.workspace, d) {
        EarlyStartWasShortened(Next(c, steps[0]), steps[1..], start, d);
      }
    }
  }

  /** Any plain failure more than half an hour before the end of a rest cuts it short, so one within the
      first five and a half hours after the quota was found spent cuts the six hours short. */
  lemma PlainFailureShortens(c: Config, email: string, workspace: string, now: int, f: Failure, d: int)
    requires Has(c, email, workspace) && !f.quotaExhausted && now + COOLDOWN_MAX < d
    requires f.api && f.retryAfter.Some? ==> Stored(f.retryAfter.value) < d
    ensures Shortens(c, Fail(email, workspace, now, f), email, workspace, d)
  {
    hide CooldownFor, Stored;
    CooldownBounds(c[email].workspaces[workspace].failures + 1, f.retryable);
  }

  lemma QuotaRestIsShortenedFor(c: Config, email: string, workspace: string, spent: Failure, since: int, now: int, f: Failure)
    requires Has(c, email, workspace) && spent.quotaExhausted && !f.quotaExhausted && !(f.api && f.retryAfter.Some?)
    requires now < Stored(since + QUOTA_COOLDOWN - COOLDOWN_MAX)
    ensures var c' := Next(c, Fail(email, workspace, since, spent));
      && RestsUntil(c', email, workspace, Stored(since + QUOTA_COOLDOWN))
      && Shortens(c', Fail(email, workspace, now, f), email, workspace, Stored(since + QUOTA_COOLDOWN))
  {
    var c' := Next(c, Fail(email, workspace, since, spent));
    WholeShift(since + QUOTA_COOLDOWN - COOLDOWN_MAX, COOLDOWN_MAX);
    hide Stored, CooldownFor, Backoff, Raised, Shortens;
    FailureRests(c[email].workspaces[workspace], since, spent);
    PlainFailureShortens(c', email, workspace, now, f, Stored(since + QUOTA_COOLDOWN));
  }

  lemma WholeShift(t: int, span: int)
    requires Whole(span)
    ensures Stored(t + span) == Stored(t) + span
  {
    assert span == span / SECOND * SECOND;
  }

  // A workspace that has never been used, and two requests that are in flight on it.
  const IDLE := Workspace(0, None, 0, None, 0, None, false, None)
  const ONE_WORKSPACE: Config := map["a" := Account(false, None, map["w" := IDLE])]
  const QUOTA_SPENT := Failure(true, false, false, false, None, true)
  const TIMED_OUT := Failure(false, false, false, false, None, true)

  function AfterBoth(last: Step): Config {
    Run(ONE_WORKSPACE, [Begin("a", "w", HOUR, true), Begin("a", "w", HOUR, true), Fail("a", "w", HOUR, QUOTA_SPENT), last])
  }

  /** One request finds the quota spent; the other, still in flight, then fails for another reason, and
      the workspace is started again after four minutes; or it succeeds, and it is started at once. */
  lemma QuotaRestCutShort()
    ensures Admits(AfterBoth(Fail("a", "w", HOUR, TIMED_OUT)), Begin("a", "w", HOUR + 4 * MINUTE, true))
    ensures Admits(AfterBoth(Success("a", "w", HOUR)), Begin("a", "w", HOUR, true))
  {
    AfterFour(ONE_WORKSPACE, Begin("a", "w", HOUR, true), Begin("a", "w", HOUR, true), Fail("a", "w", HOUR, QUOTA_SPENT),
              Fail("a", "w", HOUR, TIMED_OUT));
    AfterFour(ONE_WORKSPACE, Begin("a", "w", HOUR, true), Begin("a", "w", HOUR, true), Fail("a", "w", HOUR, QUOTA_SPENT),
              Success("a", "w", HOUR));
  }

  lemma AfterFour(c: Config, a: Step, b: Step, d: Step, e: Step)
    ensures Run(c, [a, b, d, e]) == Next(Next(Next(Next(c, a), b), d), e)
  {
    hide Next;
    RunNothing(c);
    RunSnoc(c, [], a);
    RunSnoc(c, [a], b);
    RunSnoc(c, [a, b], d);
    RunSnoc(c, [a, b, d], e);
    assert [] + [a] == [a] && [a] + [b] == [a, b] && [a, b] + [d] == [a, b, d] && [a, b, d] + [e] == [a, b, d, e];
  }

  /** A failure is counted, sets the rest and records whether and when the quota was found spent. */
  lemma FailureOutcome(w: Workspace, now: int, f: Failure)
    ensures FailedWorkspace(w, now, f) ==
      Workspace(w.hourlyQuota, w.windowStartedAt, w.windowRequests, Some(RestAfter(w.failures + 1, now, f)), w.failures + 1,
                Some(Stored(now)), f.quotaExhausted, if f.quotaExhausted then Some(Stored(now)) else w.quotaSpentAt)
  {
    hide CooldownFor, Stored, RestAfter;
    FailureRests(w, now, f);
  }

  // ---- Rests after a spent allowance ----------------------------------------------------------

  /** The workspace, if it is still there, sits out a spent allowance until d at least. */
  predicate QuotaRest(c: Config, email: string, workspace: string, d: int) {
    RestsUntil(c, email, workspace, d) && (Has(c, email, workspace) ==> c[email].workspaces[workspace].quotaSpent)
  }

  /** What takes away the status of a spent allowance or ends its rest: a success, an ordinary failure, a
      failed refresh with another status, or a spent allowance found too early. */
  predicate EndsQuotaRest(c: Config, step: Step, email: string, workspace: string, d: int) {
    && Has(c, email, workspace) && step.email == email && step.workspace == workspace
    && match step
       case Success(_, _, _) => true
       case Fail(_, _, now, f) => !f.quotaExhausted || Stored(now + QUOTA_COOLDOWN) < d
       case Refresh(_, _, _, _, outcome) => outcome == Unhealthy(Some(false))
       case _ => false
  }

  /** Before its end, no healthy refresh touches the rest of a spent allowance; exactly the other four do. */
  lemma QuotaRestSurvivesExactly(c: Config, step: Step, email: string, workspace: string, d: int)
    requires QuotaRest(c, email, workspace, d) && TimeOf(step, d - 1) < d
    ensures QuotaRest(Next(c, step), email, workspace, d) <==> !EndsQuotaRest(c, step, email, workspace, d)
  {
    hide Remaining, CooldownFor, Stored, Backoff, Raised, Eligible;
  }

  predicate EndedDuring(c: Config, steps: seq<Step>, email: string, workspace: string, d: int)
    decreases |steps|
  {
    steps != []
    && (EndsQuotaRest(c, steps[0], email, workspace, d) || EndedDuring(Next(c, steps[0]), steps[1..], email, workspace, d))
  }

  /** Over every run, a start before the end of the rest of a spent allowance follows one of those four. */
  lemma {:induction false} EarlyStartAfterQuota(c: Config, steps: seq<Step>, start: Step, d: int)
    requires start.Begin? && QuotaRest(c, start.email, start.workspace, d)
    requires forall step :: step in steps ==> TimeOf(step, d - 1) < d
    requires Admits(Run(c, steps), start) && start.now < d
    ensures EndedDuring(c, steps, start.email, start.workspace, d)
    decreases |steps|
  {
    hide Next, EndsQuotaRest, RestsUntil, Admits, TimeOf;
    if steps == [] {
      EligibleIsRested(c, start, d);
    } else {
      assert steps[0] in steps && forall step :: step in steps[1..] ==> step in steps;
      QuotaRestSurvivesExactly(c, steps[0], start.email, start.workspace, d);
      if !EndsQuotaRest(c, steps[0], start.email, start.workspace, d) {
        EarlyStartAfterQuota(Next(c, steps[0]), steps[1..], start, d);
      }
    }
  }

  const SPENT_MARKS := Marks(Some(HOUR + QUOTA_COOLDOWN), Some(HOUR), 1)

  function AfterRefresh(outcome: Outcome): Config {
    Run(ONE_WORKSPACE, [Begin("a", "w", HOUR, true), Fail("a", "w", HOUR, QUOTA_SPENT),
                        Refresh("a", "w", HOUR, SPENT_MARKS, outcome), Refresh("a", "w", HOUR, SPENT_MARKS, Healthy)])
  }

  /** Healthy refreshes leave the six hours alone; but a failed refresh takes the status away, and the next
      healthy one then ends the rest, so that the workspace is started again at once. */
  lemma RelabelledRestIsCleared()
    ensures QuotaRest(AfterRefresh(Healthy), "a", "w", HOUR + QUOTA_COOLDOWN)
    ensures Admits(AfterRefresh(Unhealthy(Some(false))), Begin("a", "w", HOUR, true))
  {
    AfterFour(ONE_WORKSPACE, Begin("a", "w", HOUR, true), Fail("a", "w", HOUR, QUOTA_SPENT),
              Refresh("a", "w", HOUR, SPENT_MARKS, Healthy), Refresh("a", "w", HOUR, SPENT_MARKS, Healthy));
    AfterFour(ONE_WORKSPACE, Begin("a", "w", HOUR, true), Fail("a", "w", HOUR, QUOTA_SPENT),
              Refresh("a", "w", HOUR, SPENT_MARKS, Unhealthy(Some(false))), Refresh("a", "w", HOUR, SPENT_MARKS, Healthy));
  }

  // ---- Failures in a row ----------------------------------------------------------------------

  datatype Failing = Failing(at: int, failure: Failure)

  /** Failures in a row, of any kind. */
  function Failures(email: string, workspace: string, fs: seq<Failing>): seq<Step> {
    if fs == [] then []
    else
      var last := fs[|fs| - 1];
      Failures(email, workspace, fs[..|fs| - 1]) + [Fail(email, workspace, last.at, last.failure)]
  }

  lemma {:induction false} RunSnoc(c: Config, steps: seq<Step>, step: Step)
    ensures Run(c, steps + [step]) == Next(Run(c, steps), step)
    decreases |steps|
  {
    hide Next;
    if steps == [] {
      assert steps + [step] == [step] && [step][1..] == [];
    } else {
      assert (steps + [step])[1..] == steps[1..] + [step];
      RunSnoc(Next(c, steps[0]), steps[1..], step);
    }
  }

  /** After a success, whatever failures follow in a row, they are all counted and the rest is that of the
      last one under that count. */
  lemma {:induction false} RestGrowsWithFailures(c: Config, email: string, workspace: string, start: int, fs: seq<Failing>)
    requires Has(c, email, workspace)
    ensures var c' := Run(Next(c, Success(email, workspace, start)), Failures(email, workspace, fs));
      && Has(c', email, workspace) && c'[email].workspaces[workspace].failures == |fs|
      && c'[email].workspaces[workspace].cooldownUntil ==
           if fs == [] then None else Some(RestAfter(|fs|, fs[|fs| - 1].at, fs[|fs| - 1].failure))
    decreases |fs|
  {
    hide CooldownFor, Stored, Backoff, Raised, Run, RestAfter;
    var s := Next(c, Success(email, workspace, start));
    if fs == [] {
      RunNothing(s);
    } else {
      var init, last := fs[..|fs| - 1], fs[|fs| - 1];
      RestGrowsWithFailures(c, email, workspace, start, init);
      RunSnoc(s, Failures(email, workspace, init), Fail(email, workspace, last.at, last.failure));
      FailureRests(Run(s, Failures(email, workspace, init))[email].workspaces[workspace], last.at, last.failure);
    }
  }

  lemma RunNothing(c: Config)
    ensures Run(c, []) == c
  {
  }
}
