/** Account pool bookkeeping: hourly quota windows and cooldowns over runs of atomic begin, finish and
    refresh steps (internal/app/account_pool.go:23-192, 435-668, internal/app/dispatch_safety.go:11-37).
    Times are nanoseconds; a stored time is a whole second, because it is written in RFC 3339 form. */
module AccountPool {
  import opened Wrappers

  const SECOND := 1_000_000_000
  const MINUTE := 60 * SECOND
  const HOUR := 60 * MINUTE
  const COOLDOWN_BASE := 2 * MINUTE
  const COOLDOWN_MAX := 30 * MINUTE
  const QUOTA_COOLDOWN := 6 * HOUR

  /** What a time becomes when it is stored. */
  function Stored(t: int): (r: int)
    ensures r <= t < r + SECOND && r % SECOND == 0
  {
    t - t % SECOND
  }

  predicate Whole(t: int) {
    t % SECOND == 0
  }

  /** quotaSpent: the status says that the upstream allowance is spent, and quotaSpentAt when that was last found. */
  datatype Workspace = Workspace(
    hourlyQuota: int, windowStartedAt: Option<int>, windowRequests: int,
    cooldownUntil: Option<int>, failures: int, lastUsedAt: Option<int>, quotaSpent: bool, quotaSpentAt: Option<int>)

  datatype Account = Account(disabled: bool, credentialUntil: Option<int>, workspaces: map<string, Workspace>)

  type Config = map<string, Account>

  /** What the finish step looks at in an error. api says whether the upstream answered with an error
      of its own, retryAfter when it asked to be called again. */
  datatype Failure = Failure(
    quotaExhausted: bool, trustDenied: bool, api: bool, tooManyRequests: bool, retryAfter: Option<int>, retryable: bool)

  // ---- One workspace --------------------------------------------------------------------------

  /** resetAccountUsageWindow */
  function WithWindow(w: Workspace, now: int): Workspace {
    if w.hourlyQuota <= 0 then w.(windowStartedAt := None, windowRequests := 0)
    else if w.windowStartedAt.None? || now - w.windowStartedAt.value >= HOUR then
      w.(windowStartedAt := Some(Stored(now)), windowRequests := 0)
    else w
  }

  /** accountRemainingQuota of a limited workspace. */
  function Remaining(w: Workspace, now: int): int {
    var left := w.hourlyQuota - WithWindow(w, now).windowRequests;
    if left < 0 then 0 else left
  }

  predicate CoolingDown(until: Option<int>, now: int) {
    until.Some? && now < until.value
  }

  /** accountDispatchEligible; ready stands for the checks on plan, status and files. */
  predicate Eligible(a: Account, w: Workspace, ready: bool, now: int) {
    && !a.disabled && !CoolingDown(a.credentialUntil, now) && ready
    && !CoolingDown(w.cooldownUntil, now)
    && (w.hourlyQuota > 0 ==> Remaining(w, now) > 0)
  }

  /** markAccountDispatchStart */
  function Started(w: Workspace, now: int): Workspace {
    var reset := WithWindow(w, now);
    reset.(windowRequests := if w.hourlyQuota > 0 then reset.windowRequests + 1 else reset.windowRequests,
           lastUsedAt := Some(Stored(now)))
  }

  /** markAccountDispatchSuccess */
  function Succeeded(w: Workspace, now: int): Workspace {
    w.(lastUsedAt := Some(Stored(now)), cooldownUntil := None, failures := 0, quotaSpent := false)
  }

  /** computeAccountCooldown */
  function CooldownFor(failures: int, retryable: bool): int {
    var counted := if failures < 1 then 1 else failures;
    var wait := if retryable then counted * COOLDOWN_BASE else counted * COOLDOWN_BASE / 2;
    if wait < 30 * SECOND then 30 * SECOND
    else if wait > COOLDOWN_MAX then COOLDOWN_MAX
    else wait
  }

  /** markAccountDispatchFailure */
  function FailedWorkspace(w: Workspace, now: int, f: Failure): Workspace {
    var counted := w.(failures := w.failures + 1, lastUsedAt := Some(Stored(now)), quotaSpent := f.quotaExhausted);
    if f.quotaExhausted then
      counted.(cooldownUntil := Some(Stored(now + QUOTA_COOLDOWN)), quotaSpentAt := Some(Stored(now)))
    else
      var until := Stored(now + CooldownFor(counted.failures, f.retryable));
      counted.(cooldownUntil := Some(
        if f.api && f.retryAfter.Some? && f.retryAfter.value > until then Stored(f.retryAfter.value) else until))
  }

  /** The failure bookkeeping a refresh compares with what it was when it started. */
  datatype Marks = Marks(cooldownUntil: Option<int>, quotaSpentAt: Option<int>, failures: int)

  function MarksOf(w: Workspace): Marks {
    Marks(w.cooldownUntil, w.quotaSpentAt, w.failures)
  }

  /** What a refresh found: a healthy account, or not, with a status of its own or none. spent says whether
      that status is the one of a spent allowance. */
  datatype Outcome = Healthy | Unhealthy(spent: Option<bool>)

  /** activeQuotaCooldown */
  predicate SitsOutQuota(w: Workspace, now: int) {
    w.quotaSpent && CoolingDown(w.cooldownUntil, now)
  }

  /** A healthy refresh clears the failures nobody has added to, unless a spent allowance is sat out. */
  predicate Recovers(w: Workspace, now: int, started: Marks, outcome: Outcome) {
    outcome.Healthy? && started == MarksOf(w) && !SitsOutQuota(w, now)
  }

  /** commitAccountRefreshResult, for the account's identity unchanged */
  function Refreshed(w: Workspace, now: int, started: Marks, outcome: Outcome): Workspace {
    if Recovers(w, now, started, outcome) then w.(cooldownUntil := None, failures := 0, quotaSpent := false)
    else if outcome.Unhealthy? && outcome.spent.Some? then w.(quotaSpent := outcome.spent.value)
    else w
  }

  /** credentialBackoff */
  function Backoff(f: Failure, now: int): Option<int> {
    var base :=
      if f.trustDenied then Some(now + 30 * MINUTE)
      else if f.api && f.tooManyRequests then Some(now + 2 * MINUTE)
      else None;
    if base.Some? && f.api && f.retryAfter.Some? && f.retryAfter.value > base.value then f.retryAfter else base
  }

  function Raised(current: Option<int>, until: Option<int>): Option<int> {
    if until.Some? && (current.None? || until.value > current.value) then Some(Stored(until.value)) else current
  }

  // ---- Steps ----------------------------------------------------------------------------------

  datatype Step =
    | Begin(email: string, workspace: string, now: int, ready: bool)
    | Success(email: string, workspace: string, now: int)
    | Fail(email: string, workspace: string, now: int, failure: Failure)
    | RemoveWorkspace(email: string, workspace: string)
    | Refresh(email: string, workspace: string, now: int, started: Marks, outcome: Outcome)

  predicate Has(c: Config, email: string, workspace: string) {
    email in c && workspace in c[email].workspaces
  }

  function SetWorkspace(c: Config, email: string, workspace: string, w: Workspace): Config
    requires email in c
  {
    c[email := c[email].(workspaces := c[email].workspaces[workspace := w])]
  }

  predicate Admits(c: Config, step: Step) {
    step.Begin? && Has(c, step.email, step.workspace)
    && Eligible(c[step.email], c[step.email].workspaces[step.workspace], step.ready, step.now)
  }

  function BeginStep(c: Config, email: string, workspace: string, now: int, ready: bool): Config {
    if Admits(c, Begin(email, workspace, now, ready)) then
      SetWorkspace(c, email, workspace, Started(c[email].workspaces[workspace], now))
    else c
  }

  function SuccessStep(c: Config, email: string, workspace: string, now: int): Config {
    if Has(c, email, workspace) then SetWorkspace(c, email, workspace, Succeeded(c[email].workspaces[workspace], now)) else c
  }

  /** The credential of the account is cooled down even when the failing workspace is gone. */
  function FailStep(c: Config, email: string, workspace: string, now: int, f: Failure): Config {
    if email !in c then c
    else
      var a := c[email].(credentialUntil := Raised(c[email].credentialUntil, Backoff(f, now)));
      c[email := if workspace in a.workspaces
                 then a.(workspaces := a.workspaces[workspace := FailedWorkspace(a.workspaces[workspace], now, f)]) else a]
  }

  function RefreshStep(c: Config, email: string, workspace: string, now: int, started: Marks, outcome: Outcome): Config {
    if Has(c, email, workspace) then
      SetWorkspace(c, email, workspace, Refreshed(c[email].workspaces[workspace], now, started, outcome))
    else c
  }

  function Next(c: Config, step: Step): Config {
    match step
    case Begin(email, workspace, now, ready) => BeginStep(c, email, workspace, now, ready)
    case Success(email, workspace, now) => SuccessStep(c, email, workspace, now)
    case Fail(email, workspace, now, failure) => FailStep(c, email, workspace, now, failure)
    case RemoveWorkspace(email, workspace) =>
      if email in c then c[email := c[email].(workspaces := c[email].workspaces - {workspace})] else c
    case Refresh(email, workspace, now, started, outcome) => RefreshStep(c, email, workspace, now, started, outcome)
  }

  function Run(c: Config, steps: seq<Step>): Config
    decreases |steps|
  {
    if steps == [] then c else Run(Next(c, steps[0]), steps[1..])
  }

  function TimeOf(step: Step, last: int): int {
    match step
    case Begin(_, _, now, _) => now
    case Success(_, _, now) => now
    case Fail(_, _, now, _) => now
    case RemoveWorkspace(_, _) => last
    case Refresh(_, _, now, _, _) => now
  }

  // ---- When a start is admitted ---------------------------------------------------------------

  /** The hour that is running has used up the quota. */
  predicate QuotaUsedUp(w: Workspace, now: int) {
    && w.hourlyQuota > 0 && w.windowRequests >= w.hourlyQuota
    && w.windowStartedAt.Some? && now < w.windowStartedAt.value + 3_600_000_000_000
  }

  lemma RemainingOfWindow(w: Workspace, now: int)
    requires w.hourlyQuota > 0
    ensures Remaining(w, now) > 0 <==> !QuotaUsedUp(w, now)
    ensures w.windowStartedAt.Some? && now < w.windowStartedAt.value + HOUR && w.windowRequests <= w.hourlyQuota ==>
      Remaining(w, now) == w.hourlyQuota - w.windowRequests
    ensures w.windowStartedAt.None? || now >= w.windowStartedAt.value + HOUR ==> Remaining(w, now) == w.hourlyQuota
  {
  }

  /** A start is refused for these reasons and no other: the account is switched off, its plan, status or files
      are not ready, its credential or the workspace is cooling down, or the running hour has used up the quota. */
  lemma EligibleExactly(a: Account, w: Workspace, ready: bool, now: int)
    ensures !Eligible(a, w, ready, now) <==>
      || a.disabled || !ready
      || (a.credentialUntil.Some? && now < a.credentialUntil.value)
      || (w.cooldownUntil.Some? && now < w.cooldownUntil.value)
      || QuotaUsedUp(w, now)
  {
    hide Remaining;
    if w.hourlyQuota > 0 {
      RemainingOfWindow(w, now);
    }
  }

  // ---- Credential cooldowns -------------------------------------------------------------------

  predicate WholeDeadline(c: Config, email: string) {
    email in c && (c[email].credentialUntil.Some? ==> Whole(c[email].credentialUntil.value))
  }

  /** The credential deadline is at least d. */
  predicate HeldUntil(c: Config, email: string, d: int) {
    email in c && c[email].credentialUntil.Some? && c[email].credentialUntil.value >= d
  }

  lemma WholeBelow(d: int, t: int)
    requires Whole(d) && d <= t
    ensures d <= Stored(t)
  {
  }

  /** No step lowers the deadline of a credential or makes it anything but a whole second. */
  lemma StepKeepsDeadline(c: Config, step: Step, email: string, d: int)
    requires WholeDeadline(c, email)
    ensures WholeDeadline(Next(c, step), email)
    ensures HeldUntil(c, email, d) ==> HeldUntil(Next(c, step), email, d)
  {
    hide WithWindow, Remaining, CooldownFor, FailedWorkspace, Stored, Eligible, Started, Succeeded;
    match step
    case Fail(e, workspace, now, f) =>
      if e == email && c[email].credentialUntil.Some? && Backoff(f, now).Some?
         && Backoff(f, now).value > c[email].credentialUntil.value {
        WholeBelow(c[email].credentialUntil.value, Backoff(f, now).value);
      }
    case _ =>
  }

  lemma {:induction false} DeadlineNeverDecreases(c: Config, steps: seq<Step>, email: string, d: int)
    requires WholeDeadline(c, email)
    ensures WholeDeadline(Run(c, steps), email)
    ensures HeldUntil(c, email, d) ==> HeldUntil(Run(c, steps), email, d)
    decreases |steps|
  {
    hide Next;
    if steps != [] {
      StepKeepsDeadline(c, steps[0], email, d);
      DeadlineNeverDecreases(Next(c, steps[0]), steps[1..], email, d);
    }
  }

  /** A trust denial or a 429 holds the credential at least for its base backoff, and to a later
      Retry-After, whether or not the failing workspace still exists. */
  lemma FailureRaisesDeadline(c: Config, email: string, workspace: string, now: int, f: Failure)
    requires WholeDeadline(c, email)
    ensures var c' := Next(c, Fail(email, workspace, now, f));
      && (f.trustDenied ==> HeldUntil(c', email, Stored(now + 30 * MINUTE)))
      && (f.api && f.tooManyRequests ==> HeldUntil(c', email, Stored(now + 2 * MINUTE)))
      && ((f.trustDenied || f.tooManyRequests) && f.api && f.retryAfter.Some? ==> HeldUntil(c', email, Stored(f.retryAfter.value)))
      && (Backoff(f, now).None? ==> c'[email].credentialUntil == c[email].credentialUntil)
  {
    hide FailedWorkspace, Stored, Raised;
    if Backoff(f, now).Some? {
      var until := Backoff(f, now);
      RaisedAtLeast(c[email].credentialUntil, until, now + 2 * MINUTE);
      RaisedAtLeast(c[email].credentialUntil, until, if f.trustDenied then now + 30 * MINUTE else now + 2 * MINUTE);
      if f.retryAfter.Some? {
        RaisedAtLeast(c[email].credentialUntil, until, f.retryAfter.value);
      }
    }
    RaisedByNothing(c[email].credentialUntil);
  }

  lemma RaisedByNothing(current: Option<int>)
    ensures Raised(current, None) == current
  {
  }

  lemma RaisedAtLeast(current: Option<int>, until: Option<int>, t: int)
    requires until.Some? && (current.Some? ==> Whole(current.value))
    ensures t <= until.value ==> Raised(current, until).Some? && Stored(t) <= Raised(current, until).value
  {
  }

  /** Every admitted start of any workspace of the account is at or after the stored deadline, over
      every run that follows a failure. */
  lemma NoStartBeforeDeadline(c: Config, steps: seq<Step>, start: Step, d: int)
    requires start.Begin? && WholeDeadline(c, start.email) && HeldUntil(c, start.email, d)
    requires Admits(Run(c, steps), start)
    ensures start.now >= d
  {
    hide Run, WithWindow, Remaining;
    DeadlineNeverDecreases(c, steps, start.email, d);
  }

  /** The n-th failure in a row costs n times two minutes, or n minutes if it is not worth a retry, up to half an
      hour; the lower bound of half a minute is never reached. */
  lemma CooldownBounds(failures: int, retryable: bool)
    ensures failures >= 1 && retryable ==>
      CooldownFor(failures, retryable) == if failures <= 15 then failures * 120 * SECOND else 1800 * SECOND
    ensures failures >= 1 && !retryable ==>
      CooldownFor(failures, retryable) == if failures <= 30 then failures * 60 * SECOND else 1800 * SECOND
    ensures failures < 1 ==> CooldownFor(failures, retryable) == CooldownFor(1, retryable)
    ensures 60 * SECOND <= CooldownFor(failures, retryable) <= COOLDOWN_MAX
    ensures CooldownFor(failures, retryable) <= CooldownFor(failures + 1, retryable)
  {
  }

  // ---- What finishing and refreshing leave behind ---------------------------------------------

  /** A success clears what failures left and nothing else. */
  lemma SuccessOutcome(w: Workspace, now: int)
    ensures Succeeded(w, now) ==
      Workspace(w.hourlyQuota, w.windowStartedAt, w.windowRequests, None, 0, Some(Stored(now)), false, w.quotaSpentAt)
  {
  }

  /** A refresh that found the account healthy clears the failures exactly if nothing was added to them since it
      started and no spent quota is being sat out; one that did not changes at most the status. */
  lemma RefreshOutcome(w: Workspace, now: int, started: Marks, outcome: Outcome)
    ensures var r := Refreshed(w, now, started, outcome);
      if && outcome.Healthy? && started.cooldownUntil == w.cooldownUntil && started.quotaSpentAt == w.quotaSpentAt
         && started.failures == w.failures
         && (w.quotaSpent && w.cooldownUntil.Some? ==> now >= w.cooldownUntil.value)
      then r == w.(cooldownUntil := None, failures := 0, quotaSpent := false)
      else if outcome == Unhealthy(Some(true)) then r == w.(quotaSpent := true)
      else if outcome == Unhealthy(Some(false)) then r == w.(quotaSpent := false)
      else r == w
  {
  }

  /** Removing a workspace takes away that one. */
  lemma RemovalOutcome(c: Config, email: string, workspace: string, e: string, w: string)
    ensures var c' := Next(c, RemoveWorkspace(email, workspace));
      && (Has(c', e, w) <==> Has(c, e, w) && !(e == email && w == workspace))
      && (Has(c', e, w) ==> c'[e].workspaces[w] == c[e].workspaces[w])
      && (e in c' <==> e in c)
      && (e in c ==> c'[e].credentialUntil == c[e].credentialUntil && c'[e].disabled == c[e].disabled)
  {
  }

  /** The later of two deadlines, one of which may be missing. */
  predicate LaterOf(r: Option<int>, current: Option<int>, t: int) {
    r == if current.Some? && current.value >= t then current else Some(Stored(t))
  }

  /** The deadline of a credential after a failure is the later of the one before and, for a trust denial thirty
      minutes, for a 429 two minutes, or the time asked for if that is later; no other failure touches it. */
  lemma DeadlineExactly(c: Config, email: string, workspace: string, now: int, f: Failure)
    requires email in c
    ensures var before, after := c[email].credentialUntil, Next(c, Fail(email, workspace, now, f))[email].credentialUntil;
      if f.trustDenied || (f.api && f.tooManyRequests) then
        var base := now + if f.trustDenied then 1800 * SECOND else 120 * SECOND;
        LaterOf(after, before, if f.api && f.retryAfter.Some? && f.retryAfter.value > base then f.retryAfter.value else base)
      else after == before
  {
    hide Stored, FailedWorkspace;
  }

  // ---- The server's methods -------------------------------------------------------------------

  /** The account configuration of the server. Each method runs under the refresh lock, so as one step. */
  class ServerState {
    var config: Config

    constructor (config: Config)
      ensures this.config == config
    {
      this.config := config;
    }

    /** beginWorkspaceDispatch: an error when the workspace is gone, otherwise whether the turn may start. */
    method BeginWorkspaceDispatch(email: string, workspace: string, now: int,
        ready: bool) returns (r: Result<bool, string>)
      modifies this
      ensures config == Next(old(config), Begin(email, workspace, now, ready))
      ensures r.Err? <==> !Has(old(config), email, workspace)
      ensures r.Ok? ==> (r.value <==> Admits(old(config), Begin(email, workspace, now, ready)))
      ensures r.Ok? ==>
        var a, w := old(config)[email], old(config)[email].workspaces[workspace];
        !r.value <==>
          || a.disabled || !ready || CoolingDown(a.credentialUntil, now) || CoolingDown(w.cooldownUntil, now)
          || QuotaUsedUp(w, now)
    {
      hide WithWindow, Remaining, Stored, QuotaUsedUp;
      if email !in config || workspace !in config[email].workspaces {
        return Err("workspace not found");
      }
      var account := config[email];
      var selected := account.workspaces[workspace];
      EligibleExactly(account, selected, ready, now);
      if !Eligible(account, selected, ready, now) {
        return Ok(false);
      }
      selected := MarkDispatchStart(selected, now);
      config := config[email := account.(workspaces := account.workspaces[workspace := selected])];
      return Ok(true);
    }

    /** resetAccountUsageWindow, then markAccountDispatchStart. */
    static method MarkDispatchStart(w: Workspace, now: int) returns (r: Workspace)
      ensures r == Started(w, now)
    {
      r := w;
      if r.hourlyQuota <= 0 {
        r := r.(windowStartedAt := None, windowRequests := 0);
      } else if r.windowStartedAt.None? || now - r.windowStartedAt.value >= HOUR {
        r := r.(windowStartedAt := Some(Stored(now)), windowRequests := 0);
      }
      if r.hourlyQuota > 0 {
        if r.windowStartedAt.None? {
          r := r.(windowStartedAt := Some(Stored(now)));
        }
        r := r.(windowRequests := r.windowRequests + 1);
      }
      r := r.(lastUsedAt := Some(Stored(now)));
    }

    method FinishWorkspaceDispatchSuccess(email: string, workspace: string, now: int)
      modifies this
      ensures config == Next(old(config), Success(email, workspace, now))
    {
      hide Stored;
      if email !in config || workspace !in config[email].workspaces {
        return;
      }
      var account := config[email];
      var selected := account.workspaces[workspace].(
        lastUsedAt := Some(Stored(now)), cooldownUntil := None, failures := 0, quotaSpent := false);
      config := config[email := account.(workspaces := account.workspaces[workspace := selected])];
    }

    method FinishWorkspaceDispatchFailure(email: string, workspace: string, now: int, f: Failure)
      modifies this
      ensures config == Next(old(config), Fail(email, workspace, now, f))
    {
      hide Stored, FailedWorkspace;
      if email !in config {
        return;
      }
      var parent := config[email];
      var present := workspace in parent.workspaces;
      var until := Backoff(f, now);
      if !present && until.None? {
        assert config[email := parent] == config;
        return;
      }
      if until.Some? && (parent.credentialUntil.None? || until.value > parent.credentialUntil.value) {
        parent := parent.(credentialUntil := Some(Stored(until.value)));
      }
      if present {
        parent := parent.(workspaces := parent.workspaces[workspace := FailedWorkspace(parent.workspaces[workspace], now, f)]);
      }
      config := config[email := parent];
    }

    /** commitAccountRefreshResult, once the account's identity was found unchanged. */
    method CommitAccountRefresh(email: string, workspace: string, now: int, started: Marks,
        outcome: Outcome) returns (r: Result<(), string>)
      modifies this
      ensures config == Next(old(config), Refresh(email, workspace, now, started, outcome))
      ensures r.Err? <==> !Has(old(config), email, workspace)
    {
      if email !in config {
        return Err("account not found");
      }
      var parent := config[email];
      if workspace !in parent.workspaces {
        return Err("workspace was removed during refresh");
      }
      var selected := parent.workspaces[workspace];
      var healthy := outcome.Healthy?;
      var quotaCooldownHeld := healthy && SitsOutQuota(selected, now);
      if healthy && started == MarksOf(selected) && !quotaCooldownHeld {
        selected := selected.(quotaSpent := false, cooldownUntil := None, failures := 0);
      } else if !healthy && outcome.spent.Some? {
        selected := selected.(quotaSpent := outcome.spent.value);
      }
      config := config[email := parent.(workspaces := parent.workspaces[workspace := selected])];
      return Ok(());
    }
  }
}
