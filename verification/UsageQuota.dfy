/** Hourly quotas: how many starts of a workspace a run of the account pool admits
    (internal/app/account_pool.go:42-66, 94-96, 118-131). */
module UsageQuota {
  import opened Wrappers
  import opened AccountPool

  // ---- Hourly quotas --------------------------------------------------------------------------

  /** An admitted start and the usage window it was counted in. */
  datatype Start = Start(at: int, window: int)

  predicate StartsOn(c: Config, step: Step, email: string, workspace: string) {
    Admits(c, step) && step.email == email && step.workspace == workspace
  }

  /** The window of the workspace after the step. */
  function StartOf(c: Config, step: Step): Start
    requires Admits(c, step)
  {
    var w := WithWindow(c[step.email].workspaces[step.workspace], step.now);
    Start(step.now, if w.windowStartedAt.Some? then w.windowStartedAt.value else 0)
  }

  /** The admitted starts of one workspace over a run. */
  function Starts(c: Config, steps: seq<Step>, email: string, workspace: string): seq<Start>
    decreases |steps|
  {
    if steps == [] then []
    else
      (if StartsOn(c, steps[0], email, workspace) then [StartOf(c, steps[0])] else [])
      + Starts(Next(c, steps[0]), steps[1..], email, workspace)
  }

  /** The times of a run do not decrease, and the first is not before from. */
  predicate Timely(steps: seq<Step>, from: int)
    decreases |steps|
  {
    steps == [] || (from <= TimeOf(steps[0], from) && Timely(steps[1..], TimeOf(steps[0], from)))
  }

  /** The workspace, if it is still there, has the quota and a window that began in the past. */
  predicate WindowOk(c: Config, email: string, workspace: string, quota: int, from: int) {
    Has(c, email, workspace) ==>
      var w := c[email].workspaces[workspace];
      && w.hourlyQuota == quota && w.windowRequests >= 0
      && (w.windowStartedAt.Some? ==> Whole(w.windowStartedAt.value) && w.windowStartedAt.value <= from)
  }

  /** The window a start would still be counted in, if there is one, and how many it already has. */
  function Window(c: Config, email: string, workspace: string): Option<int> {
    if Has(c, email, workspace) then c[email].workspaces[workspace].windowStartedAt else None
  }

  function Used(c: Config, email: string, workspace: string): int {
    if Has(c, email, workspace) then c[email].workspaces[workspace].windowRequests else 0
  }

  function InWindow(log: seq<Start>, window: int): nat {
    if log == [] then 0 else (if log[0].window == window then 1 else 0) + InWindow(log[1..], window)
  }

  function Between(log: seq<Start>, from: int, to: int): nat {
    if log == [] then 0 else (if from <= log[0].at < to then 1 else 0) + Between(log[1..], from, to)
  }

  /** Starts lie in their windows, and windows are whole seconds an hour or more apart. */
  predicate WellSpaced(log: seq<Start>) {
    && (forall i :: 0 <= i < |log| ==> Whole(log[i].window) && log[i].window <= log[i].at < log[i].window + HOUR)
    && (forall i, j :: 0 <= i < j < |log| ==> log[i].window == log[j].window || log[i].window + HOUR <= log[j].window)
  }

  predicate After(log: seq<Start>, window: Option<int>) {
    window.Some? ==> forall i :: 0 <= i < |log| ==> log[i].window == window.value || window.value + HOUR <= log[i].window
  }

  lemma {:induction false} NoneInOldWindow(log: seq<Start>, window: int)
    requires forall i :: 0 <= i < |log| ==> log[i].window > window
    ensures InWindow(log, window) == 0
    decreases |log|
  {
    if log != [] {
      assert forall i :: 0 <= i < |log[1..]| ==> log[1..][i] == log[i + 1];
      NoneInOldWindow(log[1..], window);
    }
  }

  lemma ConsSpaced(e: Start, rest: seq<Start>)
    requires WellSpaced(rest) && After(rest, Some(e.window)) && Whole(e.window) && e.window <= e.at < e.window + HOUR
    ensures WellSpaced([e] + rest)
  {
    var log := [e] + rest;
    assert forall i :: 1 <= i < |log| ==> log[i] == rest[i - 1];
  }

  /** An admitted start begins a new window an hour or more after the last, or takes one more of it. */
  lemma AdmittedStart(c: Config, step: Step, email: string, workspace: string, quota: int, from: int)
    requires StartsOn(c, step, email, workspace) && WindowOk(c, email, workspace, quota, from) && quota > 0
    requires from <= step.now
    ensures var e, c' := StartOf(c, step), Next(c, step);
      var before, used := Window(c, email, workspace), Used(c, email, workspace);
      && WindowOk(c', email, workspace, quota, step.now) && Window(c', email, workspace) == Some(e.window)
      && Whole(e.window) && e.window <= e.at < e.window + HOUR && e.at == step.now
      && 1 <= Used(c', email, workspace) <= quota
      && (if before == Some(e.window) then Used(c', email, workspace) == used + 1
          else Used(c', email, workspace) == 1 && (before.Some? ==> before.value + HOUR <= e.window))
  {
    hide CooldownFor, FailedWorkspace;
    var w := c[email].workspaces[workspace];
    assert Remaining(w, step.now) > 0;
    if w.windowStartedAt.Some? && step.now - w.windowStartedAt.value >= HOUR {
      WholeBelow(w.windowStartedAt.value + HOUR, step.now);
    }
  }

  /** Any other step leaves the window of the workspace alone. */
  lemma OtherStep(c: Config, step: Step, email: string, workspace: string, quota: int, from: int)
    requires !StartsOn(c, step, email, workspace) && WindowOk(c, email, workspace, quota, from) && from <= TimeOf(step, from)
    ensures var c' := Next(c, step);
      && WindowOk(c', email, workspace, quota, TimeOf(step, from))
      && (Has(c', email, workspace) ==>
            Has(c, email, workspace) && Window(c', email, workspace) == Window(c, email, workspace)
            && Used(c', email, workspace) == Used(c, email, workspace))
  {
    hide CooldownFor, Stored, WithWindow, Remaining, Backoff, Raised;
  }

  lemma {:induction false} NoWorkspaceNoStarts(c: Config, steps: seq<Step>, email: string, workspace: string)
    requires !Has(c, email, workspace)
    ensures Starts(c, steps, email, workspace) == []
    decreases |steps|
  {
    hide Eligible, WithWindow, FailedWorkspace, Raised, Backoff;
    if steps != [] {
      NoWorkspaceNoStarts(Next(c, steps[0]), steps[1..], email, workspace);
    }
  }

  /** What the log of a run satisfies, given where the workspace stood before it. */
  ghost predicate LogOk(log: seq<Start>, window: Option<int>, used: int, quota: int) {
    && WellSpaced(log) && After(log, window)
    && (forall w :: InWindow(log, w) <= quota)
    && (window.Some? ==> InWindow(log, window.value) <= if used <= quota then quota - used else 0)
  }

  lemma ConsLogOk(e: Start, rest: seq<Start>, before: Option<int>, used: int, used': int, quota: int)
    requires LogOk(rest, Some(e.window), used', quota)
    requires Whole(e.window) && e.window <= e.at < e.window + HOUR && 1 <= used' <= quota && used >= 0
    requires if before == Some(e.window) then used' == used + 1 else used' == 1 && (before.Some? ==> before.value + HOUR <= e.window)
    ensures LogOk([e] + rest, before, used, quota)
  {
    var log := [e] + rest;
    assert log[1..] == rest && log[0] == e;
    ConsSpaced(e, rest);
    assert forall i :: 1 <= i < |log| ==> log[i] == rest[i - 1];
    forall w ensures InWindow(log, w) <= quota {
      assert InWindow(log, w) == (if e.window == w then 1 else 0) + InWindow(rest, w);
    }
    if before.Some? && before != Some(e.window) {
      NoneInOldWindow(log, before.value);
    }
  }

  lemma {:induction false} RunLog(c: Config, steps: seq<Step>, email: string, workspace: string, quota: int, from: int)
    requires WindowOk(c, email, workspace, quota, from) && quota > 0 && Timely(steps, from)
    ensures LogOk(Starts(c, steps, email, workspace), Window(c, email, workspace), Used(c, email, workspace), quota)
    decreases |steps|
  {
    hide Next, Admits, StartOf, LogOk, WindowOk;
    if steps == [] || !Has(c, email, workspace) {
      if steps != [] {
        NoWorkspaceNoStarts(c, steps, email, workspace);
      }
      EmptyLog(Window(c, email, workspace), Used(c, email, workspace), quota);
    } else if StartsOn(c, steps[0], email, workspace) {
      AdmittedNow(c, steps[0], email, workspace, from);
      AdmittedStart(c, steps[0], email, workspace, quota, from);
      RunLog(Next(c, steps[0]), steps[1..], email, workspace, quota, TimeOf(steps[0], from));
      UsedIsCount(c, email, workspace, quota, from);
      ConsLogOk(StartOf(c, steps[0]), Starts(Next(c, steps[0]), steps[1..], email, workspace),
                Window(c, email, workspace), Used(c, email, workspace), Used(Next(c, steps[0]), email, workspace), quota);
    } else {
      OtherStep(c, steps[0], email, workspace, quota, from);
      RunLog(Next(c, steps[0]), steps[1..], email, workspace, quota, TimeOf(steps[0], from));
      var rest := Starts(Next(c, steps[0]), steps[1..], email, workspace);
      assert [] + rest == rest;
      if !Has(Next(c, steps[0]), email, workspace) {
        NoWorkspaceNoStarts(Next(c, steps[0]), steps[1..], email, workspace);
        EmptyLog(Window(c, email, workspace), Used(c, email, workspace), quota);
      }
    }
  }

  lemma EmptyLog(window: Option<int>, used: int, quota: int)
    requires quota > 0
    ensures LogOk([], window, used, quota)
  {
  }

  lemma AdmittedNow(c: Config, step: Step, email: string, workspace: string, from: int)
    requires StartsOn(c, step, email, workspace)
    ensures TimeOf(step, from) == step.now
  {
  }

  lemma UsedIsCount(c: Config, email: string, workspace: string, quota: int, from: int)
    requires WindowOk(c, email, workspace, quota, from)
    ensures Used(c, email, workspace) >= 0
  {
  }

  // ---- Any hour -------------------------------------------------------------------------------

  /** All starts from one hour-long interval fall into at most two windows. */
  predicate FallIn(log: seq<Start>, from: int, a: int, b: int) {
    forall i :: 0 <= i < |log| && from <= log[i].at < from + HOUR ==> log[i].window == a || log[i].window == b
  }

  lemma TwoWindows(log: seq<Start>, from: int) returns (a: int, b: int)
    requires WellSpaced(log)
    ensures FallIn(log, from, a, b)
  {
    a, b := 0, 0;
    if i :| 0 <= i < |log| && from <= log[i].at < from + HOUR {
      a, b := log[i].window, log[i].window;
      if j :| 0 <= j < |log| && from <= log[j].at < from + HOUR && log[j].window != a {
        b := log[j].window;
      }
    }
  }

  lemma {:induction false} CountBetween(log: seq<Start>, from: int, a: int, b: int)
    requires FallIn(log, from, a, b)
    ensures Between(log, from, from + HOUR) <= InWindow(log, a) + InWindow(log, b)
    decreases |log|
  {
    if log != [] {
      assert forall i :: 0 <= i < |log[1..]| ==> log[1..][i] == log[i + 1];
      CountBetween(log[1..], from, a, b);
    }
  }

  /** Over every run with non-decreasing times, a usage window admits at most the quota, and any
      half-open hour at most twice the quota. */
  lemma QuotaHolds(c: Config, steps: seq<Step>, email: string, workspace: string, quota: int, start: int,
        hour: int, window: int)
    requires WindowOk(c, email, workspace, quota, start) && quota > 0 && Timely(steps, start)
    ensures InWindow(Starts(c, steps, email, workspace), window) <= quota
    ensures Between(Starts(c, steps, email, workspace), hour, hour + 3_600_000_000_000) <= 2 * quota
  {
    hide Starts, WindowOk, Timely, WellSpaced;
    var log := Starts(c, steps, email, workspace);
    RunLog(c, steps, email, workspace, quota, start);
    var a, b := TwoWindows(log, hour);
    CountBetween(log, hour, a, b);
  }

  /** A workspace that is there after a run was there before, and has used of its present window what it had
      used of it before and the starts of the run in it. */
  lemma {:induction false} UsedIsLogged(c: Config, steps: seq<Step>, email: string, workspace: string, quota: int, from: int)
    requires WindowOk(c, email, workspace, quota, from) && quota > 0 && Timely(steps, from)
    requires Has(Run(c, steps), email, workspace) && Window(Run(c, steps), email, workspace).Some?
    ensures Has(c, email, workspace)
    ensures var window := Window(Run(c, steps), email, workspace).value;
      Used(Run(c, steps), email, workspace) ==
        InWindow(Starts(c, steps, email, workspace), window)
        + if Window(c, email, workspace) == Some(window) then Used(c, email, workspace) else 0
    ensures c[email].workspaces[workspace].hourlyQuota == Run(c, steps)[email].workspaces[workspace].hourlyQuota
    ensures Window(c, email, workspace).Some? ==> Window(c, email, workspace).value <= Window(Run(c, steps), email, workspace).value
    decreases |steps|
  {
    hide Next, Admits, StartOf, WindowOk;
    if steps != [] {
      var c' := Next(c, steps[0]);
      var rest := Starts(c', steps[1..], email, workspace);
      if StartsOn(c, steps[0], email, workspace) {
        AdmittedNow(c, steps[0], email, workspace, from);
        AdmittedStart(c, steps[0], email, workspace, quota, from);
        assert ([StartOf(c, steps[0])] + rest)[1..] == rest;
      } else {
        OtherStep(c, steps[0], email, workspace, quota, from);
        assert [] + rest == rest;
      }
      UsedIsLogged(c', steps[1..], email, workspace, quota, TimeOf(steps[0], from));
      QuotaStays(c, steps[0], email, workspace);
    }
  }

  lemma QuotaStays(c: Config, step: Step, email: string, workspace: string)
    requires Has(Next(c, step), email, workspace)
    ensures Has(c, email, workspace)
    ensures c[email].workspaces[workspace].hourlyQuota == Next(c, step)[email].workspaces[workspace].hourlyQuota
  {
    hide CooldownFor, Stored, Remaining, Backoff, Raised;
  }

  /** The converse of the quota: when, after a run that began without a usage window, a start is refused for the
      quota alone, the running window has admitted exactly the quota. */
  lemma RefusedOnlyAfterQuota(c: Config, steps: seq<Step>, email: string, workspace: string, quota: int, from: int, now: int)
    requires WindowOk(c, email, workspace, quota, from) && quota > 0 && Timely(steps, from)
    requires Window(c, email, workspace).None? && Has(Run(c, steps), email, workspace)
    requires QuotaUsedUp(Run(c, steps)[email].workspaces[workspace], now)
    ensures var w := Run(c, steps)[email].workspaces[workspace];
      InWindow(Starts(c, steps, email, workspace), w.windowStartedAt.value) == quota && now < w.windowStartedAt.value + HOUR
  {
    hide Run, Starts, Timely, WellSpaced;
    UsedIsLogged(c, steps, email, workspace, quota, from);
    RunLog(c, steps, email, workspace, quota, from);
  }
}
