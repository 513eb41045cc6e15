/** The login-attempt limiter of the admin interface (internal/app/admin.go:19-22, 226-294). */
module LoginLimiter {
  import opened Wrappers

  const MAX_FAILURES := 5
  const LOCK_WINDOW := 15 * 60 * 1_000_000_000

  datatype Attempt = Attempt(failures: int, lastFailure: int, lockedUntil: Option<int>)

  type Attempts = map<string, Attempt>

  /** The three reasons for which cleaning up drops an entry. */
  predicate Expired(a: Attempt, now: int) {
    || (a.failures <= 0 && a.lockedUntil.None?)
    || (a.lockedUntil.Some? && now > a.lockedUntil.value && now - a.lastFailure > LOCK_WINDOW)
    || (a.lockedUntil.None? && now - a.lastFailure > LOCK_WINDOW)
  }

  /** cleanupAdminLoginAttemptsLocked */
  function Cleaned(m: Attempts, now: int): Attempts {
    map k | k in m && !Expired(m[k], now) :: m[k]
  }

  predicate Locked(m: Attempts, client: string, now: int) {
    client in m && m[client].lockedUntil.Some? && now < m[client].lockedUntil.value
  }

  function Counted(m: Attempts, client: string, now: int): Attempt {
    var failures := if client in m then m[client].failures + 1 else 1;
    Attempt(failures, now,
      if failures >= MAX_FAILURES then Some(now + LOCK_WINDOW)
      else if client in m then m[client].lockedUntil else None)
  }

  /** reserveAdminLoginAttempt: the attempt is refused or counted as a failure beforehand. */
  function Reserved(m: Attempts, client: string, now: int): Attempts {
    var cleaned := Cleaned(m, now);
    if Locked(cleaned, client, now) then cleaned else cleaned[client := Counted(cleaned, client, now)]
  }

  datatype Step =
    | Reserve(client: string, now: int)
    | Check(at: int)
    | Clear(known: string)

  function Next(m: Attempts, step: Step): Attempts {
    match step
    case Reserve(client, now) => Reserved(m, client, now)
    case Check(at) => Cleaned(m, at)
    case Clear(known) => m - {known}
  }

  function Run(m: Attempts, steps: seq<Step>): Attempts
    decreases |steps|
  {
    if steps == [] then m else Run(Next(m, steps[0]), steps[1..])
  }

  predicate Admits(m: Attempts, step: Step, client: string) {
    step.Reserve? && step.client == client && !Locked(Cleaned(m, step.now), client, step.now)
  }

  function Admitted(m: Attempts, step: Step, client: string): seq<int> {
    if Admits(m, step, client) then [step.now] else []
  }

  /** The times of the attempts a client is admitted to over a run. */
  function Log(m: Attempts, steps: seq<Step>, client: string): seq<int>
    decreases |steps|
  {
    if steps == [] then []
    else Admitted(m, steps[0], client) + Log(Next(m, steps[0]), steps[1..], client)
  }

  function TimeOf(step: Step, last: int): int {
    match step
    case Reserve(_, now) => now
    case Check(at) => at
    case Clear(_) => last
  }

  predicate Timely(steps: seq<Step>, from: int)
    decreases |steps|
  {
    steps == [] || (from <= TimeOf(steps[0], from) && Timely(steps[1..], TimeOf(steps[0], from)))
  }

  predicate NeverClears(steps: seq<Step>, client: string) {
    forall step :: step in steps && step.Clear? ==> step.known != client
  }

  // ---- The rate -------------------------------------------------------------------------------

  predicate Ascending(log: seq<int>) {
    forall i, j :: 0 <= i < j < |log| ==> log[i] <= log[j]
  }

  /** Between an attempt and the fifth after it lies at least the lock window. */
  predicate Rate(log: seq<int>) {
    forall i :: 0 <= i < |log| - MAX_FAILURES ==> log[i] + LOCK_WINDOW <= log[i + MAX_FAILURES]
  }

  /** An entry counts at least one failure and is locked, from its last failure on, exactly from the fifth. */
  predicate Sound(a: Attempt) {
    && a.failures >= 1
    && a.lockedUntil == if a.failures >= MAX_FAILURES then Some(a.lastFailure + LOCK_WINDOW) else None
  }

  /** In a sound entry all reasons come to one: its last failure is more than fifteen minutes ago. */
  lemma ExpiredExactly(a: Attempt, now: int)
    ensures Sound(a) ==> (Expired(a, now) <==> now > a.lastFailure + 900_000_000_000)
    ensures a == Attempt(0, a.lastFailure, None) ==> Expired(a, now)
  {
  }

  /** What the entry of a client says about the attempts it has been admitted to: they are the last ones
      counted, and those before them are more than a window older. */
  predicate Explains(m: Attempts, client: string, clock: int, log: seq<int>) {
    && Ascending(log) && (log != [] ==> log[|log| - 1] <= clock)
    && (client !in m ==> forall i :: 0 <= i < |log| ==> log[i] + LOCK_WINDOW < clock)
    && (client in m ==>
          && Sound(m[client]) && m[client].lastFailure <= clock
          && (log != [] ==> m[client].lastFailure == log[|log| - 1])
          && forall i :: 0 <= i < |log| - m[client].failures ==> log[i] + LOCK_WINDOW < log[|log| - m[client].failures])
  }

  lemma CleanedExplains(m: Attempts, client: string, clock: int, now: int, log: seq<int>)
    requires Explains(m, client, clock, log) && clock <= now
    ensures Explains(Cleaned(m, now), client, now, log)
  {
  }

  lemma AdmittedKeepsRate(m: Attempts, client: string, now: int, log: seq<int>)
    requires Explains(m, client, now, log) && Rate(log) && !Locked(m, client, now)
    ensures Rate(log + [now])
  {
    var longer := log + [now];
    var n := |log| - MAX_FAILURES;
    if n >= 0 && client in m && m[client].failures < MAX_FAILURES {
      assert log[n] + LOCK_WINDOW < log[|log| - m[client].failures];
    }
    forall i | 0 <= i < |longer| - MAX_FAILURES ensures longer[i] + LOCK_WINDOW <= longer[i + MAX_FAILURES] {
      if i == n {
        assert longer[i] == log[i] && longer[i + MAX_FAILURES] == now;
        assert log[i] <= log[|log| - 1];
      } else {
        assert log[i] + LOCK_WINDOW <= log[i + MAX_FAILURES];
      }
    }
  }

  lemma AdmittedExplains(m: Attempts, client: string, now: int, log: seq<int>)
    requires Explains(m, client, now, log) && !Locked(m, client, now)
    ensures Explains(m[client := Counted(m, client, now)], client, now, log + [now])
  {
    var longer := log + [now];
    assert forall i :: 0 <= i < |log| ==> longer[i] == log[i];
  }

  lemma OthersExplain(m: Attempts, m': Attempts, client: string, clock: int, log: seq<int>)
    requires Explains(m, client, clock, log)
    requires client in m <==> client in m'
    requires client in m ==> m'[client] == m[client]
    ensures Explains(m', client, clock, log)
  {
  }

  lemma ReserveExplains(m: Attempts, step: Step, client: string, clock: int, log: seq<int>)
    requires step.Reserve? && Explains(m, client, clock, log) && Rate(log) && clock <= step.now
    ensures var longer := log + Admitted(m, step, client);
      Explains(Next(m, step), client, step.now, longer) && Rate(longer)
  {
    hide Explains, Rate, Cleaned, Locked, Counted;
    CleanedExplains(m, client, clock, step.now, log);
    var cleaned := Cleaned(m, step.now);
    if Admits(m, step, client) {
      AdmittedKeepsRate(cleaned, client, step.now, log);
      AdmittedExplains(cleaned, client, step.now, log);
    } else {
      OthersExplain(cleaned, Next(m, step), client, step.now, log);
      assert log + [] == log;
    }
  }

  lemma OtherStepExplains(m: Attempts, step: Step, client: string, clock: int, log: seq<int>)
    requires !step.Reserve? && Explains(m, client, clock, log) && Rate(log)
    requires clock <= TimeOf(step, clock) && (step.Clear? ==> step.known != client)
    ensures var longer := log + Admitted(m, step, client);
      Explains(Next(m, step), client, TimeOf(step, clock), longer) && Rate(longer)
  {
    hide Explains, Rate, Cleaned;
    assert log + [] == log;
    if step.Check? {
      CleanedExplains(m, client, clock, step.at, log);
    } else {
      OthersExplain(m, Next(m, step), client, clock, log);
    }
  }

  /** Every run without a successful login of the client keeps the rate of its admitted attempts. */
  lemma {:induction false} RunKeepsRate(m: Attempts, steps: seq<Step>, client: string, clock: int, log: seq<int>)
    requires Explains(m, client, clock, log) && Rate(log) && Timely(steps, clock) && NeverClears(steps, client)
    ensures Rate(log + Log(m, steps, client)) && Ascending(log + Log(m, steps, client))
    decreases |steps|
  {
    hide Explains, Rate, Ascending, Next, Admitted;
    if steps == [] {
      assert log + [] == log;
      ExplainsAscending(m, client, clock, log);
    } else {
      var step := steps[0];
      assert step in steps && forall x :: x in steps[1..] ==> x in steps;
      if step.Reserve? {
        ReserveExplains(m, step, client, clock, log);
      } else {
        OtherStepExplains(m, step, client, clock, log);
      }
      RunKeepsRate(Next(m, step), steps[1..], client, TimeOf(step, clock), log + Admitted(m, step, client));
      Reassociate(log, Admitted(m, step, client), Log(Next(m, step), steps[1..], client));
    }
  }

  lemma Reassociate(a: seq<int>, b: seq<int>, c: seq<int>)
    ensures (a + b) + c == a + (b + c)
  {
  }

  lemma ExplainsAscending(m: Attempts, client: string, clock: int, log: seq<int>)
    requires Explains(m, client, clock, log)
    ensures Ascending(log)
  {
  }

  function CountIn(log: seq<int>, from: int, to: int): nat {
    if log == [] then 0
    else CountIn(log[..|log| - 1], from, to) + if from <= log[|log| - 1] < to then 1 else 0
  }

  lemma {:induction false} CountInAppend(a: seq<int>, b: seq<int>, from: int, to: int)
    ensures CountIn(a + b, from, to) == CountIn(a, from, to) + CountIn(b, from, to)
    decreases |b|
  {
    if b == [] {
      assert a + b == a;
    } else {
      CountInAppend(a, b[..|b| - 1], from, to);
      assert (a + b)[..|a + b| - 1] == a + b[..|b| - 1];
    }
  }

  lemma {:induction false} NoneBefore(log: seq<int>, from: int, to: int)
    requires forall i :: 0 <= i < |log| ==> log[i] < from
    ensures CountIn(log, from, to) == 0
    decreases |log|
  {
    if log != [] {
      NoneBefore(log[..|log| - 1], from, to);
    }
  }

  lemma {:induction false} CountAtMost(log: seq<int>, from: int, to: int)
    ensures CountIn(log, from, to) <= |log|
    decreases |log|
  {
    if log != [] {
      CountAtMost(log[..|log| - 1], from, to);
    }
  }

  lemma InitKeepsRate(log: seq<int>)
    requires log != [] && Rate(log) && Ascending(log)
    ensures Rate(log[..|log| - 1]) && Ascending(log[..|log| - 1])
  {
  }

  /** All but the last five attempts are a window older than the last. */
  lemma OldAttempts(log: seq<int>, from: int)
    requires |log| > MAX_FAILURES && Rate(log) && Ascending(log) && log[|log| - 1] < from + LOCK_WINDOW
    ensures forall i :: 0 <= i < |log| - MAX_FAILURES ==> log[i] < from
  {
    var n := |log| - MAX_FAILURES;
    assert log[n - 1] + LOCK_WINDOW <= log[n - 1 + MAX_FAILURES];
  }

  lemma LastFiveCount(log: seq<int>, n: nat, from: int)
    requires n <= |log| && forall i :: 0 <= i < n ==> log[i] < from
    ensures CountIn(log, from, from + LOCK_WINDOW) <= |log| - n
  {
    hide CountIn;
    assert log == log[..n] + log[n..];
    CountInAppend(log[..n], log[n..], from, from + LOCK_WINDOW);
    NoneBefore(log[..n], from, from + LOCK_WINDOW);
    CountAtMost(log[n..], from, from + LOCK_WINDOW);
  }

  lemma {:induction false} RateBoundsCount(log: seq<int>, from: int)
    requires Rate(log) && Ascending(log)
    ensures CountIn(log, from, from + LOCK_WINDOW) <= MAX_FAILURES
    decreases |log|
  {
    hide Rate, Ascending;
    if |log| <= MAX_FAILURES {
      CountAtMost(log, from, from + LOCK_WINDOW);
    } else if from <= log[|log| - 1] < from + LOCK_WINDOW {
      OldAttempts(log, from);
      LastFiveCount(log, |log| - MAX_FAILURES, from);
    } else {
      InitKeepsRate(log);
      RateBoundsCount(log[..|log| - 1], from);
    }
  }

  /** For one client address and non-decreasing times, any half-open fifteen minutes without a
      successful login admit at most five attempts, whatever other addresses do. */
  lemma AtMostFiveAttempts(m: Attempts, steps: seq<Step>, client: string, clock: int, from: int)
    requires client in m ==> Sound(m[client]) && m[client].lastFailure <= clock
    requires Timely(steps, clock) && NeverClears(steps, client)
    ensures CountIn(Log(m, steps, client), from, from + 900_000_000_000) <= 5
  {
    hide Log;
    RunKeepsRate(m, steps, client, clock, []);
    assert [] + Log(m, steps, client) == Log(m, steps, client);
    RateBoundsCount(Log(m, steps, client), from);
  }

  /** Entries are sound in every reachable state. */
  lemma {:induction false} EntriesStaySound(m: Attempts, steps: seq<Step>, client: string, clock: int)
    requires client in m ==> Sound(m[client]) && m[client].lastFailure <= clock
    requires Timely(steps, clock)
    ensures client in Run(m, steps) ==> Sound(Run(m, steps)[client])
    decreases |steps|
  {
    if steps != [] {
      EntriesStaySound(Next(m, steps[0]), steps[1..], client, TimeOf(steps[0], clock));
    }
  }

  /** Nobody is locked out early: a refused client has been admitted to five attempts since it was last
      unknown, the last of them less than a window ago. */
  predicate CountsAll(m: Attempts, client: string, log: seq<int>) {
    client in m ==> Sound(m[client]) && m[client].failures <= |log| && log != [] && m[client].lastFailure == log[|log| - 1]
  }

  lemma StepCountsAll(m: Attempts, step: Step, client: string, log: seq<int>)
    requires CountsAll(m, client, log)
    ensures CountsAll(Next(m, step), client, log + Admitted(m, step, client))
  {
  }

  lemma {:induction false} RunCountsAll(m: Attempts, steps: seq<Step>, client: string, log: seq<int>)
    requires CountsAll(m, client, log)
    ensures CountsAll(Run(m, steps), client, log + Log(m, steps, client))
    decreases |steps|
  {
    hide CountsAll, Next, Admitted;
    if steps == [] {
      assert log + [] == log;
    } else {
      StepCountsAll(m, steps[0], client, log);
      RunCountsAll(Next(m, steps[0]), steps[1..], client, log + Admitted(m, steps[0], client));
      Reassociate(log, Admitted(m, steps[0], client), Log(Next(m, steps[0]), steps[1..], client));
    }
  }

  lemma RefusedOnlyAfterFive(m: Attempts, steps: seq<Step>, client: string, now: int)
    requires client !in m && Locked(Cleaned(Run(m, steps), now), client, now)
    ensures var log := Log(m, steps, client);
      |log| >= 5 && now < log[|log| - 1] + 900_000_000_000
  {
    hide Run, Log;
    RunCountsAll(m, steps, client, []);
    assert [] + Log(m, steps, client) == Log(m, steps, client);
  }

  // ---- The limiter ----------------------------------------------------------------------------

  class LoginLimiter {
    var attempts: Attempts

    constructor ()
      ensures attempts == map[]
    {
      attempts := map[];
    }

    method Cleanup(now: int)
      modifies this
      ensures attempts == Cleaned(old(attempts), now)
    {
      hide Expired;
      ghost var before := attempts;
      var rest := attempts.Keys;
      while rest != {}
        invariant rest <= before.Keys
        invariant forall k :: k in attempts <==> k in before && (k in rest || !Expired(before[k], now))
        invariant forall k :: k in attempts ==> attempts[k] == before[k]
        decreases rest
      {
        var key :| key in rest;
        rest := rest - {key};
        if Expired(attempts[key], now) {
          attempts := attempts - {key};
        }
      }
    }

    /** adminLoginLocked */
    method LockedUntil(client: string, now: int) returns (until: Option<int>)
      modifies this
      ensures attempts == Next(old(attempts), Check(now))
      ensures until.Some? ==> client in attempts && attempts[client].lockedUntil == until && now <= until.value
      ensures until.None? ==> !Locked(attempts, client, now)
    {
      Cleanup(now);
      if client !in attempts || attempts[client].lockedUntil.None? || now > attempts[client].lockedUntil.value {
        return None;
      }
      return attempts[client].lockedUntil;
    }

    /** reserveAdminLoginAttempt: None means the attempt may go ahead. */
    method ReserveAttempt(client: string, now: int) returns (lockedUntil: Option<int>)
      modifies this
      ensures attempts == Next(old(attempts), Reserve(client, now))
      ensures lockedUntil.None? <==> Admits(old(attempts), Reserve(client, now), client)
      ensures lockedUntil.Some? ==> client in attempts && attempts[client].lockedUntil == lockedUntil
    {
      hide Expired;
      Cleanup(now);
      var attempt := if client in attempts then attempts[client] else Attempt(0, 0, None);
      if attempt.lockedUntil.Some? && now < attempt.lockedUntil.value {
        return attempt.lockedUntil;
      }
      attempt := attempt.(failures := attempt.failures + 1, lastFailure := now);
      if attempt.failures >= MAX_FAILURES {
        attempt := attempt.(lockedUntil := Some(now + LOCK_WINDOW));
      }
      attempts := attempts[client := attempt];
      return None;
    }

    method ClearFailures(client: string)
      modifies this
      ensures attempts == Next(old(attempts), Clear(client))
    {
      attempts := attempts - {client};
    }
  }
}
