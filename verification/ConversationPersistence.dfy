/** Writing conversations to disk while turns go on: snapshots, throttled deltas, the shutdown flush, and
    edits that save before they publish, as steps of concurrent threads
    (internal/app/conversations.go:1181-1292, 1454-1573). */
module ConversationPersistence {
  import opened Wrappers

  datatype Phase = Running | Deleting | Settled

  /** A copy of a conversation. The version stands for its messages: every change of them takes a new one,
      but for the repair of an interrupted turn, which is known by the version it was made from. */
  datatype Copy = Copy(version: nat, repaired: bool, phase: Phase)

  /** Not an older state of the messages: a later version, or the same and not without a repair. */
  predicate NotOlder(a: Copy, b: Copy) {
    a.version < b.version || (a.version == b.version && (a.repaired ==> b.repaired))
  }

  predicate SameMessages(a: Copy, b: Copy) {
    a.version == b.version && a.repaired == b.repaired
  }

  /** Owes: has to write a snapshot of each id of the queue. OwesDelta: has to decide about one delta.
      Saving: holds the persistence lock with the copy it read. */
  datatype Thread =
    | Owes(queue: seq<string>)
    | OwesDelta(id: string)
    | Saving(saved: string, copy: Copy, rest: seq<string>)

  datatype State = State(
    clock: nat, memory: map<string, Copy>, rows: map<string, Copy>,
    dirty: set<string>, lastAt: map<string, int>, threads: seq<Thread>, holder: Option<nat>)

  datatype Step =
    | Spawn
    | Publish(t: nat, id: string, phase: Phase, delta: bool)
    | Ask(t: nat, id: string)
    | Decide(t: nat, now: int)
    | Read(t: nat, now: int)
    | Save(t: nat)
    | Mutate(id: string)
    | Relabel(id: string, phase: Phase)
    | StartFlush(t: nat, queue: seq<string>)
    | Evict(id: string)
    | Load(id: string)

  /** conversationPersistDeltaInterval, in nanoseconds. */
  const INTERVAL := 1_000_000_000

  predicate IsIdle(s: State, t: nat) {
    t < |s.threads| && s.threads[t] == Owes([])
  }

  function PutThread(s: State, t: nat, th: Thread): State
    requires t < |s.threads|
  {
    s.(threads := s.threads[t := th])
  }

  /** A store operation replaces the entry; its caller then has it persisted. */
  function PublishStep(s: State, t: nat, id: string, phase: Phase, delta: bool): State
    requires IsIdle(s, t)
  {
    var v := s.clock + 1;
    PutThread(s, t, if delta then OwesDelta(id) else Owes([id])).(
      clock := v, memory := s.memory[id := Copy(v, false, phase)])
  }

  /** persistConversationDelta: at most one write per interval, later ones only mark the conversation. */
  function DecideStep(s: State, t: nat, now: int): State
    requires t < |s.threads| && s.threads[t].OwesDelta?
  {
    var id := s.threads[t].id;
    if id in s.lastAt && now - s.lastAt[id] < INTERVAL then PutThread(s, t, Owes([])).(dirty := s.dirty + {id})
    else PutThread(s, t, Owes([id]))
  }

  /** persistConversationSnapshot up to the read of the entry, with the persistence lock taken. */
  function ReadStep(s: State, t: nat, now: int): State
    requires t < |s.threads| && s.threads[t].Owes? && s.threads[t].queue != []
  {
    var id, rest := s.threads[t].queue[0], s.threads[t].queue[1..];
    if id !in s.memory then
      PutThread(s, t, Owes(rest)).(dirty := s.dirty - {id}, lastAt := s.lastAt - {id})
    else
      PutThread(s, t, Saving(id, s.memory[id], rest)).(
        dirty := s.dirty - {id}, holder := Some(t),
        lastAt := if s.memory[id].phase == Running then s.lastAt[id := now] else s.lastAt - {id})
  }

  /** The row is written and the lock released. */
  function SaveStep(s: State, t: nat): State
    requires t < |s.threads| && s.threads[t].Saving?
  {
    var th := s.threads[t];
    PutThread(s, t, Owes(th.rest)).(rows := s.rows[th.saved := th.copy], holder := None)
  }

  /** What a cache miss makes of a row: that of a turn cut off by a restart is repaired in memory only. */
  function Restored(row: Copy): Copy {
    if row.phase == Settled then row else Copy(row.version, true, Settled)
  }

  function Next(s: State, step: Step): State {
    match step
    case Spawn => s.(threads := s.threads + [Owes([])])
    case Publish(t, id, phase, delta) =>
      if IsIdle(s, t) then PublishStep(s, t, id, phase, delta) else s
    case Ask(t, id) =>
      // A caller may have an entry persisted that it did not change, as after importing one that is resident.
      if IsIdle(s, t) then PutThread(s, t, Owes([id])) else s
    case Decide(t, now) =>
      if t < |s.threads| && s.threads[t].OwesDelta? && s.holder.None? then DecideStep(s, t, now) else s
    case Read(t, now) =>
      if t < |s.threads| && s.threads[t].Owes? && s.threads[t].queue != [] && s.holder.None? then ReadStep(s, t, now) else s
    case Save(t) =>
      if t < |s.threads| && s.threads[t].Saving? then SaveStep(s, t) else s
    case Mutate(id) =>
      // A rename, an edit or a deleted message, saved before it is published with both locks held.
      if s.holder.None? && id in s.memory && s.memory[id].phase != Running then
        var c := Copy(s.clock + 1, false, s.memory[id].phase);
        s.(clock := c.version, memory := s.memory[id := c], rows := s.rows[id := c])
      else s
    case Relabel(id, phase) =>
      // Claiming for deletion and restoring the claim leave the messages alone and write nothing.
      if id in s.memory && s.memory[id].phase != Running && phase != Running
      then s.(memory := s.memory[id := s.memory[id].(phase := phase)]) else s
    case StartFlush(t, queue) =>
      if IsIdle(s, t) && s.holder.None? && (set id | id in queue) == s.dirty then PutThread(s, t, Owes(queue)) else s
    case Evict(id) =>
      if id in s.memory && s.memory[id].phase == Settled then s.(memory := s.memory - {id}) else s
    case Load(id) =>
      if id in s.memory || id !in s.rows then s else s.(memory := s.memory[id := Restored(s.rows[id])])
  }

  function Run(s: State, steps: seq<Step>): State
    decreases |steps|
  {
    if steps == [] then s else Run(Next(s, steps[0]), steps[1..])
  }

  // ---- Restoring while a save is in flight ----------------------------------------------------

  /** The holder of the persistence lock has read a conversation and not written it yet. */
  predicate SomethingInFlight(s: State) {
    s.holder.Some? && s.holder.value < |s.threads| && s.threads[s.holder.value].Saving?
  }

  predicate SaveInFlight(s: State, id: string) {
    SomethingInFlight(s) && s.threads[s.holder.value].saved == id
  }

  /** Restoring the conversation does no harm: nothing would be restored, no save of it is in flight, or
      the copy in flight is no newer than what the row gives. */
  predicate Harmless(s: State, id: string) {
    id in s.memory || id !in s.rows
    || (SaveInFlight(s, id) ==> NotOlder(s.threads[s.holder.value].copy, Restored(s.rows[id])))
  }

  predicate HarmlessStep(s: State, step: Step) {
    step.Load? ==> Harmless(s, step.id)
  }

  predicate HarmlessThroughout(s: State, steps: seq<Step>)
    decreases |steps|
  {
    steps == [] || (HarmlessStep(s, steps[0]) && HarmlessThroughout(Next(s, steps[0]), steps[1..]))
  }

  // ---- The invariant --------------------------------------------------------------------------

  /** Exactly the thread that holds the persistence lock is saving. */
  ghost predicate Locked(s: State) {
    && (forall t :: 0 <= t < |s.threads| ==> (s.threads[t].Saving? <==> s.holder == Some(t)))
    && (s.holder.Some? ==> s.holder.value < |s.threads|)
  }

  ghost predicate Bounded(s: State) {
    && (forall id :: id in s.memory ==> s.memory[id].version <= s.clock)
    && (forall id :: id in s.rows ==> s.rows[id].version <= s.clock)
    && (SomethingInFlight(s) ==> s.threads[s.holder.value].copy.version <= s.clock)
  }

  /** A copy being saved is not older than the row it replaces nor newer than the copy in memory. */
  ghost predicate Between(s: State, id: string, c: Copy) {
    && (id in s.rows ==> NotOlder(s.rows[id], c))
    && (id in s.memory ==> NotOlder(c, s.memory[id]))
  }

  ghost predicate Ordered(s: State) {
    && (forall id :: id in s.memory && id in s.rows ==> NotOlder(s.rows[id], s.memory[id]))
    && (SomethingInFlight(s) ==> Between(s, s.threads[s.holder.value].saved, s.threads[s.holder.value].copy))
  }

  /** The thread will yet write these messages of the conversation, or newer ones, or mark it. */
  predicate Owing(th: Thread, id: string, c: Copy) {
    match th
    case Owes(queue) => id in queue
    case OwesDelta(d) => d == id
    case Saving(saved, copy, rest) => id in rest || (saved == id && SameMessages(copy, c))
  }

  ghost predicate SomeoneOwes(threads: seq<Thread>, id: string, c: Copy) {
    exists t :: 0 <= t < |threads| && Owing(threads[t], id, c)
  }

  predicate Stored(s: State, id: string) {
    id in s.memory && id in s.rows && SameMessages(s.rows[id], s.memory[id])
  }

  /** Memory holds the repair of the very version that is on disk. */
  predicate UnsavedRepair(s: State, id: string) {
    id in s.memory && id in s.rows
    && s.rows[id].version == s.memory[id].version && s.memory[id].repaired && !s.rows[id].repaired
  }

  ghost predicate Covered(s: State) {
    forall id :: id in s.memory ==>
      Stored(s, id) || UnsavedRepair(s, id) || id in s.dirty || SomeoneOwes(s.threads, id, s.memory[id])
  }

  ghost predicate Inv(s: State) {
    Locked(s) && Bounded(s) && Ordered(s) && Covered(s)
  }

  // ---- Each step keeps the invariant ----------------------------------------------------------

  lemma OwesAfterPut(threads: seq<Thread>, t: nat, th: Thread, id: string, c: Copy)
    requires t < |threads| && SomeoneOwes(threads, id, c)
    requires Owing(threads[t], id, c) ==> Owing(th, id, c)
    ensures SomeoneOwes(threads[t := th], id, c)
  {
    hide Owing;
    var u :| 0 <= u < |threads| && Owing(threads[u], id, c);
    assert Owing(threads[t := th][u], id, c);
  }

  lemma NewlyOwed(threads: seq<Thread>, t: nat, th: Thread, id: string, c: Copy)
    requires t < |threads| && Owing(th, id, c)
    ensures SomeoneOwes(threads[t := th], id, c)
  {
    assert threads[t := th][t] == th;
  }

  lemma SpawnCovered(s: State)
    requires Covered(s)
    ensures Covered(Next(s, Spawn))
  {
    hide Owing;
    forall id | id in s.memory && SomeoneOwes(s.threads, id, s.memory[id])
      ensures SomeoneOwes(s.threads + [Owes([])], id, s.memory[id])
    {
      var u :| 0 <= u < |s.threads| && Owing(s.threads[u], id, s.memory[id]);
      assert Owing((s.threads + [Owes([])])[u], id, s.memory[id]);
    }
  }

  lemma PublishKeepsInv(s: State, t: nat, id: string, phase: Phase, delta: bool)
    requires Inv(s) && IsIdle(s, t)
    ensures Inv(PublishStep(s, t, id, phase, delta))
  {
    hide SomeoneOwes;
    var th := if delta then OwesDelta(id) else Owes([id]);
    var s' := PublishStep(s, t, id, phase, delta);
    forall k | k in s'.memory && SomeoneOwes(s.threads, k, s'.memory[k])
      ensures SomeoneOwes(s'.threads, k, s'.memory[k])
    {
      OwesAfterPut(s.threads, t, th, k, s'.memory[k]);
    }
    NewlyOwed(s.threads, t, th, id, s'.memory[id]);
  }

  lemma AskKeepsInv(s: State, t: nat, id: string)
    requires Inv(s)
    ensures Inv(Next(s, Ask(t, id)))
  {
    hide SomeoneOwes;
    var s' := Next(s, Ask(t, id));
    forall k | k in s.memory && SomeoneOwes(s.threads, k, s.memory[k])
      ensures SomeoneOwes(s'.threads, k, s.memory[k])
    {
      if IsIdle(s, t) {
        OwesAfterPut(s.threads, t, s'.threads[t], k, s.memory[k]);
      }
    }
  }

  lemma DecideKeepsInv(s: State, t: nat, now: int)
    requires Inv(s) && t < |s.threads| && s.threads[t].OwesDelta? && s.holder.None?
    ensures Inv(DecideStep(s, t, now))
  {
    hide SomeoneOwes;
    var s' := DecideStep(s, t, now);
    forall k | k in s.memory && SomeoneOwes(s.threads, k, s.memory[k]) && k !in s'.dirty
      ensures SomeoneOwes(s'.threads, k, s.memory[k])
    {
      OwesAfterPut(s.threads, t, s'.threads[t], k, s.memory[k]);
    }
  }

  lemma ReadKeepsInv(s: State, t: nat, now: int)
    requires Inv(s) && t < |s.threads| && s.threads[t].Owes? && s.threads[t].queue != [] && s.holder.None?
    ensures Inv(ReadStep(s, t, now))
  {
    hide SomeoneOwes;
    var id := s.threads[t].queue[0];
    var s' := ReadStep(s, t, now);
    assert s.threads[t].queue == [id] + s.threads[t].queue[1..];
    forall k | k in s.memory && k != id && SomeoneOwes(s.threads, k, s.memory[k])
      ensures SomeoneOwes(s'.threads, k, s.memory[k])
    {
      OwesAfterPut(s.threads, t, s'.threads[t], k, s.memory[k]);
    }
    if id in s.memory {
      NewlyOwed(s.threads, t, s'.threads[t], id, s.memory[id]);
    }
  }

  lemma SaveKeepsInv(s: State, t: nat)
    requires Inv(s) && t < |s.threads| && s.threads[t].Saving?
    ensures Inv(SaveStep(s, t))
  {
    hide SomeoneOwes;
    var s' := SaveStep(s, t);
    forall k | k in s.memory && SomeoneOwes(s.threads, k, s.memory[k]) && !Stored(s', k)
      ensures SomeoneOwes(s'.threads, k, s.memory[k])
    {
      OwesAfterPut(s.threads, t, s'.threads[t], k, s.memory[k]);
    }
  }

  lemma MutateKeepsInv(s: State, id: string)
    requires Inv(s)
    ensures Inv(Next(s, Mutate(id)))
  {
    hide SomeoneOwes;
  }

  lemma FlushKeepsInv(s: State, t: nat, queue: seq<string>)
    requires Inv(s)
    ensures Inv(Next(s, StartFlush(t, queue)))
  {
    hide SomeoneOwes;
    var s' := Next(s, StartFlush(t, queue));
    forall k | k in s.memory && SomeoneOwes(s.threads, k, s.memory[k])
      ensures SomeoneOwes(s'.threads, k, s.memory[k])
    {
      if IsIdle(s, t) {
        OwesAfterPut(s.threads, t, s'.threads[t], k, s.memory[k]);
      }
    }
  }

  lemma RelabelKeepsOrder(s: State, id: string, phase: Phase)
    requires Locked(s) && Bounded(s) && Ordered(s)
    ensures var s' := Next(s, Relabel(id, phase)); Locked(s') && Bounded(s') && Ordered(s')
  {
  }

  lemma RelabelKeepsCovered(s: State, id: string, phase: Phase)
    requires Covered(s)
    ensures Covered(Next(s, Relabel(id, phase)))
  {
    hide SomeoneOwes;
    if id in s.memory && SomeoneOwes(s.threads, id, s.memory[id]) {
      OwesWhateverPhase(s.threads, id, s.memory[id], phase);
    }
  }

  lemma RelabelKeepsInv(s: State, id: string, phase: Phase)
    requires Inv(s)
    ensures Inv(Next(s, Relabel(id, phase)))
  {
    hide Next, Locked, Bounded, Ordered, Covered;
    RelabelKeepsOrder(s, id, phase);
    RelabelKeepsCovered(s, id, phase);
  }

  lemma OwesWhateverPhase(threads: seq<Thread>, id: string, c: Copy, phase: Phase)
    requires SomeoneOwes(threads, id, c)
    ensures SomeoneOwes(threads, id, c.(phase := phase))
  {
    var t :| 0 <= t < |threads| && Owing(threads[t], id, c);
    assert Owing(threads[t], id, c.(phase := phase));
  }

  lemma EvictKeepsInv(s: State, id: string)
    requires Inv(s)
    ensures Inv(Next(s, Evict(id)))
  {
    hide SomeoneOwes;
  }

  /** A restore keeps the invariant exactly if it does no harm. */
  lemma LoadKeepsInvExactly(s: State, id: string)
    requires Inv(s)
    ensures Inv(Next(s, Load(id))) <==> Harmless(s, id)
  {
    hide SomeoneOwes, NotOlder;
    if id !in s.memory && id in s.rows {
      RestoredIsNotOlder(s.rows[id]);
      if SaveInFlight(s, id) {
        assert s.memory[id := Restored(s.rows[id])][id] == Restored(s.rows[id]);
      }
    }
  }

  lemma RestoredIsNotOlder(row: Copy)
    ensures NotOlder(row, Restored(row)) && row.version == Restored(row).version
  {
  }

  lemma EveryStepKeepsInv(s: State, step: Step)
    requires Inv(s) && HarmlessStep(s, step)
    ensures Inv(Next(s, step))
  {
    match step
    case Spawn => SpawnCovered(s);
    case Publish(t, id, phase, delta) =>
      if IsIdle(s, t) {
        PublishKeepsInv(s, t, id, phase, delta);
      }
    case Decide(t, now) =>
      if t < |s.threads| && s.threads[t].OwesDelta? && s.holder.None? {
        DecideKeepsInv(s, t, now);
      }
    case Read(t, now) =>
      if t < |s.threads| && s.threads[t].Owes? && s.threads[t].queue != [] && s.holder.None? {
        ReadKeepsInv(s, t, now);
      }
    case Save(t) =>
      if t < |s.threads| && s.threads[t].Saving? {
        SaveKeepsInv(s, t);
      }
    case Mutate(id) => MutateKeepsInv(s, id);
    case StartFlush(t, queue) => FlushKeepsInv(s, t, queue);
    case Relabel(id, phase) => RelabelKeepsInv(s, id, phase);
    case Evict(id) => EvictKeepsInv(s, id);
    case Load(id) => LoadKeepsInvExactly(s, id);
    case Ask(t, id) => AskKeepsInv(s, t, id);
  }

  // ---- Main results ---------------------------------------------------------------------------

  predicate RowNotOlder(s: State, s': State, id: string) {
    id in s.rows ==> id in s'.rows && NotOlder(s.rows[id], s'.rows[id])
  }

  lemma StepKeepsRowOrder(s: State, step: Step, id: string)
    requires Inv(s)
    ensures RowNotOlder(s, Next(s, step), id)
  {
    hide SomeoneOwes, Covered;
  }

  /** No step of the run takes the row of the conversation back to an older state. */
  predicate NeverGoesBack(s: State, steps: seq<Step>, id: string)
    decreases |steps|
  {
    steps == [] || (RowNotOlder(s, Next(s, steps[0]), id) && NeverGoesBack(Next(s, steps[0]), steps[1..], id))
  }

  /** Over every interleaving of turns, throttled deltas, snapshots, flushes, edits, evictions and
      harmless restores, the row of a conversation never goes back to an older state. */
  lemma {:induction false} RowsNeverGoBack(s: State, steps: seq<Step>, id: string)
    requires Inv(s) && HarmlessThroughout(s, steps)
    ensures Inv(Run(s, steps)) && NeverGoesBack(s, steps, id)
    decreases |steps|
  {
    hide Inv, Next, HarmlessStep, RowNotOlder;
    if steps != [] {
      EveryStepKeepsInv(s, steps[0]);
      StepKeepsRowOrder(s, steps[0], id);
      RowsNeverGoBack(Next(s, steps[0]), steps[1..], id);
    }
  }

  predicate ReadAt(step: Step, now: int) {
    step.Read? && step.now == now
  }

  /** A delta is only ever held back within the interval after a snapshot of its conversation: the time
      it is throttled by was there before or is that of a read in the run. */
  lemma {:induction false} ThrottledByASnapshot(s: State, steps: seq<Step>, id: string)
    requires id in Run(s, steps).lastAt
    ensures var t := Run(s, steps).lastAt[id];
      (id in s.lastAt && s.lastAt[id] == t) || exists step :: step in steps && ReadAt(step, t)
    decreases |steps|
  {
    hide Next, ReadAt;
    if steps != [] {
      ThrottledByASnapshot(Next(s, steps[0]), steps[1..], id);
      if id in Next(s, steps[0]).lastAt {
        OneStepThrottle(s, steps[0], id);
      }
      assert steps[0] in steps && forall x :: x in steps[1..] ==> x in steps;
    }
  }

  lemma OneStepThrottle(s: State, step: Step, id: string)
    requires id in Next(s, step).lastAt
    ensures (id in s.lastAt && s.lastAt[id] == Next(s, step).lastAt[id]) || ReadAt(step, Next(s, step).lastAt[id])
  {
  }

  predicate Quiescent(s: State) {
    forall t :: 0 <= t < |s.threads| ==> s.threads[t] == Owes([])
  }

  /** With nothing left to write, a resident conversation is stored as it is in memory, unless it is the
      repair of an interrupted turn that nobody has written. */
  lemma QuietRowsMatch(s: State, id: string)
    requires Inv(s) && Quiescent(s) && s.dirty == {} && id in s.memory
    ensures Stored(s, id) <==> !UnsavedRepair(s, id)
  {
  }

  // ---- When a published version reaches its row -----------------------------------------------

  /** The row holds the version or a later one. */
  predicate Written(s: State, id: string, v: nat) {
    id in s.rows && s.rows[id].version >= v
  }

  predicate BeingWritten(s: State, id: string, v: nat) {
    SaveInFlight(s, id) && s.threads[s.holder.value].copy.version >= v
  }

  /** The step evicts the conversation although neither its row nor a save in flight has the version. */
  predicate Drops(s: State, step: Step, id: string, v: nat) {
    && step == Evict(id) && id in s.memory && s.memory[id].phase == Settled
    && !Written(s, id, v) && !BeingWritten(s, id, v)
  }

  /** The latest version there was of anything when the run first dropped this one unwritten, if it did. */
  function DroppedAt(s: State, steps: seq<Step>, id: string, v: nat): Option<nat>
    decreases |steps|
  {
    if steps == [] || Written(s, id, v) then None
    else if Drops(s, steps[0], id, v) then Some(s.clock)
    else DroppedAt(Next(s, steps[0]), steps[1..], id, v)
  }

  /** The version is still somewhere, or a later one made from it. */
  predicate Held(s: State, id: string, v: nat) {
    Written(s, id, v) || BeingWritten(s, id, v) || (id in s.memory && s.memory[id].version >= v)
  }

  lemma StepKeepsHeld(s: State, step: Step, id: string, v: nat)
    requires Inv(s) && Held(s, id, v) && !Drops(s, step, id, v)
    ensures Held(Next(s, step), id, v)
  {
    hide SomeoneOwes, Covered;
    if Written(s, id, v) {
      StepKeepsRowOrder(s, step, id);
    }
  }

  lemma {:induction false} UndroppedIsHeld(s: State, steps: seq<Step>, id: string, v: nat)
    requires Inv(s) && HarmlessThroughout(s, steps) && Held(s, id, v) && DroppedAt(s, steps, id, v).None?
    ensures Inv(Run(s, steps)) && Held(Run(s, steps), id, v)
    decreases |steps|
  {
    hide Inv, Next, HarmlessStep, Held, Drops;
    if steps != [] {
      EveryStepKeepsInv(s, steps[0]);
      if Written(s, id, v) {
        WrittenIsNotDropped(s, steps[0], id, v);
        StepKeepsRowOrder(s, steps[0], id);
      }
      StepKeepsHeld(s, steps[0], id, v);
      UndroppedIsHeld(Next(s, steps[0]), steps[1..], id, v);
    }
  }

  lemma WrittenIsNotDropped(s: State, step: Step, id: string, v: nat)
    requires Written(s, id, v)
    ensures !Drops(s, step, id, v)
  {
  }

  predicate Outside(c: Copy, v: nat, k: nat) {
    c.version < v || c.version > k
  }

  /** No copy of the conversation has a version from v to k, and new versions are later than k. */
  ghost predicate Gone(s: State, id: string, v: nat, k: nat) {
    && s.clock >= k
    && (id in s.memory ==> Outside(s.memory[id], v, k))
    && (id in s.rows ==> Outside(s.rows[id], v, k))
    && (forall t :: 0 <= t < |s.threads| ==> SavesOutside(s.threads[t], id, v, k))
  }

  predicate SavesOutside(th: Thread, id: string, v: nat, k: nat) {
    th.Saving? && th.saved == id ==> Outside(th.copy, v, k)
  }

  lemma ThreadStepKeepsGone(s: State, step: Step, id: string, v: nat, k: nat)
    requires Gone(s, id, v, k) && (step.Decide? || step.Read? || step.Save?)
    ensures Gone(Next(s, step), id, v, k)
  {
    hide Outside;
  }

  lemma StepKeepsGone(s: State, step: Step, id: string, v: nat, k: nat)
    requires Gone(s, id, v, k)
    ensures Gone(Next(s, step), id, v, k)
  {
    if step.Decide? || step.Read? || step.Save? {
      ThreadStepKeepsGone(s, step, id, v, k);
    }
  }

  lemma {:induction false} GoneForGood(s: State, steps: seq<Step>, id: string, v: nat, k: nat)
    requires Gone(s, id, v, k)
    ensures Gone(Run(s, steps), id, v, k)
    decreases |steps|
  {
    hide Gone, Next;
    if steps != [] {
      StepKeepsGone(s, steps[0], id, v, k);
      GoneForGood(Next(s, steps[0]), steps[1..], id, v, k);
    }
  }

  lemma DropLeavesNothing(s: State, step: Step, id: string, v: nat)
    requires Inv(s) && Drops(s, step, id, v)
    ensures Gone(Next(s, step), id, v, s.clock)
  {
    hide Covered, Ordered;
  }

  /** Once dropped unwritten, the version and all that was made from it stay out of memory and row,
      whatever is restored or published afterwards. */
  lemma {:induction false} DroppedIsGone(s: State, steps: seq<Step>, id: string, v: nat)
    requires Inv(s) && HarmlessThroughout(s, steps) && DroppedAt(s, steps, id, v).Some?
    ensures Gone(Run(s, steps), id, v, DroppedAt(s, steps, id, v).value)
    decreases |steps|
  {
    hide Inv, Next, HarmlessStep, Gone, Drops, Written;
    if Drops(s, steps[0], id, v) {
      DropLeavesNothing(s, steps[0], id, v);
      GoneForGood(Next(s, steps[0]), steps[1..], id, v, s.clock);
    } else {
      EveryStepKeepsInv(s, steps[0]);
      DroppedIsGone(Next(s, steps[0]), steps[1..], id, v);
    }
  }

  /** The versions the run made from the given one: any from it on, up to the drop if there was one. */
  function LatestMadeFrom(s: State, steps: seq<Step>, id: string, v: nat): nat {
    var dropped := DroppedAt(s, steps, id, v);
    if dropped.Some? then dropped.value else Run(s, steps).clock
  }

  /** Once everything owed is written and nothing is dirty, a version that was in memory has reached its
      row, itself or in a later one made from it, if and only if it was never evicted unwritten. */
  lemma VersionReachesRowExactly(s: State, steps: seq<Step>, id: string, v: nat)
    requires Inv(s) && HarmlessThroughout(s, steps) && id in s.memory && s.memory[id].version >= v
    requires Quiescent(Run(s, steps)) && Run(s, steps).dirty == {}
    ensures var rows := Run(s, steps).rows;
      DroppedAt(s, steps, id, v).None? <==>
        id in rows && v <= rows[id].version <= LatestMadeFrom(s, steps, id, v)
  {
    hide Inv, HarmlessThroughout, Run, DroppedAt;
    if DroppedAt(s, steps, id, v).None? {
      UndroppedIsHeld(s, steps, id, v);
      QuietHasWritten(Run(s, steps), id, v);
    } else {
      DroppedIsGone(s, steps, id, v);
    }
  }

  lemma QuietHasWritten(s: State, id: string, v: nat)
    requires Inv(s) && Quiescent(s) && s.dirty == {} && Held(s, id, v)
    ensures Written(s, id, v) && s.rows[id].version <= s.clock
  {
    hide SomeoneOwes;
    if id in s.memory {
      QuietRowsMatch(s, id);
    }
  }

  /** This happens: a finished turn is evicted before its snapshot is read, which then writes nothing. */
  lemma UnwrittenEvictionIsReached()
    ensures var s, steps := Next(ONE_THREAD, Publish(0, "c", Settled, false)), [Evict("c"), Read(0, 0)];
      && s.memory == map["c" := Copy(1, false, Settled)] && HarmlessThroughout(s, steps)
      && DroppedAt(s, steps, "c", 1) == Some(1) && Run(s, steps) == ONE_THREAD.(clock := 1)
  {
    var s, steps := Next(ONE_THREAD, Publish(0, "c", Settled, false)), [Evict("c"), Read(0, 0)];
    NoLoadIsHarmless(s, steps);
    assert s == State(1, map["c" := Copy(1, false, Settled)], map[], {}, map[], [Owes(["c"])], None);
    assert [Owes(["c"])][0 := Owes([])] == [Owes([])] && ["c"][1..] == [];
    assert Next(s, Evict("c")) == s.(memory := map[]);
    assert Next(s.(memory := map[]), Read(0, 0)) == ONE_THREAD.(clock := 1);
    RunCons(s, Evict("c"), [Read(0, 0)]);
    assert [Evict("c")] + [Read(0, 0)] == steps && [Read(0, 0)][1..] == [];
  }

  /** A snapshot of each queued conversation by an otherwise idle process. */
  function Snapshots(t: nat, n: nat): seq<Step> {
    if n == 0 then [] else [Read(t, 0), Save(t)] + Snapshots(t, n - 1)
  }

  predicate OnlyThread(s: State, t: nat, queue: seq<string>) {
    && t < |s.threads| && s.threads[t] == Owes(queue) && s.holder.None?
    && forall u :: 0 <= u < |s.threads| && u != t ==> s.threads[u] == Owes([])
  }

  lemma RunAppend(s: State, a: Step, b: Step, rest: seq<Step>)
    ensures Run(s, [a, b] + rest) == Run(Next(Next(s, a), b), rest)
  {
    hide Next;
    var all := [a, b] + rest;
    assert all[1..] == [b] + rest && all[1..][1..] == rest;
  }

  lemma OneSnapshot(s: State, t: nat, queue: seq<string>)
    requires Inv(s) && OnlyThread(s, t, queue) && queue != []
    ensures var s' := Next(Next(s, Read(t, 0)), Save(t));
      && Inv(s') && OnlyThread(s', t, queue[1..])
      && s'.memory == s.memory && s'.dirty == s.dirty - {queue[0]}
  {
    hide Covered, SomeoneOwes, Bounded, Ordered;
    EveryStepKeepsInv(s, Read(t, 0));
    var r := Next(s, Read(t, 0));
    EveryStepKeepsInv(r, Save(t));
  }

  lemma {:induction false} SnapshotsSettle(s: State, t: nat, queue: seq<string>)
    requires Inv(s) && OnlyThread(s, t, queue) && forall id :: id in s.dirty ==> id in queue
    ensures var s' := Run(s, Snapshots(t, |queue|));
      Inv(s') && Quiescent(s') && s'.dirty == {} && s'.memory == s.memory
    decreases |queue|
  {
    hide Inv, Next;
    if queue != [] {
      OneSnapshot(s, t, queue);
      var s' := Next(Next(s, Read(t, 0)), Save(t));
      assert queue == [queue[0]] + queue[1..];
      SnapshotsSettle(s', t, queue[1..]);
      RunAppend(s, Read(t, 0), Save(t), Snapshots(t, |queue| - 1));
    }
  }

  /** Once all callers are done and a flush has run, every resident conversation is stored as it is in
      memory, but for repairs of interrupted turns that nobody has written. */
  lemma FlushStoresEverything(s: State, t: nat, queue: seq<string>, id: string)
    requires Inv(s) && Quiescent(s) && t < |s.threads| && s.dirty == set k | k in queue
    requires id in s.memory
    ensures var s' := Run(Next(s, StartFlush(t, queue)), Snapshots(t, |queue|));
      id in s'.memory && s'.memory[id] == s.memory[id] && (Stored(s', id) <==> !UnsavedRepair(s', id))
  {
    hide Run, Covered, Ordered, Bounded;
    assert s.holder.None? by {
      hide Next;
    }
    EveryStepKeepsInv(s, StartFlush(t, queue));
    SnapshotsSettle(Next(s, StartFlush(t, queue)), t, queue);
    QuietRowsMatch(Run(Next(s, StartFlush(t, queue)), Snapshots(t, |queue|)), id);
  }

  // ---- A harmful restore takes a row back -----------------------------------------------------

  /** The steps after a harmful restore: the copy in flight is saved, and anybody has a snapshot taken. */
  function Aftermath(s: State, id: string): seq<Step>
    requires s.holder.Some?
  {
    var n := |s.threads|;
    [Save(s.holder.value), Spawn, Ask(n, id), Read(n, 0), Save(n)]
  }

  lemma RunCons(s: State, a: Step, rest: seq<Step>)
    ensures Run(s, [a] + rest) == Run(Next(s, a), rest)
  {
    hide Next;
    assert ([a] + rest)[1..] == rest;
  }

  lemma OverrunAfterSave(s: State, id: string)
    requires Inv(s) && !Harmless(s, id)
    ensures var x := Next(Next(s, Load(id)), Save(s.holder.value));
      && x.holder.None? && |x.threads| == |s.threads|
      && (forall t :: 0 <= t < |s.threads| && t != s.holder.value ==> x.threads[t] == s.threads[t])
      && id in x.memory && x.memory[id] == Restored(s.rows[id])
      && id in x.rows && x.rows[id] == s.threads[s.holder.value].copy && !NotOlder(x.rows[id], x.memory[id])
  {
    hide Covered, Ordered, Bounded, Locked, NotOlder;
  }

  lemma StaleSnapshot(x: State, t: nat, id: string)
    requires x.holder.None? && t < |x.threads| && x.threads[t].Owes? && x.threads[t].queue != [] && x.threads[t].queue[0] == id
    requires id in x.memory && id in x.rows
    ensures var y := Next(Next(x, Read(t, 0)), Save(t));
      id in y.rows && y.rows[id] == x.memory[id]
  {
  }

  /** After a harmful restore a snapshot that another thread already owes replaces the newer row, once it
      is saved, by the one from before: a finished answer by the repair of an unfinished one, say. */
  lemma HarmfulRestoreLosesRow(s: State, id: string, t: nat)
    requires Inv(s) && !Harmless(s, id)
    requires t < |s.threads| && s.threads[t].Owes? && s.threads[t].queue != [] && s.threads[t].queue[0] == id
    ensures var x := Next(Next(s, Load(id)), Save(s.holder.value));
      var y := Next(Next(x, Read(t, 0)), Save(t));
      && id in x.rows && x.rows[id] == s.threads[s.holder.value].copy
      && id in y.rows && y.rows[id] == Restored(s.rows[id]) && !RowNotOlder(x, y, id)
  {
    hide Inv, Next, NotOlder;
    OverrunAfterSave(s, id);
    StaleSnapshot(Next(Next(s, Load(id)), Save(s.holder.value)), t, id);
  }

  lemma {:induction false} NeverBackInTheEnd(s: State, steps: seq<Step>, id: string)
    requires NeverGoesBack(s, steps, id)
    ensures RowNotOlder(s, Run(s, steps), id)
    decreases |steps|
  {
    hide Next;
    if steps != [] {
      NeverBackInTheEnd(Next(s, steps[0]), steps[1..], id);
    }
  }

  lemma AskedOwes(x: State, id: string)
    ensures var n := |x.threads|;
      var a := Next(Next(x, Spawn), Ask(n, id));
      a == x.(threads := a.threads) && |a.threads| == n + 1 && a.threads[n] == Owes([id])
  {
  }

  lemma FourSteps(s: State, a: Step, b: Step, c: Step, d: Step)
    ensures Run(s, [a, b, c, d]) == Next(Next(Next(Next(s, a), b), c), d)
  {
    hide Next;
    RunCons(s, a, [b, c, d]);
    RunCons(Next(s, a), b, [c, d]);
    RunCons(Next(Next(s, a), b), c, [d]);
    assert [a] + [b, c, d] == [a, b, c, d] && [b] + [c, d] == [b, c, d] && [c] + [d] == [c, d];
    assert [d][1..] == [];
  }

  lemma AskedSnapshot(x: State, id: string)
    requires x.holder.None? && id in x.memory && id in x.rows
    ensures var n := |x.threads|;
      var y := Run(x, [Spawn, Ask(n, id), Read(n, 0), Save(n)]);
      id in y.rows && y.rows[id] == x.memory[id]
  {
    hide Next;
    var n := |x.threads|;
    AskedOwes(x, id);
    StaleSnapshot(Next(Next(x, Spawn), Ask(n, id)), n, id);
    FourSteps(x, Spawn, Ask(n, id), Read(n, 0), Save(n));
  }

  lemma {:induction false} NoLoadIsHarmless(s: State, steps: seq<Step>)
    requires forall step :: step in steps ==> !step.Load?
    ensures HarmlessThroughout(s, steps)
    decreases |steps|
  {
    hide Next;
    if steps != [] {
      assert steps[0] in steps && forall x :: x in steps[1..] ==> x in steps;
      NoLoadIsHarmless(Next(s, steps[0]), steps[1..]);
    }
  }

  lemma HarmfulRestoreGoesBack(s: State, id: string)
    requires Inv(s) && !Harmless(s, id)
    ensures HarmlessThroughout(Next(s, Load(id)), Aftermath(s, id))
    ensures !NeverGoesBack(Next(s, Load(id)), Aftermath(s, id), id)
  {
    hide Inv, Next, NotOlder;
    var l := Next(s, Load(id));
    var x := Next(l, Save(s.holder.value));
    var rest := [Spawn, Ask(|s.threads|, id), Read(|s.threads|, 0), Save(|s.threads|)];
    OverrunAfterSave(s, id);
    AskedSnapshot(x, id);
    NoLoadIsHarmless(l, Aftermath(s, id));
    assert Aftermath(s, id)[1..] == rest;
    if NeverGoesBack(x, rest, id) {
      NeverBackInTheEnd(x, rest, id);
    }
  }

  /** An exact account: a restore is harmless if and only if no run of further harmless steps takes the
      row of the conversation back. */
  lemma HarmlessExactly(s: State, id: string)
    requires Inv(s)
    ensures Harmless(s, id) <==>
      forall steps :: HarmlessThroughout(Next(s, Load(id)), steps) ==> NeverGoesBack(Next(s, Load(id)), steps, id)
  {
    hide Inv, Next, NeverGoesBack, HarmlessThroughout;
    if Harmless(s, id) {
      LoadKeepsInvExactly(s, id);
      forall steps | HarmlessThroughout(Next(s, Load(id)), steps) ensures NeverGoesBack(Next(s, Load(id)), steps, id) {
        RowsNeverGoBack(Next(s, Load(id)), steps, id);
      }
    } else {
      HarmfulRestoreGoesBack(s, id);
    }
  }

  /** A turn starts and is stored, it ends, and while the finished answer is being written its
      conversation is evicted. */
  const END_OVERTAKEN := [
    Publish(0, "c", Running, false), Read(0, 0), Save(0), Publish(0, "c", Settled, false), Read(0, 0), Evict("c")]

  const ONE_THREAD := State(0, map[], map[], {}, map[], [Owes([])], None)

  const TURN_STORED := State(
    1, map["c" := Copy(1, false, Running)], map["c" := Copy(1, false, Running)], {}, map["c" := 0], [Owes([])], None)

  const ANSWER_IN_FLIGHT := State(
    2, map[], map["c" := Copy(1, false, Running)], {}, map[], [Saving("c", Copy(2, false, Settled), [])], Some(0))

  lemma TurnIsStored()
    ensures Next(Next(Next(ONE_THREAD, Publish(0, "c", Running, false)), Read(0, 0)), Save(0)) == TURN_STORED
  {
    var s1 := Next(ONE_THREAD, Publish(0, "c", Running, false));
    assert s1 == State(1, map["c" := Copy(1, false, Running)], map[], {}, map[], [Owes(["c"])], None);
    var s2 := Next(s1, Read(0, 0));
    assert s1.dirty - {"c"} == {} && s1.threads[0].queue[1..] == [];
    assert s2.threads == [Saving("c", Copy(1, false, Running), [])];
  }

  lemma EndIsOvertaken()
    ensures Next(Next(Next(TURN_STORED, Publish(0, "c", Settled, false)), Read(0, 0)), Evict("c")) == ANSWER_IN_FLIGHT
  {
    var s1 := Next(TURN_STORED, Publish(0, "c", Settled, false));
    assert s1 == TURN_STORED.(clock := 2, memory := map["c" := Copy(2, false, Settled)], threads := [Owes(["c"])]);
    var s2 := Next(s1, Read(0, 0));
    assert s1.dirty - {"c"} == {} && s1.lastAt - {"c"} == map[] && s1.threads[0].queue[1..] == [];
    assert s2.threads == [Saving("c", Copy(2, false, Settled), [])];
    assert s2.memory - {"c"} == map[];
  }

  lemma SixSteps(s: State, a: Step, b: Step, c: Step, d: Step, e: Step, f: Step)
    ensures Run(s, [a, b, c, d, e, f]) == Next(Next(Next(Next(Next(Next(s, a), b), c), d), e), f)
  {
    hide Next;
    RunCons(s, a, [b, c, d, e, f]);
    RunCons(Next(s, a), b, [c, d, e, f]);
    FourSteps(Next(Next(s, a), b), c, d, e, f);
    assert [a] + [b, c, d, e, f] == [a, b, c, d, e, f] && [b] + [c, d, e, f] == [b, c, d, e, f];
  }

  lemma AnswerInFlightIsHarmful()
    ensures !Harmless(ANSWER_IN_FLIGHT, "c")
  {
  }

  /** Such a restore happens: this run from a server with nothing stored leads to a state in which the
      conversation would be restored from its unfinished row while the finished answer is in flight. */
  lemma HarmfulRestoreIsReached()
    ensures Inv(ONE_THREAD) && HarmlessThroughout(ONE_THREAD, END_OVERTAKEN)
    ensures Run(ONE_THREAD, END_OVERTAKEN) == ANSWER_IN_FLIGHT
    ensures !Harmless(ANSWER_IN_FLIGHT, "c") && Restored(ANSWER_IN_FLIGHT.rows["c"]) == Copy(1, true, Settled)
  {
    AnswerInFlightIsHarmful();
    hide Next, Run, HarmlessThroughout, Harmless;
    NoLoadIsHarmless(ONE_THREAD, END_OVERTAKEN);
    TurnIsStored();
    EndIsOvertaken();
    SixSteps(ONE_THREAD, END_OVERTAKEN[0], END_OVERTAKEN[1], END_OVERTAKEN[2], END_OVERTAKEN[3], END_OVERTAKEN[4], END_OVERTAKEN[5]);
  }

  // ---- The methods of one caller --------------------------------------------------------------

  /** What the persistence methods read and write. */
  datatype Disk = Disk(memory: map<string, Copy>, rows: map<string, Copy>, dirty: set<string>, lastAt: map<string, int>)

  /** One undisturbed snapshot. */
  function SnapshotOn(d: Disk, id: string, now: int): Disk {
    if id !in d.memory then d.(dirty := d.dirty - {id}, lastAt := d.lastAt - {id})
    else
      d.(dirty := d.dirty - {id}, rows := d.rows[id := d.memory[id]],
         lastAt := if d.memory[id].phase == Running then d.lastAt[id := now] else d.lastAt - {id})
  }

  predicate Throttled(d: Disk, id: string, now: int) {
    id in d.lastAt && now - d.lastAt[id] < 1_000_000_000
  }

  function DiskOf(s: State): Disk {
    Disk(s.memory, s.rows, s.dirty, s.lastAt)
  }

  /** A caller that owes a snapshot and is not interrupted does in its two steps what one call does. */
  lemma SnapshotIsOneCall(s: State, t: nat, now: int)
    requires Locked(s) && t < |s.threads| && s.threads[t].Owes? && s.threads[t].queue != [] && s.holder.None?
    ensures var s' := Next(Next(s, Read(t, now)), Save(t));
      && DiskOf(s') == SnapshotOn(DiskOf(s), s.threads[t].queue[0], now)
      && s'.threads == s.threads[t := Owes(s.threads[t].queue[1..])] && s'.holder.None?
  {
    hide Locked;
    var id, r := s.threads[t].queue[0], Next(s, Read(t, now));
    if id in s.memory {
      assert r.threads[t] == Saving(id, s.memory[id], s.threads[t].queue[1..]);
      assert Next(r, Save(t)) == SaveStep(r, t);
    } else {
      assert Next(r, Save(t)) == r;
    }
  }

  lemma DecidedIsLocked(s: State, t: nat, now: int)
    requires Locked(s) && t < |s.threads| && s.threads[t].OwesDelta?
    ensures Locked(Next(s, Decide(t, now)))
  {
  }

  /** A claim and its restore change the phase of a conversation that is not running, to one that is not, and
      nothing else; a shutdown flush takes on exactly the dirty conversations; an edit of a conversation
      that is not running reaches memory and row together; who decides, reads, edits or flushes waits for the lock. */
  lemma OtherStepsExactly(s: State, id: string, phase: Phase, t: nat, queue: seq<string>)
    ensures Next(s, Relabel(id, phase)) ==
      if id in s.memory && !s.memory[id].phase.Running? && !phase.Running?
      then s.(memory := s.memory[id := Copy(s.memory[id].version, s.memory[id].repaired, phase)]) else s
    ensures Next(s, StartFlush(t, queue)) != s ==>
      && (forall k :: k in s.dirty <==> k in queue)
      && Next(s, StartFlush(t, queue)) == s.(threads := s.threads[t := Owes(queue)])
    ensures Next(s, Mutate(id)) ==
      if id in s.memory && !s.memory[id].phase.Running? && s.holder.None? then
        var c := Copy(s.clock + 1, false, s.memory[id].phase);
        s.(clock := s.clock + 1, memory := s.memory[id := c], rows := s.rows[id := c])
      else s
    ensures s.holder.Some? ==> Next(s, StartFlush(t, queue)) == s
    ensures s.holder.Some? ==> forall now :: Next(s, Decide(t, now)) == s && Next(s, Read(t, now)) == s
  {
  }

  /** One that has to decide about a delta marks the conversation within the interval and otherwise makes a
      snapshot of it, in three steps, as one call does. */
  lemma DeltaIsOneCall(s: State, t: nat, id: string, now: int)
    requires Locked(s) && t < |s.threads| && s.threads[t] == OwesDelta(id) && s.holder.None?
    ensures var s' := Next(Next(Next(s, Decide(t, now)), Read(t, now)), Save(t));
      && DiskOf(s') == (if Throttled(DiskOf(s), id, now) then DiskOf(s).(dirty := s.dirty + {id})
                        else SnapshotOn(DiskOf(s), id, now))
      && s'.threads == s.threads[t := Owes([])] && s'.holder.None?
  {
    hide SnapshotOn, Locked;
    var d := Next(s, Decide(t, now));
    if Throttled(DiskOf(s), id, now) {
      assert Next(d, Read(t, now)) == d && Next(d, Save(t)) == d;
    } else {
      DecidedIsLocked(s, t, now);
      assert d.threads[t] == Owes([id]) && [id][1..] == [];
      SnapshotIsOneCall(d, t, now);
      assert d.threads[t := Owes([])] == s.threads[t := Owes([])];
    }
  }

  class ConversationPersister {
    var memory: map<string, Copy>
    var rows: map<string, Copy>
    var dirty: set<string>
    var lastAt: map<string, int>

    ghost function Contents(): Disk
      reads this
    {
      Disk(memory, rows, dirty, lastAt)
    }

    constructor ()
      ensures Contents() == Disk(map[], map[], {}, map[])
    {
      memory, rows, dirty, lastAt := map[], map[], {}, map[];
    }

    /** persistConversationSnapshot, when the save succeeds. */
    method PersistSnapshot(id: string, now: int)
      modifies `rows, `dirty, `lastAt
      ensures Contents() == SnapshotOn(old(Contents()), id, now)
    {
      dirty := dirty - {id};
      if id !in memory {
        lastAt := lastAt - {id};
        return;
      }
      var entry := memory[id];
      if entry.phase == Running {
        lastAt := lastAt[id := now];
      } else {
        lastAt := lastAt - {id};
      }
      rows := rows[id := entry];
    }

    /** persistConversationDelta */
    method PersistDelta(id: string, now: int)
      modifies `rows, `dirty, `lastAt
      ensures Contents() ==
        if Throttled(old(Contents()), id, now) then old(Contents()).(dirty := old(dirty) + {id})
        else SnapshotOn(old(Contents()), id, now)
    {
      if id in lastAt && now - lastAt[id] < INTERVAL {
        dirty := dirty + {id};
        return;
      }
      PersistSnapshot(id, now);
    }

    /** flushConversationSnapshots: afterwards nothing is dirty, every conversation that was is stored as
        it is in memory, and no other row changed. */
    method Flush(now: int)
      modifies `rows, `dirty, `lastAt
      ensures dirty == {}
      ensures forall id :: id in old(dirty) && id in memory ==> id in rows && rows[id] == memory[id]
      ensures forall id :: id !in old(dirty) || id !in memory ==> (id in rows <==> id in old(rows))
      ensures forall id :: id in old(rows) && (id !in old(dirty) || id !in memory) ==> rows[id] == old(rows)[id]
    {
      var rest := dirty;
      while rest != {}
        invariant rest <= old(dirty) && dirty == rest
        invariant forall id :: id in old(dirty) - rest && id in memory ==> id in rows && rows[id] == memory[id]
        invariant forall id :: id !in old(dirty) || id !in memory ==> (id in rows <==> id in old(rows))
        invariant forall id :: id in old(rows) && (id !in old(dirty) || id !in memory) ==> rows[id] == old(rows)[id]
        decreases rest
      {
        var id :| id in rest;
        rest := rest - {id};
        PersistSnapshot(id, now);
      }
    }
  }
}
