/** The dispatch slot protocol as steps of concurrent requests and configuration changes
    (internal/app/main.go:200-371). Requests look slots up and raise them by compare-and-swap under a
    shared lock; a rebuild of the slot map takes the lock exclusively. */
module DispatchProtocol {
  import opened Wrappers

  /** A slot object: the key it was created for, its in-flight count and its limit. */
  datatype Slot = Slot(key: string, inflight: int, max: int)

  /** tryAcquireAccountSlot treats a limit that is not positive as one. */
  function Limit(max: int): int {
    if max <= 0 then 1 else max
  }

  /** Where a request stands. R is the type of references to slot objects. */
  datatype Thread<R> =
    | Idle
    | LookingUp(keys: seq<string>, held: seq<R>)
    | LoadedMax(keys: seq<string>, held: seq<R>, slot: R, limit: int)
    | LoadedInflight(keys: seq<string>, held: seq<R>, slot: R, limit: int, seen: int)
    | Leased(keys: seq<string>, held: seq<R>)
    | Dropping(keys: seq<string>, held: seq<R>, loaded: Option<int>)

  function HeldBy<R>(th: Thread<R>): seq<R> {
    if th.Idle? then [] else th.held
  }

  function KeysOf<R>(th: Thread<R>): seq<string> {
    if th.Idle? then [] else th.keys
  }

  /** Only between requests, or while it runs with its lease, is a thread outside the lock. */
  predicate InsideLock<R>(th: Thread<R>) {
    !th.Idle? && !th.Leased?
  }

  datatype State<R(==)> = State(slots: map<string, R>, objects: map<R, Slot>, threads: seq<Thread<R>>)

  /** One key the configuration asks for, with its already converted limit. */
  datatype Wanted = Wanted(key: string, max: int)

  datatype Step<R> =
    | Spawn
    | Begin(t: nat, credentialKey: string, workspaceKey: string)
    | LookUp(t: nat)
    | LoadInflight(t: nat)
    | CompareAndSwap(t: nat)
    | Release(t: nat)
    | LoadForDrop(t: nat)
    | DropCompareAndSwap(t: nat)
    | FinishDrop(t: nat)
    | Rebuild(wanted: seq<Wanted>, spare: seq<R>)

  // ---- Rebuilding the slot map ----------------------------------------------------------------

  datatype SlotTable<R(==)> = SlotTable(slots: map<string, R>, objects: map<R, Slot>)

  /** Keeps the object already mapped at the key, or maps a spare idle one. */
  function PlaceWanted<R(==)>(previous: map<string, R>, t: SlotTable<R>, w: Wanted, spare: R): SlotTable<R> {
    if w.key in previous && previous[w.key] in t.objects then
      var r := previous[w.key];
      SlotTable(t.slots[w.key := r], t.objects[r := t.objects[r].(max := w.max)])
    else SlotTable(t.slots[w.key := spare], t.objects[spare := Slot(w.key, 0, w.max)])
  }

  function PlaceAll<R(==)>(previous: map<string, R>, objects: map<R, Slot>, wanted: seq<Wanted>,
        spare: seq<R>): SlotTable<R>
    requires |spare| == |wanted|
  {
    if wanted == [] then SlotTable(map[], objects)
    else
      var n := |wanted| - 1;
      PlaceWanted(previous, PlaceAll(previous, objects, wanted[..n], spare[..n]), wanted[n], spare[n])
  }

  /** Busy slots whose key has vanished stay mapped; idle leftovers are dropped. */
  function KeepBusy<R(==)>(previous: map<string, R>, t: SlotTable<R>): SlotTable<R> {
    t.(slots := (map k | k in previous && k !in t.slots && previous[k] in t.objects && t.objects[previous[k]].inflight > 0
                   :: previous[k]) + t.slots)
  }

  function Rebuilt<R(==)>(previous: map<string, R>, objects: map<R, Slot>, wanted: seq<Wanted>,
        spare: seq<R>): SlotTable<R>
    requires |spare| == |wanted|
  {
    KeepBusy(previous, PlaceAll(previous, objects, wanted, spare))
  }

  predicate FreshFor<R(==)>(spare: seq<R>, objects: map<R, Slot>) {
    && (forall i :: 0 <= i < |spare| ==> spare[i] !in objects)
    && (forall i, j :: 0 <= i < j < |spare| ==> spare[i] != spare[j])
  }

  // ---- Steps ----------------------------------------------------------------------------------

  function Put<R(==)>(s: State<R>, t: nat, th: Thread<R>): State<R>
    requires t < |s.threads|
  {
    s.(threads := s.threads[t := th])
  }

  function AddInflight<R(==)>(s: State<R>, r: R, delta: int): State<R>
    requires r in s.objects
  {
    s.(objects := s.objects[r := s.objects[r].(inflight := s.objects[r].inflight + delta)])
  }

  function Next<R(==)>(s: State<R>, step: Step<R>): State<R> {
    match step
    case Spawn => s.(threads := s.threads + [Idle])
    case Begin(t, ck, wk) =>
      if t < |s.threads| && s.threads[t].Idle? then Put(s, t, LookingUp([ck, wk], [])) else s
    case LookUp(t) =>
      if t < |s.threads| && s.threads[t].LookingUp? && |s.threads[t].held| < |s.threads[t].keys| then LookUpStep(s, t) else s
    case LoadInflight(t) =>
      if t < |s.threads| && s.threads[t].LoadedMax? then LoadInflightStep(s, t) else s
    case CompareAndSwap(t) =>
      if t < |s.threads| && s.threads[t].LoadedInflight? then SwapStep(s, t) else s
    case Release(t) =>
      if t < |s.threads| && s.threads[t].Leased? then Put(s, t, Dropping(s.threads[t].keys, s.threads[t].held, None)) else s
    case LoadForDrop(t) =>
      if t < |s.threads| && s.threads[t].Dropping? && s.threads[t].held != [] && s.threads[t].loaded.None?
      then LoadForDropStep(s, t) else s
    case DropCompareAndSwap(t) =>
      if t < |s.threads| && s.threads[t].Dropping? && s.threads[t].held != [] && s.threads[t].loaded.Some?
      then DropSwapStep(s, t) else s
    case FinishDrop(t) =>
      if t < |s.threads| && s.threads[t].Dropping? && s.threads[t].held == [] then Put(s, t, Idle) else s
    case Rebuild(wanted, spare) =>
      if |spare| == |wanted| && FreshFor(spare, s.objects) && forall t :: 0 <= t < |s.threads| ==> !InsideLock(s.threads[t])
      then var table := Rebuilt(s.slots, s.objects, wanted, spare); State(table.slots, table.objects, s.threads)
      else s
  }

  function LookUpStep<R(==)>(s: State<R>, t: nat): State<R>
    requires t < |s.threads| && s.threads[t].LookingUp? && |s.threads[t].held| < |s.threads[t].keys|
  {
    var th := s.threads[t];
    var key := th.keys[|th.held|];
    if key == "" || key !in s.slots || s.slots[key] !in s.objects then Put(s, t, Dropping(th.keys, th.held, None))
    else Put(s, t, LoadedMax(th.keys, th.held, s.slots[key], Limit(s.objects[s.slots[key]].max)))
  }

  function LoadInflightStep<R(==)>(s: State<R>, t: nat): State<R>
    requires t < |s.threads| && s.threads[t].LoadedMax?
  {
    var th := s.threads[t];
    if th.slot !in s.objects || s.objects[th.slot].inflight >= th.limit then Put(s, t, Dropping(th.keys, th.held, None))
    else Put(s, t, LoadedInflight(th.keys, th.held, th.slot, th.limit, s.objects[th.slot].inflight))
  }

  /** The compare-and-swap raises the count only if it is still the one read; otherwise the loop starts over. */
  function SwapStep<R(==)>(s: State<R>, t: nat): State<R>
    requires t < |s.threads| && s.threads[t].LoadedInflight?
  {
    var th := s.threads[t];
    if th.slot !in s.objects then s
    else if s.objects[th.slot].inflight == th.seen then
      var held := th.held + [th.slot];
      Put(AddInflight(s, th.slot, 1), t, if |held| == |th.keys| then Leased(th.keys, held) else LookingUp(th.keys, held))
    else Put(s, t, LoadedMax(th.keys, th.held, th.slot, Limit(s.objects[th.slot].max)))
  }

  /** releaseAccountSlot reads the count of the slot taken last; a count that is not positive is left alone. */
  function LoadForDropStep<R(==)>(s: State<R>, t: nat): State<R>
    requires t < |s.threads| && s.threads[t].Dropping? && s.threads[t].held != []
  {
    var th := s.threads[t];
    var n := |th.held| - 1;
    if th.held[n] !in s.objects || s.objects[th.held[n]].inflight <= 0 then Put(s, t, Dropping(th.keys, th.held[..n], None))
    else Put(s, t, Dropping(th.keys, th.held, Some(s.objects[th.held[n]].inflight)))
  }

  function DropSwapStep<R(==)>(s: State<R>, t: nat): State<R>
    requires t < |s.threads| && s.threads[t].Dropping? && s.threads[t].held != [] && s.threads[t].loaded.Some?
  {
    var th := s.threads[t];
    var n := |th.held| - 1;
    var r := th.held[n];
    if r in s.objects && s.objects[r].inflight == th.loaded.value then
      Put(AddInflight(s, r, -1), t, Dropping(th.keys, th.held[..n], None))
    else Put(s, t, Dropping(th.keys, th.held, None))
  }

  function Run<R(==)>(s: State<R>, steps: seq<Step<R>>): State<R>
    decreases |steps|
  {
    if steps == [] then s else Run(Next(s, steps[0]), steps[1..])
  }

  // ---- Outstanding holds ----------------------------------------------------------------------

  /** Every hold of every thread, each slot as often as it is held. */
  ghost function Holds<R>(threads: seq<Thread<R>>): multiset<R> {
    if threads == [] then multiset{}
    else Holds(threads[..|threads| - 1]) + multiset(HeldBy(threads[|threads| - 1]))
  }

  lemma AddSwap<T>(a: multiset<T>, b: multiset<T>, c: multiset<T>, d: multiset<T>, l: multiset<T>)
    requires a + b == c + d
    ensures (a + l) + b == (c + l) + d
  {
    assert forall x :: ((a + l) + b)[x] == (a + b)[x] + l[x];
    assert forall x :: ((c + l) + d)[x] == (c + d)[x] + l[x];
  }

  lemma Cancel<T>(a: multiset<T>, b: multiset<T>, c: multiset<T>)
    requires a + b == c + b
    ensures a == c
  {
    assert forall x :: (a + b)[x] == a[x] + b[x] && (c + b)[x] == c[x] + b[x];
  }

  lemma {:induction false} HoldsUpdate<R>(threads: seq<Thread<R>>, t: nat, th: Thread<R>)
    requires t < |threads|
    ensures Holds(threads[t := th]) + multiset(HeldBy(threads[t])) == Holds(threads) + multiset(HeldBy(th))
    decreases |threads|
  {
    hide HeldBy;
    var n := |threads| - 1;
    var updated := threads[t := th];
    if t == n {
      assert updated[..n] == threads[..n];
    } else {
      assert updated[..n] == threads[..n][t := th] && updated[n] == threads[n];
      HoldsUpdate(threads[..n], t, th);
      AddSwap(Holds(updated[..n]), multiset(HeldBy(threads[t])), Holds(threads[..n]), multiset(HeldBy(th)),
              multiset(HeldBy(threads[n])));
    }
  }

  lemma {:induction false} HoldsOne<R>(threads: seq<Thread<R>>, t: nat, r: R)
    requires t < |threads|
    ensures multiset(HeldBy(threads[t]))[r] <= Holds(threads)[r]
    decreases |threads|
  {
    hide HeldBy;
    var n := |threads| - 1;
    if t != n {
      HoldsOne(threads[..n], t, r);
    }
  }

  lemma {:induction false} NoHolds<R>(threads: seq<Thread<R>>)
    requires forall t :: 0 <= t < |threads| ==> threads[t].Idle?
    ensures Holds(threads) == multiset{}
    decreases |threads|
  {
    if threads != [] {
      NoHolds(threads[..|threads| - 1]);
    }
  }

  // ---- The invariant --------------------------------------------------------------------------

  /** Every mapped object was created for the key it is mapped at. */
  ghost predicate Consistent<R>(slots: map<string, R>, objects: map<R, Slot>) {
    forall k :: k in slots ==> slots[k] in objects && objects[slots[k]].key == k
  }

  /** The count of every object is the number of holds on it, and every held object is mapped at its key. */
  ghost predicate Exact<R>(slots: map<string, R>, objects: map<R, Slot>, holds: multiset<R>) {
    && (forall r :: r in objects ==> objects[r].inflight == holds[r])
    && (forall r :: r in holds ==> r in objects && objects[r].key in slots && slots[objects[r].key] == r)
  }

  /** The slots held are those of the first keys asked for, in order. */
  ghost predicate HoldsItsKeys<R>(keys: seq<string>, held: seq<R>, objects: map<R, Slot>) {
    && |keys| == 2 && |held| <= 2
    && forall i :: 0 <= i < |held| ==> held[i] in objects && objects[held[i]].key == keys[i]
  }

  /** The slot a request is about to raise is the one mapped at its next key, with its present limit. */
  ghost predicate Aims<R>(keys: seq<string>, n: nat, slot: R, limit: int, slots: map<string, R>, objects: map<R, Slot>) {
    n < |keys| && keys[n] in slots && slots[keys[n]] == slot && slot in objects && limit == Limit(objects[slot].max)
  }

  ghost predicate Stage<R>(th: Thread<R>, slots: map<string, R>, objects: map<R, Slot>) {
    match th
    case Idle => true
    case Leased(keys, held) => |held| == 2
    case LookingUp(keys, held) => |held| < 2
    case LoadedMax(keys, held, slot, limit) => |held| < 2 && Aims(keys, |held|, slot, limit, slots, objects)
    case LoadedInflight(keys, held, slot, limit, seen) =>
      |held| < 2 && Aims(keys, |held|, slot, limit, slots, objects) && seen < limit
    case Dropping(keys, held, loaded) => loaded.Some? ==> held != [] && loaded.value > 0
  }

  ghost predicate Current<R>(th: Thread<R>, slots: map<string, R>, objects: map<R, Slot>) {
    Stage(th, slots, objects) && (!th.Idle? ==> HoldsItsKeys(KeysOf(th), HeldBy(th), objects))
  }

  ghost predicate AllCurrent<R>(s: State<R>) {
    forall t :: 0 <= t < |s.threads| ==> Current(s.threads[t], s.slots, s.objects)
  }

  ghost predicate Inv<R>(s: State<R>) {
    && Consistent(s.slots, s.objects)
    && Exact(s.slots, s.objects, Holds(s.threads))
    && AllCurrent(s)
  }

  // ---- Each step keeps the invariant ----------------------------------------------------------

  /** A thread that keeps its holds may move to any stage that is right for the present map. */
  lemma MoveKeepsInv<R>(s: State<R>, t: nat, th: Thread<R>)
    requires Inv(s) && t < |s.threads|
    requires multiset(HeldBy(th)) == multiset(HeldBy(s.threads[t])) && Current(th, s.slots, s.objects)
    ensures Inv(Put(s, t, th))
  {
    hide Current, HeldBy, Holds, Consistent, Exact;
    HoldsUpdate(s.threads, t, th);
    Cancel(Holds(s.threads[t := th]), multiset(HeldBy(th)), Holds(s.threads));
  }

  /** Raising or lowering one count leaves every request's view current: limits and keys do not change. */
  lemma CountLeavesCurrent<R>(th: Thread<R>, slots: map<string, R>, objects: map<R, Slot>, r: R, inflight: int)
    requires r in objects && Current(th, slots, objects)
    ensures Current(th, slots, objects[r := objects[r].(inflight := inflight)])
  {
  }

  lemma ExactRaised<R>(slots: map<string, R>, objects: map<R, Slot>, holds: multiset<R>, r: R)
    requires Exact(slots, objects, holds) && r in objects && objects[r].key in slots && slots[objects[r].key] == r
    ensures Exact(slots, objects[r := objects[r].(inflight := objects[r].inflight + 1)], holds + multiset{r})
  {
  }

  lemma ExactLowered<R>(slots: map<string, R>, objects: map<R, Slot>, holds: multiset<R>, rest: multiset<R>, r: R)
    requires Exact(slots, objects, holds) && r in objects && rest + multiset{r} == holds
    ensures Exact(slots, objects[r := objects[r].(inflight := objects[r].inflight - 1)], rest)
  {
    assert holds[r] == rest[r] + 1;
    forall q | q in rest ensures q in holds {
      assert holds[q] >= rest[q];
    }
    forall q | q in objects && q != r ensures holds[q] == rest[q] {
    }
  }

  lemma CountKeepsAllCurrent<R>(s: State<R>, r: R, delta: int)
    requires AllCurrent(s) && r in s.objects
    ensures AllCurrent(AddInflight(s, r, delta))
  {
    hide Current;
    forall u | 0 <= u < |s.threads| ensures Current(s.threads[u], s.slots, AddInflight(s, r, delta).objects) {
      CountLeavesCurrent(s.threads[u], s.slots, s.objects, r, s.objects[r].inflight + delta);
    }
  }

  lemma PutKeepsAllCurrent<R>(s: State<R>, t: nat, th: Thread<R>)
    requires AllCurrent(s) && t < |s.threads| && Current(th, s.slots, s.objects)
    ensures AllCurrent(Put(s, t, th))
  {
  }

  lemma CountKeepsConsistent<R>(slots: map<string, R>, objects: map<R, Slot>, r: R, inflight: int)
    requires Consistent(slots, objects) && r in objects
    ensures Consistent(slots, objects[r := objects[r].(inflight := inflight)])
  {
  }

  lemma RaisedHolds<R>(threads: seq<Thread<R>>, t: nat, th: Thread<R>, r: R)
    requires t < |threads| && HeldBy(th) == HeldBy(threads[t]) + [r]
    ensures Holds(threads[t := th]) == Holds(threads) + multiset{r}
  {
    hide HeldBy, Holds;
    HoldsUpdate(threads, t, th);
    var before := multiset(HeldBy(threads[t]));
    assert Holds(threads[t := th]) + before == (Holds(threads) + multiset{r}) + before;
    Cancel(Holds(threads[t := th]), before, Holds(threads) + multiset{r});
  }

  lemma LoweredHolds<R>(threads: seq<Thread<R>>, t: nat, th: Thread<R>, r: R)
    requires t < |threads| && HeldBy(threads[t]) == HeldBy(th) + [r]
    ensures Holds(threads[t := th]) + multiset{r} == Holds(threads)
  {
    hide HeldBy, Holds;
    HoldsUpdate(threads, t, th);
    var after := multiset(HeldBy(th));
    assert (Holds(threads[t := th]) + multiset{r}) + after == Holds(threads) + after;
    Cancel(Holds(threads[t := th]) + multiset{r}, after, Holds(threads));
  }

  lemma RaiseKeepsInv<R>(s: State<R>, t: nat, th: Thread<R>, r: R)
    requires Inv(s) && t < |s.threads| && HeldBy(th) == HeldBy(s.threads[t]) + [r]
    requires r in s.objects && s.objects[r].key in s.slots && s.slots[s.objects[r].key] == r
    requires Current(th, s.slots, s.objects)
    ensures Inv(Put(AddInflight(s, r, 1), t, th))
  {
    hide HeldBy, Holds, Current, Consistent, Exact, AllCurrent;
    RaisedHolds(s.threads, t, th, r);
    ExactRaised(s.slots, s.objects, Holds(s.threads), r);
    CountKeepsConsistent(s.slots, s.objects, r, s.objects[r].inflight + 1);
    CountKeepsAllCurrent(s, r, 1);
    CountLeavesCurrent(th, s.slots, s.objects, r, s.objects[r].inflight + 1);
    PutKeepsAllCurrent(AddInflight(s, r, 1), t, th);
  }

  lemma LowerKeepsInv<R>(s: State<R>, t: nat, th: Thread<R>, r: R)
    requires Inv(s) && t < |s.threads| && HeldBy(s.threads[t]) == HeldBy(th) + [r]
    requires r in s.objects && Current(th, s.slots, s.objects)
    ensures Inv(Put(AddInflight(s, r, -1), t, th))
  {
    hide HeldBy, Holds, Current, Consistent, Exact, AllCurrent;
    LoweredHolds(s.threads, t, th, r);
    ExactLowered(s.slots, s.objects, Holds(s.threads), Holds(s.threads[t := th]), r);
    CountKeepsConsistent(s.slots, s.objects, r, s.objects[r].inflight - 1);
    CountKeepsAllCurrent(s, r, -1);
    CountLeavesCurrent(th, s.slots, s.objects, r, s.objects[r].inflight - 1);
    PutKeepsAllCurrent(AddInflight(s, r, -1), t, th);
  }

  lemma LookUpKeepsInv<R>(s: State<R>, t: nat)
    requires Inv(s) && t < |s.threads| && s.threads[t].LookingUp? && |s.threads[t].held| < |s.threads[t].keys|
    ensures Inv(LookUpStep(s, t))
  {
    hide Holds, Exact, Consistent;
    var th := s.threads[t];
    var key := th.keys[|th.held|];
    assert Current(th, s.slots, s.objects);
    if key == "" || key !in s.slots || s.slots[key] !in s.objects {
      MoveKeepsInv(s, t, Dropping(th.keys, th.held, None));
    } else {
      MoveKeepsInv(s, t, LoadedMax(th.keys, th.held, s.slots[key], Limit(s.objects[s.slots[key]].max)));
    }
  }

  lemma LoadInflightKeepsInv<R>(s: State<R>, t: nat)
    requires Inv(s) && t < |s.threads| && s.threads[t].LoadedMax?
    ensures Inv(LoadInflightStep(s, t))
  {
    hide Holds, Exact, Consistent;
    var th := s.threads[t];
    assert Current(th, s.slots, s.objects);
    if th.slot !in s.objects || s.objects[th.slot].inflight >= th.limit {
      MoveKeepsInv(s, t, Dropping(th.keys, th.held, None));
    } else {
      MoveKeepsInv(s, t, LoadedInflight(th.keys, th.held, th.slot, th.limit, s.objects[th.slot].inflight));
    }
  }

  lemma SwapKeepsInv<R>(s: State<R>, t: nat)
    requires Inv(s) && t < |s.threads| && s.threads[t].LoadedInflight?
    ensures Inv(SwapStep(s, t))
  {
    hide Holds, Exact;
    var th := s.threads[t];
    assert Current(th, s.slots, s.objects);
    if s.objects[th.slot].inflight == th.seen {
      var held := th.held + [th.slot];
      RaiseKeepsInv(s, t, if |held| == |th.keys| then Leased(th.keys, held) else LookingUp(th.keys, held), th.slot);
    } else {
      MoveKeepsInv(s, t, LoadedMax(th.keys, th.held, th.slot, Limit(s.objects[th.slot].max)));
    }
  }

  /** A slot a request holds has a positive count: releasing it never meets the zero floor. */
  lemma HeldIsPositive<R>(s: State<R>, t: nat, i: nat)
    requires Inv(s) && t < |s.threads| && i < |HeldBy(s.threads[t])|
    ensures HeldBy(s.threads[t])[i] in s.objects && s.objects[HeldBy(s.threads[t])[i]].inflight > 0
  {
    hide Holds, Consistent, AllCurrent;
    var r := HeldBy(s.threads[t])[i];
    HoldsOne(s.threads, t, r);
    assert multiset(HeldBy(s.threads[t]))[r] > 0;
  }

  lemma LoadForDropKeepsInv<R>(s: State<R>, t: nat)
    requires Inv(s) && t < |s.threads| && s.threads[t].Dropping? && s.threads[t].held != []
    ensures Inv(LoadForDropStep(s, t))
    ensures LoadForDropStep(s, t).threads[t].held == s.threads[t].held
  {
    hide Holds, Exact, Consistent;
    var th := s.threads[t];
    var n := |th.held| - 1;
    HeldIsPositive(s, t, n);
    assert Current(th, s.slots, s.objects);
    MoveKeepsInv(s, t, Dropping(th.keys, th.held, Some(s.objects[th.held[n]].inflight)));
  }

  lemma DropSwapKeepsInv<R>(s: State<R>, t: nat)
    requires Inv(s) && t < |s.threads| && s.threads[t].Dropping? && s.threads[t].held != [] && s.threads[t].loaded.Some?
    ensures Inv(DropSwapStep(s, t))
  {
    hide Holds, Exact, Consistent;
    var th := s.threads[t];
    var n := |th.held| - 1;
    var r := th.held[n];
    assert Current(th, s.slots, s.objects);
    if s.objects[r].inflight == th.loaded.value {
      assert th.held == th.held[..n] + [r];
      LowerKeepsInv(s, t, Dropping(th.keys, th.held[..n], None), r);
    } else {
      MoveKeepsInv(s, t, Dropping(th.keys, th.held, None));
    }
  }

  lemma SpawnKeepsInv<R>(s: State<R>)
    requires Inv(s)
    ensures Inv(Next(s, Spawn))
  {
    hide Exact, Consistent;
    var threads := s.threads + [Idle];
    assert threads[..|threads| - 1] == s.threads;
    assert Holds(threads) == Holds(s.threads);
  }

  // ---- Rebuilding keeps the invariant ---------------------------------------------------------

  /** What placing the wanted keys leaves: no count or key of an old object changed, new objects idle,
      every key mapped to an object made for it, and a key mapped before still at the same object. */
  ghost predicate Placed<R>(previous: map<string, R>, objects: map<R, Slot>, t: SlotTable<R>) {
    && (forall r :: r in objects ==>
          r in t.objects && t.objects[r].key == objects[r].key && t.objects[r].inflight == objects[r].inflight)
    && (forall r :: r in t.objects && r !in objects ==> t.objects[r].inflight == 0)
    && Consistent(t.slots, t.objects)
    && (forall k :: k in t.slots && k in previous ==> t.slots[k] == previous[k])
  }

  lemma PlaceWantedKeepsPlaced<R>(previous: map<string, R>, objects: map<R, Slot>, t: SlotTable<R>, w: Wanted, spare: R)
    requires Consistent(previous, objects) && Placed(previous, objects, t) && spare !in t.objects
    ensures Placed(previous, objects, PlaceWanted(previous, t, w, spare))
  {
  }

  lemma EmptyPlaced<R>(previous: map<string, R>, objects: map<R, Slot>)
    ensures Placed(previous, objects, SlotTable(map[], objects))
  {
  }

  lemma {:induction false} PlaceAllPlaced<R>(previous: map<string, R>, objects: map<R, Slot>,
        wanted: seq<Wanted>, spare: seq<R>)
    requires Consistent(previous, objects) && |spare| == |wanted| && FreshFor(spare, objects)
    ensures var t := PlaceAll(previous, objects, wanted, spare);
      Placed(previous, objects, t) && forall r :: r in t.objects ==> r in objects || r in spare
    decreases |wanted|
  {
    hide Placed;
    if wanted == [] {
      EmptyPlaced(previous, objects);
    } else {
      var n := |wanted| - 1;
      PlaceAllPlaced(previous, objects, wanted[..n], spare[..n]);
      assert spare[n] !in spare[..n];
      PlaceWantedKeepsPlaced(previous, objects, PlaceAll(previous, objects, wanted[..n], spare[..n]), wanted[n], spare[n]);
    }
  }

  lemma KeepBusyPlaced<R>(previous: map<string, R>, objects: map<R, Slot>, t: SlotTable<R>)
    requires Consistent(previous, objects) && Placed(previous, objects, t)
    ensures Placed(previous, objects, KeepBusy(previous, t))
    ensures forall k :: k in previous && objects[previous[k]].inflight > 0 ==> k in KeepBusy(previous, t).slots
  {
  }

  lemma RebuiltPlaced<R>(previous: map<string, R>, objects: map<R, Slot>, wanted: seq<Wanted>, spare: seq<R>)
    requires Consistent(previous, objects) && |spare| == |wanted| && FreshFor(spare, objects)
    ensures Placed(previous, objects, Rebuilt(previous, objects, wanted, spare))
    ensures forall k ::
      k in previous && objects[previous[k]].inflight > 0 ==> k in Rebuilt(previous, objects, wanted, spare).slots
  {
    hide Placed, PlaceAll, KeepBusy;
    PlaceAllPlaced(previous, objects, wanted, spare);
    KeepBusyPlaced(previous, objects, PlaceAll(previous, objects, wanted, spare));
  }

  lemma RebuildKeepsExact<R>(previous: map<string, R>, objects: map<R, Slot>, t: SlotTable<R>, holds: multiset<R>)
    requires Consistent(previous, objects) && Exact(previous, objects, holds) && Placed(previous, objects, t)
    requires forall k :: k in previous && objects[previous[k]].inflight > 0 ==> k in t.slots
    ensures Exact(t.slots, t.objects, holds)
  {
    forall r | r in holds ensures r in t.objects && t.objects[r].key in t.slots && t.slots[t.objects[r].key] == r {
      assert objects[r].inflight > 0 && previous[objects[r].key] == r;
    }
    forall r | r in t.objects ensures t.objects[r].inflight == holds[r] {
      assert r in holds ==> r in objects;
    }
  }

  lemma RebuildKeepsThread<R>(th: Thread<R>, previous: map<string, R>, objects: map<R, Slot>, t: SlotTable<R>)
    requires !InsideLock(th) && Current(th, previous, objects) && Placed(previous, objects, t)
    ensures Current(th, t.slots, t.objects)
  {
  }

  lemma RebuildKeepsInv<R>(s: State<R>, wanted: seq<Wanted>, spare: seq<R>)
    requires Inv(s)
    ensures Inv(Next(s, Rebuild(wanted, spare)))
  {
    hide Placed, Rebuilt, Consistent, Exact, Current, Holds;
    if |spare| == |wanted| && FreshFor(spare, s.objects) && forall t :: 0 <= t < |s.threads| ==> !InsideLock(s.threads[t]) {
      var table := Rebuilt(s.slots, s.objects, wanted, spare);
      RebuiltPlaced(s.slots, s.objects, wanted, spare);
      RebuildKeepsExact(s.slots, s.objects, table, Holds(s.threads));
      PlacedIsConsistent(s.slots, s.objects, table);
      forall t | 0 <= t < |s.threads| ensures Current(s.threads[t], table.slots, table.objects) {
        RebuildKeepsThread(s.threads[t], s.slots, s.objects, table);
      }
    }
  }

  lemma PlacedIsConsistent<R>(previous: map<string, R>, objects: map<R, Slot>, t: SlotTable<R>)
    requires Placed(previous, objects, t)
    ensures Consistent(t.slots, t.objects)
  {
  }

  // ---- Main results ---------------------------------------------------------------------------

  lemma ThreadStepKeepsInv<R>(s: State<R>, step: Step<R>)
    requires Inv(s) && !step.Rebuild? && !step.Spawn?
    ensures Inv(Next(s, step))
  {
    hide Inv, Holds, LookUpStep, LoadInflightStep, SwapStep, LoadForDropStep, DropSwapStep, InsideLock, FreshFor, Rebuilt;
    match step
    case Begin(t, ck, wk) =>
      if t < |s.threads| && s.threads[t].Idle? {
        MoveKeepsInv(s, t, LookingUp([ck, wk], []));
      }
    case LookUp(t) =>
      if t < |s.threads| && s.threads[t].LookingUp? && |s.threads[t].held| < |s.threads[t].keys| {
        LookUpKeepsInv(s, t);
      }
    case LoadInflight(t) =>
      if t < |s.threads| && s.threads[t].LoadedMax? {
        LoadInflightKeepsInv(s, t);
      }
    case CompareAndSwap(t) =>
      if t < |s.threads| && s.threads[t].LoadedInflight? {
        SwapKeepsInv(s, t);
      }
    case Release(t) =>
      if t < |s.threads| && s.threads[t].Leased? {
        InvGivesCurrent(s, t);
        MoveKeepsInv(s, t, Dropping(s.threads[t].keys, s.threads[t].held, None));
      }
    case LoadForDrop(t) =>
      if t < |s.threads| && s.threads[t].Dropping? && s.threads[t].held != [] && s.threads[t].loaded.None? {
        LoadForDropKeepsInv(s, t);
      }
    case DropCompareAndSwap(t) =>
      if t < |s.threads| && s.threads[t].Dropping? && s.threads[t].held != [] && s.threads[t].loaded.Some? {
        DropSwapKeepsInv(s, t);
      }
    case FinishDrop(t) =>
      if t < |s.threads| && s.threads[t].Dropping? && s.threads[t].held == [] {
        MoveKeepsInv(s, t, Idle);
      }
  }

  lemma InvGivesCurrent<R>(s: State<R>, t: nat)
    requires Inv(s) && t < |s.threads|
    ensures Current(s.threads[t], s.slots, s.objects)
  {
  }

  /** No step of any request and no configuration change breaks the accounting. */
  lemma EveryStepKeepsInv<R>(s: State<R>, step: Step<R>)
    requires Inv(s)
    ensures Inv(Next(s, step))
  {
    hide Inv, Next;
    match step
    case Spawn => SpawnKeepsInv(s);
    case Rebuild(wanted, spare) => RebuildKeepsInv(s, wanted, spare);
    case _ => ThreadStepKeepsInv(s, step);
  }

  lemma {:induction false} EveryRunKeepsInv<R>(s: State<R>, steps: seq<Step<R>>)
    requires Inv(s)
    ensures Inv(Run(s, steps))
    decreases |steps|
  {
    hide Inv, Next;
    if steps != [] {
      EveryStepKeepsInv(s, steps[0]);
      EveryRunKeepsInv(Next(s, steps[0]), steps[1..]);
    }
  }

  /** Over every interleaving from an empty server, counts are exact: each object's count is the number of
      outstanding holds on it, and each held object is the one mapped at its key. */
  lemma AccountingIsExact<R>(steps: seq<Step<R>>)
    ensures var s := Run(State(map[], map[], []), steps);
      Exact(s.slots, s.objects, Holds(s.threads)) && Inv(s)
  {
    hide Run;
    EveryRunKeepsInv<R>(State(map[], map[], []), steps);
  }

  /** Once no request runs or holds a lease, every count is back at zero. */
  lemma QuietCountsAreZero<R>(s: State<R>)
    requires Inv(s) && forall t :: 0 <= t < |s.threads| ==> s.threads[t].Idle?
    ensures forall r :: r in s.objects ==> s.objects[r].inflight == 0
  {
    hide Holds;
    NoHolds(s.threads);
  }

  /** A request has a lease on both of its slots or on none: the lease holds the objects now mapped at the
      credential key and at the workspace key, whatever was reconfigured since. */
  lemma LeaseIsAllOrNothing<R>(s: State<R>, t: nat)
    requires Inv(s) && t < |s.threads| && !InsideLock(s.threads[t])
    ensures s.threads[t].Leased? ==>
      var (keys, held) := (s.threads[t].keys, s.threads[t].held);
      |keys| == 2 && keys[0] in s.slots && keys[1] in s.slots && held == [s.slots[keys[0]], s.slots[keys[1]]]
    ensures s.threads[t].Idle? ==>
      Holds(s.threads[..t] + s.threads[t + 1..]) == Holds(s.threads)
  {
    hide Holds;
    if s.threads[t].Leased? {
      var held := s.threads[t].held;
      HeldIsMapped(s, t, 0);
      HeldIsMapped(s, t, 1);
      assert held == [held[0], held[1]];
    } else {
      HoldsWithoutIdle(s.threads, t);
    }
  }

  lemma HeldIsMapped<R>(s: State<R>, t: nat, i: nat)
    requires Inv(s) && t < |s.threads| && i < |HeldBy(s.threads[t])|
    ensures HoldsItsKeys(KeysOf(s.threads[t]), HeldBy(s.threads[t]), s.objects)
    ensures KeysOf(s.threads[t])[i] in s.slots && s.slots[KeysOf(s.threads[t])[i]] == HeldBy(s.threads[t])[i]
  {
    hide Holds, Stage, Consistent;
    var r := HeldBy(s.threads[t])[i];
    InvGivesCurrent(s, t);
    HoldsOne(s.threads, t, r);
    assert multiset(HeldBy(s.threads[t]))[r] > 0;
  }

  lemma HoldsSnoc<R>(threads: seq<Thread<R>>, th: Thread<R>)
    ensures Holds(threads + [th]) == Holds(threads) + multiset(HeldBy(th))
  {
    assert (threads + [th])[..|threads|] == threads;
  }

  lemma {:induction false} HoldsWithoutIdle<R>(threads: seq<Thread<R>>, t: nat)
    requires t < |threads| && threads[t].Idle?
    ensures Holds(threads[..t] + threads[t + 1..]) == Holds(threads)
    decreases |threads|
  {
    hide Holds;
    var init, last := threads[..|threads| - 1], threads[|threads| - 1];
    assert threads == init + [last];
    HoldsSnoc(init, last);
    if t == |init| {
      assert threads[..t] + threads[t + 1..] == init;
    } else {
      HoldsWithoutIdle(init, t);
      assert threads[..t] + threads[t + 1..] == init[..t] + init[t + 1..] + [last];
      HoldsSnoc(init[..t] + init[t + 1..], last);
    }
  }

  /** A hold is added only while the holds on that slot are below its limit of that moment, and they
      are then all the holds on the slot's key: no other object ever made for the key is held. */
  lemma RaisedOnlyBelowLimit<R>(s: State<R>, t: nat, r: R)
    requires Inv(s) && r in s.objects
    requires Next(s, CompareAndSwap(t)).objects[r].inflight != s.objects[r].inflight
    ensures Holds(s.threads)[r] < Limit(s.objects[r].max)
    ensures Next(s, CompareAndSwap(t)).objects[r].inflight == s.objects[r].inflight + 1
    ensures forall q :: q in Holds(s.threads) && s.objects[q].key == s.objects[r].key ==> q == r
  {
    hide Holds;
    InvGivesCurrent(s, t);
  }

  /** Releasing never meets the zero floor: each held slot's count really goes down by one. */
  lemma ReleaseLowersTheHeldSlot<R>(s: State<R>, t: nat)
    requires Inv(s) && t < |s.threads| && s.threads[t].Dropping? && s.threads[t].held != []
    ensures var s' := Next(s, LoadForDrop(t));
      var th := s'.threads[t];
      th.Dropping? && th.held == s.threads[t].held && th.loaded.Some?
    ensures var s' := Next(Next(s, LoadForDrop(t)), DropCompareAndSwap(t));
      var r := s.threads[t].held[|s.threads[t].held| - 1];
      s.threads[t].loaded.None? ==>
        && s'.threads[t].held == s.threads[t].held[..|s.threads[t].held| - 1]
        && s'.objects[r].inflight == s.objects[r].inflight - 1 && s'.objects[r].inflight >= 0
  {
    hide Holds, Exact, Consistent;
    HeldIsPositive(s, t, |s.threads[t].held| - 1);
  }

  /** The most a slot may count until its limit changes: the limit, or what it already counts beyond it. */
  function DrainsFrom(slot: Slot): int {
    if slot.inflight > Limit(slot.max) then slot.inflight else Limit(slot.max)
  }

  /** Between configuration changes no count passes its limit, and one that is over a lowered limit only drains. */
  lemma StepOnlyDrains<R>(s: State<R>, step: Step<R>, r: R)
    requires Inv(s) && !step.Rebuild? && r in s.objects
    ensures var s' := Next(s, step);
      && r in s'.objects && s'.objects[r].max == s.objects[r].max
      && s'.objects[r].inflight <= DrainsFrom(s.objects[r])
  {
    hide Holds, Exact, Consistent;
    match step
    case CompareAndSwap(t) =>
      if t < |s.threads| {
        InvGivesCurrent(s, t);
      }
    case _ =>
  }

  lemma {:induction false} LoweredLimitOnlyDrains<R>(s: State<R>, steps: seq<Step<R>>, r: R)
    requires Inv(s) && (forall step :: step in steps ==> !step.Rebuild?) && r in s.objects
    ensures var s' := Run(s, steps);
      && r in s'.objects && s'.objects[r].max == s.objects[r].max
      && s'.objects[r].inflight <= DrainsFrom(s.objects[r])
    decreases |steps|
  {
    hide Inv, Next, Limit;
    if steps != [] {
      assert steps[0] in steps;
      StepOnlyDrains(s, steps[0], r);
      EveryStepKeepsInv(s, steps[0]);
      LoweredLimitOnlyDrains(Next(s, steps[0]), steps[1..], r);
    }
  }

  /** A key that vanishes and comes back, with any other changes in between, resumes its real count: as
      long as the object is held it is the one mapped there, and the new limit is the configured one. */
  lemma RebuildResumesCount<R>(s: State<R>, wanted: seq<Wanted>, spare: seq<R>, r: R)
    requires Inv(s) && r in Holds(s.threads)
    ensures var s' := Next(s, Rebuild(wanted, spare));
      && s'.threads == s.threads
      && r in s'.objects && s'.objects[r].key == s.objects[r].key && s'.objects[r].inflight == Holds(s.threads)[r]
      && s'.objects[r].key in s'.slots && s'.slots[s'.objects[r].key] == r
  {
    hide Rebuilt, Holds, Current;
    RebuildKeepsInv(s, wanted, spare);
    if |spare| == |wanted| && FreshFor(spare, s.objects) && forall t :: 0 <= t < |s.threads| ==> !InsideLock(s.threads[t]) {
      RebuiltPlaced(s.slots, s.objects, wanted, spare);
    }
  }

  /** The limit the configuration asks for a key: that of its last mention. */
  function Asked(wanted: seq<Wanted>, k: string): Option<int> {
    if wanted == [] then None
    else
      var w := wanted[|wanted| - 1];
      if w.key == k then Some(w.max) else Asked(wanted[..|wanted| - 1], k)
  }

  /** Every key asked for is mapped with the limit it was last asked for with; a key nobody asks for
      stays mapped exactly when its slot is busy. */
  lemma {:induction false} PlaceAllAnswers<R>(previous: map<string, R>, objects: map<R, Slot>,
        wanted: seq<Wanted>, spare: seq<R>, k: string)
    requires Consistent(previous, objects) && |spare| == |wanted| && FreshFor(spare, objects)
    ensures var t := PlaceAll(previous, objects, wanted, spare);
      && (k in t.slots <==> Asked(wanted, k).Some?)
      && (k in t.slots ==> t.slots[k] in t.objects && t.objects[t.slots[k]].max == Asked(wanted, k).value)
    decreases |wanted|
  {
    hide Placed, PlaceWanted;
    if wanted != [] {
      var n := |wanted| - 1;
      var before := PlaceAll(previous, objects, wanted[..n], spare[..n]);
      PlaceAllAnswers(previous, objects, wanted[..n], spare[..n], k);
      PlaceAllPlaced(previous, objects, wanted[..n], spare[..n]);
      PlacedIsConsistent(previous, objects, before);
      assert spare[n] !in spare[..n];
      assert PlaceAll(previous, objects, wanted, spare) == PlaceWanted(previous, before, wanted[n], spare[n]);
      PlaceWantedAnswers(previous, objects, before, wanted[n], spare[n], k);
    }
  }

  lemma PlaceWantedAnswers<R>(previous: map<string, R>, objects: map<R, Slot>, t: SlotTable<R>, w: Wanted,
        spare: R, k: string)
    requires Consistent(previous, objects) && Placed(previous, objects, t) && spare !in t.objects
    ensures var t' := PlaceWanted(previous, t, w, spare);
      && (k in t'.slots <==> k == w.key || k in t.slots)
      && (k == w.key ==> t'.slots[k] in t'.objects && t'.objects[t'.slots[k]].max == w.max)
      && (k != w.key && k in t.slots ==>
            t'.slots[k] == t.slots[k] && t.slots[k] in t'.objects && t'.objects[t.slots[k]].max == t.objects[t.slots[k]].max)
  {
  }

  lemma RebuiltAnswers<R>(previous: map<string, R>, objects: map<R, Slot>, wanted: seq<Wanted>, spare: seq<R>, k: string)
    requires Consistent(previous, objects) && |spare| == |wanted| && FreshFor(spare, objects)
    ensures var t := Rebuilt(previous, objects, wanted, spare);
      && (k in t.slots <==>
            Asked(wanted, k).Some? || (k in previous && objects[previous[k]].inflight > 0))
      && (Asked(wanted, k).Some? ==>
            t.slots[k] in t.objects && t.objects[t.slots[k]].max == Asked(wanted, k).value)
  {
    hide PlaceAll;
    PlaceAllAnswers(previous, objects, wanted, spare, k);
    PlaceAllPlaced(previous, objects, wanted, spare);
  }
}
