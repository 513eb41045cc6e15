/** The slot objects, leases and the slot map of the server, as the methods that one request or one
    configuration change runs (internal/app/main.go:193-371). DispatchProtocol interleaves them. */
module DispatchSlots {
  import opened Wrappers
  import opened Text
  import opened DispatchProtocol

  /** Conversion of a Go int to int32, which wraps. */
  function Int32(x: int): int {
    (x + 0x8000_0000) % 0x1_0000_0000 - 0x8000_0000
  }

  function NormalizeMaxConcurrency(raw: int): int {
    if raw <= 0 then 1 else raw
  }

  /** What a slot configured with raw enforces: raw itself if it is positive and fits an int32, one if it is
      not positive, and otherwise some smaller limit of at least one. */
  predicate TakesEffect(limit: int, raw: int) {
    && (0 < raw < 0x8000_0000 ==> limit == raw)
    && (raw <= 0 ==> limit == 1)
    && (raw >= 0x8000_0000 ==> 1 <= limit < raw)
  }

  lemma ConfiguredLimitTakesEffect(raw: int)
    ensures TakesEffect(Limit(Int32(NormalizeMaxConcurrency(raw))), raw)
  {
    if 0 < raw < 0x8000_0000 {
      assert (raw + 0x8000_0000) % 0x1_0000_0000 == raw + 0x8000_0000;
    } else if raw > 0 {
      assert (raw + 0x8000_0000) % 0x1_0000_0000 <= raw;
    }
  }

  /** A count after n releases, none of which takes it below zero. */
  function Lowered(count: int, n: nat): int {
    if count <= n then (if count < 0 then count else 0) else count - n
  }

  class AccountSlot {
    ghost const key: string
    var inflight: int
    var max: int

    constructor (ghost key: string)
      ensures this.key == key && inflight == 0 && max == 0
    {
      this.key := key;
      inflight, max := 0, 0;
    }

    method CompareAndSwap(seen: int, next: int) returns (swapped: bool)
      modifies this`inflight
      ensures swapped == (old(inflight) == seen)
      ensures inflight == if swapped then next else old(inflight)
    {
      swapped := inflight == seen;
      if swapped {
        inflight := next;
      }
    }

    method TryAcquire() returns (ok: bool)
      modifies this`inflight
      ensures ok == (old(inflight) < Limit(max))
      ensures inflight == if ok then old(inflight) + 1 else old(inflight)
    {
      ok := false;
      while !ok
        invariant inflight == if ok then old(inflight) + 1 else old(inflight)
        invariant ok ==> old(inflight) < Limit(max)
        decreases !ok
      {
        var limit := max;
        if limit <= 0 {
          limit := 1;
        }
        var seen := inflight;
        if seen >= limit {
          return false;
        }
        ok := CompareAndSwap(seen, seen + 1);
      }
    }

    method Release() returns (ok: bool)
      modifies this`inflight
      ensures ok == (old(inflight) > 0)
      ensures inflight == Lowered(old(inflight), 1)
    {
      ok := false;
      while !ok
        invariant inflight == if ok then old(inflight) - 1 else old(inflight)
        invariant ok ==> old(inflight) > 0
        decreases !ok
      {
        var seen := inflight;
        if seen <= 0 {
          return false;
        }
        ok := CompareAndSwap(seen, seen - 1);
      }
    }
  }

  /** Lowers the counts of the slots, last taken first. */
  method ReleaseAll(slots: seq<AccountSlot>)
    modifies slots`inflight
    ensures forall r :: r in slots ==> r.inflight == Lowered(old(r.inflight), multiset(slots)[r])
  {
    var i := |slots|;
    assert slots[i..] == [];
    while i > 0
      invariant 0 <= i <= |slots|
      invariant forall r :: r in slots ==> r.inflight == Lowered(old(r.inflight), multiset(slots[i..])[r])
    {
      i := i - 1;
      assert slots[i..] == [slots[i]] + slots[i + 1..];
      var _ := slots[i].Release();
    }
    assert slots[0..] == slots;
  }

  class DispatchSlotLease {
    const keys: seq<string>
    const slots: seq<AccountSlot>
    var done: bool

    constructor (keys: seq<string>, slots: seq<AccountSlot>)
      ensures this.keys == keys && this.slots == slots && !done
    {
      this.keys, this.slots, done := keys, slots, false;
    }

    /** The first call lowers each slot once per hold; any later call changes nothing. */
    method Release()
      modifies this`done, slots`inflight
      ensures done
      ensures forall r :: r in slots ==>
        r.inflight == if old(done) then old(r.inflight) else Lowered(old(r.inflight), multiset(slots)[r])
    {
      if !done {
        done := true;
        ReleaseAll(slots);
      }
    }
  }

  datatype Workspace = Workspace(key: string, maxConcurrency: int)

  datatype Account = Account(credentialKey: string, workspaces: seq<Workspace>)

  /** What one workspace asks for: nothing when its key is blank. */
  function WorkspaceWanted(w: Workspace): seq<Wanted> {
    if w.key == "" then [] else [Wanted(w.key, Int32(NormalizeMaxConcurrency(w.maxConcurrency)))]
  }

  function WantedWorkspaces(workspaces: seq<Workspace>): seq<Wanted> {
    if workspaces == [] then []
    else WantedWorkspaces(workspaces[..|workspaces| - 1]) + WorkspaceWanted(workspaces[|workspaces| - 1])
  }

  function CredentialWanted(account: Account, accountMax: int): Wanted {
    Wanted(account.credentialKey, Int32(NormalizeMaxConcurrency(accountMax)))
  }

  /** The wanted slots of one account. */
  function AccountWanted(account: Account, accountMax: int): seq<Wanted> {
    [CredentialWanted(account, accountMax)] + WantedWorkspaces(account.workspaces)
  }

  /** Everything the configuration asks a slot for, in the order it is asked. */
  function WantedSlots(accounts: seq<Account>, accountMax: int): seq<Wanted> {
    if accounts == [] then []
    else
      var a := accounts[|accounts| - 1];
      WantedSlots(accounts[..|accounts| - 1], accountMax) + AccountWanted(a, accountMax)
  }

  lemma AskedSnoc(wanted: seq<Wanted>, w: Wanted)
    ensures forall k :: Asked(wanted + [w], k) == if w.key == k then Some(w.max) else Asked(wanted, k)
  {
    assert (wanted + [w])[..|wanted|] == wanted;
  }

  lemma {:induction false} AskedAppend(a: seq<Wanted>, b: seq<Wanted>, k: string)
    ensures Asked(a + b, k) == if Asked(b, k).Some? then Asked(b, k) else Asked(a, k)
    decreases |b|
  {
    if b == [] {
      assert a + b == a;
    } else {
      var n := |b| - 1;
      AskedAppend(a, b[..n], k);
      assert (a + b)[..|a + b| - 1] == a + b[..n];
    }
  }

  // ---- What the configuration asks for --------------------------------------------------------

  /** The configuration names the key: as the credential of an account or as a workspace of one. */
  predicate Mentions(account: Account, key: string) {
    account.credentialKey == key || MentionsWorkspace(account.workspaces, key)
  }

  predicate MentionsWorkspace(workspaces: seq<Workspace>, key: string) {
    key != "" && exists w :: w in workspaces && w.key == key
  }

  lemma {:induction false} WorkspacesAskedFor(workspaces: seq<Workspace>, key: string)
    ensures Asked(WantedWorkspaces(workspaces), key).Some? <==> MentionsWorkspace(workspaces, key)
    decreases |workspaces|
  {
    hide Asked, WorkspaceWanted, MentionsWorkspace;
    if workspaces == [] {
      NothingAsked(key);
    } else {
      var init, last := workspaces[..|workspaces| - 1], workspaces[|workspaces| - 1];
      assert workspaces == init + [last];
      WorkspacesAskedFor(init, key);
      AskedAppend(WantedWorkspaces(init), WorkspaceWanted(last), key);
      OneWorkspaceAsked(last, key);
      OneMoreMentioned(init, last, key);
    }
  }

  lemma NothingAsked(key: string)
    ensures Asked([], key).None? && !MentionsWorkspace([], key)
  {
  }

  lemma OneWorkspaceAsked(w: Workspace, key: string)
    ensures Asked(WorkspaceWanted(w), key).Some? <==> key != "" && w.key == key
  {
    hide Int32, NormalizeMaxConcurrency;
  }

  lemma OneMoreMentioned(init: seq<Workspace>, last: Workspace, key: string)
    ensures MentionsWorkspace(init + [last], key) <==> MentionsWorkspace(init, key) || (key != "" && last.key == key)
  {
    assert last in init + [last];
  }

  lemma AccountAsksFor(account: Account, accountMax: int, key: string)
    ensures Asked(AccountWanted(account, accountMax), key).Some? <==> Mentions(account, key)
  {
    WorkspacesAskedFor(account.workspaces, key);
    AskedAppend([CredentialWanted(account, accountMax)], WantedWorkspaces(account.workspaces), key);
  }

  /** Exactly the credentials and the workspaces with a key are asked for. */
  lemma {:induction false} KeysAskedFor(accounts: seq<Account>, accountMax: int, key: string)
    ensures Asked(WantedSlots(accounts, accountMax), key).Some? <==> exists a :: a in accounts && Mentions(a, key)
    decreases |accounts|
  {
    hide AccountWanted, Mentions;
    if accounts != [] {
      var init, last := accounts[..|accounts| - 1], accounts[|accounts| - 1];
      KeysAskedFor(init, accountMax, key);
      AccountAsksFor(last, accountMax, key);
      AskedAppend(WantedSlots(init, accountMax), AccountWanted(last, accountMax), key);
      assert accounts == init + [last];
    }
  }

  lemma {:induction false} LastWorkspaceAsked(workspaces: seq<Workspace>, j: nat)
    requires j < |workspaces| && workspaces[j].key != "" && !MentionsWorkspace(workspaces[j + 1..], workspaces[j].key)
    ensures var asked := Asked(WantedWorkspaces(workspaces), workspaces[j].key);
      asked.Some? && TakesEffect(Limit(asked.value), workspaces[j].maxConcurrency)
    decreases |workspaces|
  {
    hide Int32, NormalizeMaxConcurrency, Limit, TakesEffect;
    ConfiguredLimitTakesEffect(workspaces[j].maxConcurrency);
    var init, last := workspaces[..|workspaces| - 1], workspaces[|workspaces| - 1];
    AskedAppend(WantedWorkspaces(init), WorkspaceWanted(last), workspaces[j].key);
    if j < |init| {
      assert workspaces[j + 1..] == init[j + 1..] + [last];
      assert last in workspaces[j + 1..];
      LastWorkspaceAsked(init, j);
    }
  }

  lemma {:induction false} LastAccountAsked(accounts: seq<Account>, accountMax: int, i: nat, key: string)
    requires i < |accounts| && Mentions(accounts[i], key)
    requires forall a :: a in accounts[i + 1..] ==> !Mentions(a, key)
    ensures Asked(WantedSlots(accounts, accountMax), key) == Asked(AccountWanted(accounts[i], accountMax), key)
    decreases |accounts|
  {
    hide AccountWanted, Mentions;
    var init, last := accounts[..|accounts| - 1], accounts[|accounts| - 1];
    AskedAppend(WantedSlots(init, accountMax), AccountWanted(last, accountMax), key);
    AccountAsksFor(last, accountMax, key);
    if i < |init| {
      assert accounts[i + 1..] == init[i + 1..] + [last];
      LastAccountAsked(init, accountMax, i, key);
    }
  }

  /** The last mention of the credential of account i is that one. */
  predicate LastCredential(accounts: seq<Account>, i: nat)
    requires i < |accounts|
  {
    var key := accounts[i].credentialKey;
    && !MentionsWorkspace(accounts[i].workspaces, key)
    && forall a :: a in accounts[i + 1..] ==> !Mentions(a, key)
  }

  /** The last mention of the key of workspace j of account i is that one. */
  predicate LastWorkspace(accounts: seq<Account>, i: nat, j: nat)
    requires i < |accounts| && j < |accounts[i].workspaces|
  {
    var key := accounts[i].workspaces[j].key;
    && key != "" && !MentionsWorkspace(accounts[i].workspaces[j + 1..], key)
    && forall a :: a in accounts[i + 1..] ==> !Mentions(a, key)
  }

  lemma CredentialLimit(accounts: seq<Account>, accountMax: int, i: nat)
    requires i < |accounts| && LastCredential(accounts, i)
    ensures var asked := Asked(WantedSlots(accounts, accountMax), accounts[i].credentialKey);
      asked.Some? && TakesEffect(Limit(asked.value), accountMax)
  {
    hide Int32, NormalizeMaxConcurrency, Limit, WantedSlots, TakesEffect;
    var a := accounts[i];
    ConfiguredLimitTakesEffect(accountMax);
    LastAccountAsked(accounts, accountMax, i, a.credentialKey);
    WorkspacesAskedFor(a.workspaces, a.credentialKey);
    AskedAppend([CredentialWanted(a, accountMax)], WantedWorkspaces(a.workspaces), a.credentialKey);
  }

  lemma WorkspaceLimit(accounts: seq<Account>, accountMax: int, i: nat, j: nat)
    requires i < |accounts| && j < |accounts[i].workspaces| && LastWorkspace(accounts, i, j)
    ensures var asked := Asked(WantedSlots(accounts, accountMax), accounts[i].workspaces[j].key);
      asked.Some? && TakesEffect(Limit(asked.value), accounts[i].workspaces[j].maxConcurrency)
  {
    hide Int32, NormalizeMaxConcurrency, Limit, WantedSlots, TakesEffect;
    var a := accounts[i];
    var w := a.workspaces[j];
    assert w in a.workspaces;
    LastAccountAsked(accounts, accountMax, i, w.key);
    LastWorkspaceAsked(a.workspaces, j);
    AskedAppend([CredentialWanted(a, accountMax)], WantedWorkspaces(a.workspaces), w.key);
  }

  class ServerState {
    var slots: map<string, AccountSlot>

    ghost predicate Valid()
      reads this, slots.Values
    {
      forall k :: k in slots ==> slots[k].key == k && slots[k].inflight >= 0
    }

    constructor ()
      ensures Valid() && slots == map[]
    {
      slots := map[];
    }

    /** Maps the key to its previous object or to a new idle one, with the limit asked for. */
    method Place(next: map<string, AccountSlot>, w: Wanted) returns (placed: map<string, AccountSlot>)
      requires Valid()
      modifies slots.Values`max
      ensures w.key in placed && placed == next[w.key := placed[w.key]]
      ensures w.key in slots ==> placed[w.key] == slots[w.key]
      ensures w.key !in slots ==> fresh(placed[w.key]) && placed[w.key].inflight == 0
      ensures placed[w.key].key == w.key && placed[w.key].max == w.max
      ensures forall k :: k in slots && k != w.key ==> slots[k].max == old(slots[k].max)
    {
      if w.key in slots {
        var existing := slots[w.key];
        existing.max := w.max;
        placed := next[w.key := existing];
      } else {
        var slot := new AccountSlot(w.key);
        slot.max := w.max;
        placed := next[w.key := slot];
      }
    }

    /** How far a rebuild is: exactly the keys asked for so far are mapped, each with its last limit, a key
        mapped before at its old object and any other at an idle one. */
    ghost predicate PlacedFor(next: map<string, AccountSlot>, asked: seq<Wanted>)
      reads this, next.Values
    {
      && (forall k :: k in next <==> Asked(asked, k).Some?)
      && (forall k :: k in next ==> next[k].key == k && next[k].max == Asked(asked, k).value)
      && (forall k :: k in next && k in slots ==> next[k] == slots[k])
      && (forall k :: k in next && k !in slots ==> next[k].inflight == 0)
    }

    /** One more key placed. */
    method PlaceNext(next: map<string, AccountSlot>, ghost asked: seq<Wanted>,
        w: Wanted) returns (placed: map<string, AccountSlot>)
      requires Valid() && PlacedFor(next, asked)
      modifies slots.Values`max
      ensures PlacedFor(placed, asked + [w])
      ensures forall k :: k in placed && k !in slots ==> fresh(placed[k]) || (k in next && placed[k] == next[k])
      ensures forall k :: k in slots && k != w.key ==> slots[k].max == old(slots[k].max)
    {
      AskedSnoc(asked, w);
      placed := Place(next, w);
    }

    method PlaceWorkspace(next: map<string, AccountSlot>, ghost asked: seq<Wanted>, w: Workspace)
      returns (placed: map<string, AccountSlot>)
      requires Valid() && PlacedFor(next, asked)
      modifies slots.Values`max
      ensures PlacedFor(placed, asked + WorkspaceWanted(w))
      ensures forall k :: k in placed && k !in slots ==> fresh(placed[k]) || (k in next && placed[k] == next[k])
      ensures forall k :: k in slots && Asked(WorkspaceWanted(w), k).None? ==> slots[k].max == old(slots[k].max)
    {
      if w.key == "" {
        assert asked + WorkspaceWanted(w) == asked;
        return next;
      }
      placed := PlaceNext(next, asked, Wanted(w.key, Int32(NormalizeMaxConcurrency(w.maxConcurrency))));
    }

    method PlaceWorkspaces(next: map<string, AccountSlot>, ghost asked: seq<Wanted>, workspaces: seq<Workspace>)
      returns (placed: map<string, AccountSlot>)
      requires Valid() && PlacedFor(next, asked)
      modifies slots.Values`max
      ensures PlacedFor(placed, asked + WantedWorkspaces(workspaces))
      ensures forall k :: k in placed && k !in slots ==> fresh(placed[k]) || (k in next && placed[k] == next[k])
      ensures forall k :: k in slots && Asked(WantedWorkspaces(workspaces), k).None? ==> slots[k].max == old(slots[k].max)
    {
      hide PlacedFor;
      placed := next;
      assert asked + WantedWorkspaces(workspaces[..0]) == asked;
      for i := 0 to |workspaces|
        invariant slots == old(slots)
        invariant PlacedFor(placed, asked + WantedWorkspaces(workspaces[..i]))
        invariant forall k :: k in placed && k !in slots ==> fresh(placed[k]) || (k in next && placed[k] == next[k])
        invariant forall k :: k in slots && Asked(WantedWorkspaces(workspaces[..i]), k).None? ==> slots[k].max == old(slots[k].max)
      {
        ghost var done := WantedWorkspaces(workspaces[..i]);
        placed := PlaceWorkspace(placed, asked + done, workspaces[i]);
        assert workspaces[..i + 1][..i] == workspaces[..i];
        assert asked + done + WorkspaceWanted(workspaces[i]) == asked + WantedWorkspaces(workspaces[..i + 1]);
        forall k {
          AskedAppend(done, WorkspaceWanted(workspaces[i]), k);
        }
      }
      assert workspaces[..|workspaces|] == workspaces;
    }

    /** The credential slot of an account, then those of its workspaces. */
    method PlaceAccount(next: map<string, AccountSlot>, ghost asked: seq<Wanted>, account: Account, accountMax: int)
      returns (placed: map<string, AccountSlot>)
      requires Valid() && PlacedFor(next, asked)
      modifies slots.Values`max
      ensures PlacedFor(placed, asked + AccountWanted(account, accountMax))
      ensures forall k :: k in placed && k !in slots ==> fresh(placed[k]) || (k in next && placed[k] == next[k])
      ensures forall k :: k in slots && Asked(AccountWanted(account, accountMax), k).None? ==> slots[k].max == old(slots[k].max)
    {
      hide PlacedFor;
      ghost var credential := CredentialWanted(account, accountMax);
      placed := PlaceNext(next, asked, CredentialWanted(account, accountMax));
      placed := PlaceWorkspaces(placed, asked + [credential], account.workspaces);
      assert asked + [credential] + WantedWorkspaces(account.workspaces) == asked + AccountWanted(account, accountMax);
      forall k {
        AskedAppend([credential], WantedWorkspaces(account.workspaces), k);
      }
    }

    method PlaceAccounts(accounts: seq<Account>, accountMax: int) returns (next: map<string, AccountSlot>)
      requires Valid()
      modifies slots.Values`max
      ensures PlacedFor(next, WantedSlots(accounts, accountMax))
      ensures forall k :: k in next && k !in slots ==> fresh(next[k])
      ensures forall k :: k in slots && Asked(WantedSlots(accounts, accountMax), k).None? ==> slots[k].max == old(slots[k].max)
    {
      next := map[];
      assert PlacedFor(next, WantedSlots(accounts[..0], accountMax));
      hide PlacedFor;
      for i := 0 to |accounts|
        invariant slots == old(slots)
        invariant PlacedFor(next, WantedSlots(accounts[..i], accountMax))
        invariant forall k :: k in next && k !in slots ==> fresh(next[k])
        invariant forall k :: k in slots && Asked(WantedSlots(accounts[..i], accountMax), k).None? ==>
          slots[k].max == old(slots[k].max)
      {
        ghost var asked := WantedSlots(accounts[..i], accountMax);
        next := PlaceAccount(next, asked, accounts[i], accountMax);
        assert accounts[..i + 1][..i] == accounts[..i];
        forall k {
          AskedAppend(asked, AccountWanted(accounts[i], accountMax), k);
        }
      }
      assert accounts[..|accounts|] == accounts;
    }

    /** Keys no longer asked for stay mapped while requests are in flight on them. */
    method KeepBusyLeftovers(next: map<string, AccountSlot>) returns (kept: map<string, AccountSlot>)
      ensures forall k :: k in kept <==> k in next || (k in slots && slots[k].inflight > 0)
      ensures forall k :: k in kept ==> kept[k] == if k in next then next[k] else slots[k]
    {
      kept := next;
      var rest := slots.Keys;
      while rest != {}
        invariant rest <= slots.Keys
        invariant forall k :: k in kept <==> k in next || (k in slots && k !in rest && slots[k].inflight > 0)
        invariant forall k :: k in kept ==> kept[k] == if k in next then next[k] else slots[k]
      {
        var key :| key in rest;
        rest := rest - {key};
        if key !in next && slots[key].inflight > 0 {
          kept := kept[key := slots[key]];
        }
      }
    }

    /** rebuildAccountSlotsLocked: the new map holds exactly the keys asked for and the old keys still busy.
        A key mapped before keeps its object and so its count; a new key starts idle; every key asked for
        has the limit of its last mention, and a busy leftover keeps its own. */
    method RebuildAccountSlots(accounts: seq<Account>, accountMax: int)
      requires Valid()
      modifies `slots, slots.Values`max
      ensures Valid()
      ensures forall k :: k in slots <==>
        Asked(WantedSlots(accounts, accountMax), k).Some? || (k in old(slots) && old(slots[k].inflight) > 0)
      ensures forall k :: k in slots && k in old(slots) ==> slots[k] == old(slots)[k]
      ensures forall k :: k in slots && k !in old(slots) ==> fresh(slots[k]) && slots[k].inflight == 0
      ensures forall k :: k in slots && Asked(WantedSlots(accounts, accountMax), k).Some? ==>
        slots[k].max == Asked(WantedSlots(accounts, accountMax), k).value
      ensures forall k :: k in old(slots) && Asked(WantedSlots(accounts, accountMax), k).None? ==>
        old(slots)[k].max == old(slots[k].max)
      ensures forall k :: k in slots <==>
        (exists a :: a in accounts && Mentions(a, k)) || (k in old(slots) && old(slots[k].inflight) > 0)
      ensures LimitsAsConfigured(accounts, accountMax)
    {
      var next := PlaceAccounts(accounts, accountMax);
      slots := KeepBusyLeftovers(next);
      hide WantedSlots, Asked, Mentions;
      forall k {
        KeysAskedFor(accounts, accountMax, k);
      }
      ShowLimits(accounts, accountMax);
    }

    /** Every key mentioned has the limit it is configured with where it is mentioned last: a credential the
        account limit, a workspace its own. */
    ghost predicate LimitsAsConfigured(accounts: seq<Account>, accountMax: int)
      reads this, slots.Values
    {
      && (forall i :: 0 <= i < |accounts| && LastCredential(accounts, i) ==>
            var key := accounts[i].credentialKey; key in slots && TakesEffect(Limit(slots[key].max), accountMax))
      && (forall i, j :: 0 <= i < |accounts| && 0 <= j < |accounts[i].workspaces| && LastWorkspace(accounts, i, j) ==>
            var w := accounts[i].workspaces[j]; w.key in slots && TakesEffect(Limit(slots[w.key].max), w.maxConcurrency))
    }

    lemma ShowLimits(accounts: seq<Account>, accountMax: int)
      requires forall k :: Asked(WantedSlots(accounts, accountMax), k).Some? ==>
        k in slots && slots[k].max == Asked(WantedSlots(accounts, accountMax), k).value
      ensures LimitsAsConfigured(accounts, accountMax)
    {
      hide WantedSlots, Asked, TakesEffect, LastCredential, LastWorkspace, Limit;
      forall i | 0 <= i < |accounts| && LastCredential(accounts, i)
        ensures accounts[i].credentialKey in slots && TakesEffect(Limit(slots[accounts[i].credentialKey].max), accountMax)
      {
        CredentialLimit(accounts, accountMax, i);
      }
      forall i, j | 0 <= i < |accounts| && 0 <= j < |accounts[i].workspaces| && LastWorkspace(accounts, i, j)
        ensures var w := accounts[i].workspaces[j]; w.key in slots && TakesEffect(Limit(slots[w.key].max), w.maxConcurrency)
      {
        WorkspaceLimit(accounts, accountMax, i, j);
      }
    }

    predicate Usable(key: string)
      reads this
    {
      key != "" && key in slots
    }

    /** One step of an acquisition: raises the slot of the key, if there is one and it is below its limit. */
    method Raise(key: string) returns (raised: bool)
      requires Valid()
      modifies slots.Values`inflight
      ensures raised <==> Usable(key) && old(slots[key].inflight) < Limit(slots[key].max)
      ensures forall k :: k in slots ==>
        slots[k].inflight == old(slots[k].inflight) + if raised && k == key then 1 else 0
    {
      raised := false;
      if key != "" && key in slots {
        raised := slots[key].TryAcquire();
      }
    }

    /** Undoes the one raise there may have been. */
    method RollBack(taken: seq<AccountSlot>, ghost key: string)
      requires Valid() && |taken| <= 1
      requires |taken| == 1 ==> key in slots && taken[0] == slots[key] && slots[key].inflight > 0
      modifies slots.Values`inflight
      ensures Valid()
      ensures forall k :: k in slots ==>
        slots[k].inflight == old(slots[k].inflight) - if |taken| == 1 && k == key then 1 else 0
    {
      assert |taken| == 1 ==> taken == [taken[0]];
      ReleaseAll(taken);
    }

    /** acquireWorkspaceDispatchSlot, once the account is found and admitted: raises the credential slot,
        then the workspace slot. It succeeds exactly when both are below their limits, and otherwise
        leaves every count as it was. */
    method AcquireDispatchSlots(credentialKey: string, workspaceKey: string) returns (lease: Option<DispatchSlotLease>)
      requires Valid()
      modifies slots.Values`inflight
      ensures Valid()
      ensures var ck, wk := Trim(credentialKey), Trim(workspaceKey);
        lease.Some? <==>
          && Usable(ck) && old(slots[ck].inflight) < Limit(slots[ck].max)
          && Usable(wk) && old(slots[wk].inflight) + (if wk == ck then 1 else 0) < Limit(slots[wk].max)
      ensures var ck, wk := Trim(credentialKey), Trim(workspaceKey);
        lease.Some? ==>
          && fresh(lease.value) && !lease.value.done
          && lease.value.keys == [ck, wk] && lease.value.slots == [slots[ck], slots[wk]]
          && forall k :: k in slots ==>
               slots[k].inflight == old(slots[k].inflight) + (if k == ck then 1 else 0) + (if k == wk then 1 else 0)
      ensures lease.None? ==> forall k :: k in slots ==> slots[k].inflight == old(slots[k].inflight)
    {
      hide Trim;
      ghost var ck, wk := Trim(credentialKey), Trim(workspaceKey);
      var wanted := [credentialKey, workspaceKey];
      var keys: seq<string> := [];
      var taken: seq<AccountSlot> := [];
      for i := 0 to 2
        invariant |keys| == |taken| == i
        invariant i >= 1 ==> keys[0] == ck && Usable(ck) && taken[0] == slots[ck] && old(slots[ck].inflight) < Limit(slots[ck].max)
        invariant i == 2 ==> keys[1] == wk && Usable(wk) && taken[1] == slots[wk]
        invariant i == 2 ==> old(slots[wk].inflight) + (if wk == ck then 1 else 0) < Limit(slots[wk].max)
        invariant forall k :: k in slots ==>
          slots[k].inflight == old(slots[k].inflight) + (if i >= 1 && k == ck then 1 else 0) + (if i == 2 && k == wk then 1 else 0)
      {
        var key := Trim(wanted[i]);
        var raised := Raise(key);
        if !raised {
          RollBack(taken, ck);
          return None;
        }
        keys, taken := keys + [key], taken + [slots[key]];
      }
      var l := new DispatchSlotLease(keys, taken);
      lease := Some(l);
    }
  }
}
