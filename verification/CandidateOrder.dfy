/** The order in which workspaces are tried for a request (internal/app/account_pool.go:205-260). */
module CandidateOrder {
  import opened Wrappers
  import opened Text
  import opened AccountPool

  /** A configured workspace; a blank id stands for an account without a workspace list. ready stands
      for the checks on plan, status and files. */
  datatype Entry = Entry(id: string, priority: int, ready: bool, record: Workspace)

  datatype PoolAccount = PoolAccount(
    email: string, disabled: bool, credentialUntil: Option<int>, defaultWorkspace: string, entries: seq<Entry>)

  datatype Pool = Pool(active: string, activeWorkspace: string, accounts: seq<PoolAccount>)

  datatype Candidate = Candidate(account: PoolAccount, entry: Entry)

  // ---- The comparator -------------------------------------------------------------------------

  /** dispatchWorkspaceKey */
  function Key(c: Candidate): string {
    if c.entry.id != "" then c.account.email + ['\0'] + c.entry.id else c.account.email
  }

  predicate HasWorkspace(a: PoolAccount, id: string) {
    exists e :: e in a.entries && e.id == id
  }

  /** preferredAccountWorkspaceID */
  function PreferredWorkspace(pool: Pool, a: PoolAccount): string {
    if Trim(pool.activeWorkspace) != "" && pool.active == a.email && HasWorkspace(a, pool.activeWorkspace)
    then pool.activeWorkspace else a.defaultWorkspace
  }

  predicate IsActive(pool: Pool, c: Candidate) {
    c.account.email == pool.active
  }

  predicate IsPreferred(pool: Pool, c: Candidate) {
    c.entry.id == PreferredWorkspace(pool, c.account)
  }

  predicate IsLimited(c: Candidate) {
    c.entry.record.hourlyQuota > 0
  }

  predicate StringLess(a: string, b: string) {
    if b == [] then false
    else if a == [] then true
    else if a[0] != b[0] then a[0] < b[0]
    else StringLess(a[1..], b[1..])
  }

  predicate LastUsedBefore(a: Option<int>, b: Option<int>) {
    if a.None? != b.None? then a.None? else a.Some? && a.value < b.value
  }

  /** The comparator of sortDispatchCandidates, test by test. */
  predicate Less(pool: Pool, now: int, left: Candidate, right: Candidate) {
    if IsActive(pool, left) != IsActive(pool, right) then IsActive(pool, left)
    else if IsPreferred(pool, left) != IsPreferred(pool, right) then IsPreferred(pool, left)
    else if left.entry.priority != right.entry.priority then left.entry.priority > right.entry.priority
    else if IsLimited(left) != IsLimited(right) then !IsLimited(left)
    else if IsLimited(left) && Remaining(left.entry.record, now) != Remaining(right.entry.record, now)
    then Remaining(left.entry.record, now) > Remaining(right.entry.record, now)
    else if left.entry.record.failures != right.entry.record.failures
    then left.entry.record.failures < right.entry.record.failures
    else if left.entry.record.lastUsedAt != right.entry.record.lastUsedAt
    then LastUsedBefore(left.entry.record.lastUsedAt, right.entry.record.lastUsedAt)
    else StringLess(Key(left), Key(right))
  }

  lemma {:induction false} StringLessOrders(a: string, b: string, c: string)
    ensures !StringLess(a, a)
    ensures StringLess(a, b) ==> !StringLess(b, a)
    ensures a != b ==> StringLess(a, b) || StringLess(b, a)
    ensures StringLess(a, b) && StringLess(b, c) ==> StringLess(a, c)
    decreases |a| + |b| + |c|
  {
    if a != [] && b != [] && a[0] == b[0] {
      assert a == [a[0]] + a[1..] && b == [b[0]] + b[1..];
      StringLessOrders(a[1..], b[1..], if c != [] && c[0] == a[0] then c[1..] else []);
    } else if a != [] {
      StringLessOrders(a[1..], [], []);
    }
  }

  /** The comparator is a strict order, and no two candidates with different keys tie. */
  lemma LessIsStrictTotal(pool: Pool, now: int, a: Candidate, b: Candidate, c: Candidate)
    ensures !Less(pool, now, a, a)
    ensures Less(pool, now, a, b) ==> !Less(pool, now, b, a)
    ensures Less(pool, now, a, b) && Less(pool, now, b, c) ==> Less(pool, now, a, c)
    ensures Key(a) != Key(b) ==> Less(pool, now, a, b) || Less(pool, now, b, a)
  {
    hide Key, StringLess, IsActive, IsPreferred, IsLimited, Remaining;
    StringLessOrders(Key(a), Key(b), Key(c));
  }

  /** Not being ordered is transitive too, so the comparator meets what sorting asks of it. */
  lemma TiesAreTransitive(pool: Pool, now: int, a: Candidate, b: Candidate, c: Candidate)
    requires !Less(pool, now, a, b) && !Less(pool, now, b, a) && !Less(pool, now, b, c) && !Less(pool, now, c, b)
    ensures !Less(pool, now, a, c) && !Less(pool, now, c, a)
  {
    hide Key, StringLess, IsActive, IsPreferred, IsLimited, Remaining;
    StringLessOrders(Key(a), Key(b), Key(c));
    StringLessOrders(Key(b), Key(c), Key(a));
  }

  // ---- Candidates -----------------------------------------------------------------------------

  predicate IsCandidate(a: PoolAccount, e: Entry, now: int) {
    Eligible(Account(a.disabled, a.credentialUntil, map[]), e.record, e.ready, now)
  }

  function AccountCandidates(a: PoolAccount, entries: seq<Entry>, now: int): seq<Candidate> {
    if entries == [] then []
    else
      AccountCandidates(a, entries[..|entries| - 1], now)
      + if IsCandidate(a, entries[|entries| - 1], now) then [Candidate(a, entries[|entries| - 1])] else []
  }

  function Candidates(accounts: seq<PoolAccount>, now: int): seq<Candidate> {
    if accounts == [] then []
    else
      var a := accounts[|accounts| - 1];
      Candidates(accounts[..|accounts| - 1], now) + AccountCandidates(a, a.entries, now)
  }

  /** The loops of buildDispatchCandidateOrder, before it sorts. */
  method CollectCandidates(pool: Pool, now: int) returns (candidates: seq<Candidate>)
    ensures candidates == Candidates(pool.accounts, now)
  {
    hide IsCandidate;
    candidates := [];
    for i := 0 to |pool.accounts|
      invariant candidates == Candidates(pool.accounts[..i], now)
    {
      var account := pool.accounts[i];
      ghost var before := candidates;
      for j := 0 to |account.entries|
        invariant candidates == before + AccountCandidates(account, account.entries[..j], now)
      {
        assert account.entries[..j + 1][..j] == account.entries[..j];
        if IsCandidate(account, account.entries[j], now) {
          candidates := candidates + [Candidate(account, account.entries[j])];
        }
      }
      assert account.entries[..|account.entries|] == account.entries;
      assert pool.accounts[..i + 1][..i] == pool.accounts[..i];
    }
    assert pool.accounts[..|pool.accounts|] == pool.accounts;
  }

  /** What the candidates are: the workspaces that may be dispatched to right now. */
  lemma {:induction false} CandidatesAreEligible(accounts: seq<PoolAccount>, now: int, c: Candidate)
    ensures c in Candidates(accounts, now) <==>
      c.account in accounts && c.entry in c.account.entries && IsCandidate(c.account, c.entry, now)
    decreases |accounts|
  {
    hide IsCandidate;
    if accounts != [] {
      var init, a := accounts[..|accounts| - 1], accounts[|accounts| - 1];
      CandidatesAreEligible(init, now, c);
      AccountCandidatesAre(a, a.entries, now, c);
      assert accounts == init + [a];
    }
  }

  lemma {:induction false} AccountCandidatesAre(a: PoolAccount, entries: seq<Entry>, now: int, c: Candidate)
    ensures c in AccountCandidates(a, entries, now) <==> c.account == a && c.entry in entries && IsCandidate(a, c.entry, now)
    decreases |entries|
  {
    hide IsCandidate;
    if entries != [] {
      AccountCandidatesAre(a, entries[..|entries| - 1], now, c);
      assert entries == entries[..|entries| - 1] + [entries[|entries| - 1]];
    }
  }

  // ---- Sorting --------------------------------------------------------------------------------

  predicate DistinctKeys(candidates: seq<Candidate>) {
    forall i, j :: 0 <= i < j < |candidates| ==> Key(candidates[i]) != Key(candidates[j])
  }

  predicate InOrder(pool: Pool, now: int, candidates: seq<Candidate>) {
    forall i, j :: 0 <= i < j < |candidates| ==> !Less(pool, now, candidates[j], candidates[i])
  }

  /** A result of sorting the eligible candidates with the comparator. */
  ghost predicate IsDispatchOrder(pool: Pool, now: int, order: seq<Candidate>) {
    InOrder(pool, now, order) && multiset(order) == multiset(Candidates(pool.accounts, now))
  }

  lemma {:induction false} SortedIsUnique(pool: Pool, now: int, s: seq<Candidate>, t: seq<Candidate>)
    requires multiset(s) == multiset(t) && DistinctKeys(s) && InOrder(pool, now, s) && InOrder(pool, now, t)
    ensures s == t
    decreases |s|
  {
    hide Less, Key;
    assert |s| == |multiset(s)| && |t| == |multiset(t)|;
    if s != [] {
      HeadsAgree(pool, now, s, t);
      TailsAgree(s, t);
      TailsStay(pool, now, s, t);
      SortedIsUnique(pool, now, s[1..], t[1..]);
      assert s == [s[0]] + s[1..] && t == [t[0]] + t[1..];
    }
  }

  lemma HeadsAgree(pool: Pool, now: int, s: seq<Candidate>, t: seq<Candidate>)
    requires s != [] && t != [] && multiset(s) == multiset(t)
    requires DistinctKeys(s) && InOrder(pool, now, s) && InOrder(pool, now, t)
    ensures s[0] == t[0]
  {
    hide Less, Key;
    assert s[0] in multiset(t) && t[0] in multiset(s);
    var i :| 0 <= i < |t| && t[i] == s[0];
    var j :| 0 <= j < |s| && s[j] == t[0];
    if s[0] != t[0] {
      assert i > 0 && j > 0;
      assert Key(s[0]) != Key(s[j]);
      LessIsStrictTotal(pool, now, s[0], t[0], t[0]);
    }
  }

  lemma TailsAgree(s: seq<Candidate>, t: seq<Candidate>)
    requires s != [] && t != [] && multiset(s) == multiset(t) && s[0] == t[0]
    ensures multiset(s[1..]) == multiset(t[1..])
  {
    assert s == [s[0]] + s[1..] && t == [t[0]] + t[1..];
    assert multiset(s) - multiset{s[0]} == multiset(s[1..]);
    assert multiset(t) - multiset{t[0]} == multiset(t[1..]);
  }

  lemma TailsStay(pool: Pool, now: int, s: seq<Candidate>, t: seq<Candidate>)
    requires s != [] && t != [] && DistinctKeys(s) && InOrder(pool, now, s) && InOrder(pool, now, t)
    ensures DistinctKeys(s[1..]) && InOrder(pool, now, s[1..]) && InOrder(pool, now, t[1..])
  {
    hide Less, Key;
  }

  // ---- The configured order does not matter ---------------------------------------------------

  lemma {:induction false} CandidatesAppend(a: seq<PoolAccount>, b: seq<PoolAccount>, now: int)
    ensures Candidates(a + b, now) == Candidates(a, now) + Candidates(b, now)
    decreases |b|
  {
    hide AccountCandidates;
    if b == [] {
      assert a + b == a;
    } else {
      CandidatesAppend(a, b[..|b| - 1], now);
      assert (a + b)[..|a + b| - 1] == a + b[..|b| - 1];
    }
  }

  lemma SplitMultiset<T>(s: seq<T>, i: nat)
    requires i < |s|
    ensures multiset(s) == multiset(s[..i] + s[i + 1..]) + multiset{s[i]}
  {
    assert s == s[..i] + [s[i]] + s[i + 1..];
  }

  lemma {:induction false} PermutedAccounts(accounts: seq<PoolAccount>, permuted: seq<PoolAccount>, now: int)
    requires multiset(accounts) == multiset(permuted)
    ensures multiset(Candidates(accounts, now)) == multiset(Candidates(permuted, now))
    decreases |accounts|
  {
    hide Candidates;
    assert |accounts| == |multiset(accounts)| && |permuted| == |multiset(permuted)|;
    if accounts == [] {
      assert permuted == accounts;
    } else {
      var n := |accounts| - 1;
      assert accounts[n] in multiset(permuted);
      var i :| 0 <= i < |permuted| && permuted[i] == accounts[n];
      SplitMultiset(accounts, n);
      SplitMultiset(permuted, i);
      var rest := permuted[..i] + permuted[i + 1..];
      assert accounts[..n] + accounts[n + 1..] == accounts[..n];
      SameWithout(multiset(accounts[..n]), multiset(rest), accounts[n]);
      PermutedAccounts(accounts[..n], rest, now);
      CandidatesSplit(accounts, n, now);
      CandidatesSplit(permuted, i, now);
    }
  }

  lemma SameWithout<T>(a: multiset<T>, b: multiset<T>, x: T)
    requires a + multiset{x} == b + multiset{x}
    ensures a == b
  {
    assert a == a + multiset{x} - multiset{x} && b == b + multiset{x} - multiset{x};
  }

  lemma CandidatesSplit(accounts: seq<PoolAccount>, i: nat, now: int)
    requires i < |accounts|
    ensures multiset(Candidates(accounts, now))
      == multiset(Candidates(accounts[..i] + accounts[i + 1..], now)) + multiset(Candidates([accounts[i]], now))
  {
    hide Candidates;
    var p, q := accounts[..i], accounts[i + 1..];
    assert accounts == p + [accounts[i]] + q;
    CandidatesAppend(p, q, now);
    CandidatesAppend(p + [accounts[i]], q, now);
    CandidatesAppend(p, [accounts[i]], now);
  }

  lemma LessIgnoresAccounts(pool: Pool, other: Pool, now: int, a: Candidate, b: Candidate)
    requires pool.active == other.active && pool.activeWorkspace == other.activeWorkspace
    ensures Less(pool, now, a, b) == Less(other, now, a, b)
  {
    hide Key, StringLess, IsLimited, Remaining, Trim, HasWorkspace;
  }

  // ---- Keys -----------------------------------------------------------------------------------

  /** Emails are distinct and hold no NUL, and the workspaces of an account have distinct ids. */
  predicate WellFormed(accounts: seq<PoolAccount>) {
    && (forall i, j :: 0 <= i < j < |accounts| ==> accounts[i].email != accounts[j].email)
    && (forall i :: 0 <= i < |accounts| ==> '\0' !in accounts[i].email)
    && (forall i :: 0 <= i < |accounts| ==> DistinctEntries(accounts[i].entries))
  }

  predicate DistinctEntries(entries: seq<Entry>) {
    forall j, k :: 0 <= j < k < |entries| ==> entries[j].id != entries[k].id
  }

  lemma NulMarksWorkspace(c: Candidate)
    requires '\0' !in c.account.email
    ensures '\0' in Key(c) <==> c.entry.id != ""
  {
    if c.entry.id != "" {
      assert Key(c)[|c.account.email|] == '\0';
    }
  }

  lemma SplitAtNul(e: string, x: string, f: string, y: string)
    requires '\0' !in e && '\0' !in f && e + ['\0'] + x == f + ['\0'] + y
    ensures e == f && x == y
  {
    var key, same := e + ['\0'] + x, f + ['\0'] + y;
    assert key[|e|] == '\0' && same[|f|] == '\0';
    assert forall i :: 0 <= i < |e| ==> key[i] == e[i];
    assert forall i :: 0 <= i < |f| ==> same[i] == f[i];
    assert |e| == |f|;
    assert e == key[..|e|] && f == same[..|f|];
    assert x == key[|e| + 1..] && y == same[|f| + 1..];
  }

  lemma KeyNames(a: Candidate, b: Candidate)
    requires '\0' !in a.account.email && '\0' !in b.account.email && Key(a) == Key(b)
    ensures a.account.email == b.account.email && a.entry.id == b.entry.id
  {
    NulMarksWorkspace(a);
    NulMarksWorkspace(b);
    if a.entry.id != "" {
      SplitAtNul(a.account.email, a.entry.id, b.account.email, b.entry.id);
    }
  }

  lemma {:induction false} AccountKeysDistinct(a: PoolAccount, entries: seq<Entry>, now: int)
    requires '\0' !in a.email && DistinctEntries(entries)
    ensures DistinctKeys(AccountCandidates(a, entries, now))
    decreases |entries|
  {
    hide IsCandidate, Key;
    if entries != [] {
      var init, e := entries[..|entries| - 1], entries[|entries| - 1];
      AccountKeysDistinct(a, init, now);
      forall c | c in AccountCandidates(a, init, now) ensures Key(c) != Key(Candidate(a, e)) {
        AccountCandidatesAre(a, init, now, c);
        if Key(c) == Key(Candidate(a, e)) {
          KeyNames(c, Candidate(a, e));
        }
      }
      AppendKeys(AccountCandidates(a, init, now), [Candidate(a, e)]);
    }
  }

  lemma AppendKeys(s: seq<Candidate>, t: seq<Candidate>)
    requires DistinctKeys(s) && DistinctKeys(t) && forall c, d :: c in s && d in t ==> Key(c) != Key(d)
    ensures DistinctKeys(s + t)
  {
    hide Key;
    var u := s + t;
    forall i, j | 0 <= i < j < |u| ensures Key(u[i]) != Key(u[j]) {
      if i < |s| && j >= |s| {
        assert u[i] in s && u[j] in t;
      }
    }
  }

  /** In a well-formed configuration no two candidates have the same key. */
  lemma {:induction false} KeysAreDistinct(accounts: seq<PoolAccount>, now: int)
    requires WellFormed(accounts)
    ensures DistinctKeys(Candidates(accounts, now))
    decreases |accounts|
  {
    hide IsCandidate, Key, AccountCandidates, DistinctEntries;
    if accounts != [] {
      var init, a := accounts[..|accounts| - 1], accounts[|accounts| - 1];
      KeysAreDistinct(init, now);
      AccountKeysDistinct(a, a.entries, now);
      forall c, d | c in Candidates(init, now) && d in AccountCandidates(a, a.entries, now) ensures Key(c) != Key(d) {
        CandidatesAreEligible(init, now, c);
        AccountCandidatesAre(a, a.entries, now, d);
        if Key(c) == Key(d) {
          KeyNames(c, d);
        }
      }
      AppendKeys(Candidates(init, now), AccountCandidates(a, a.entries, now));
    }
  }

  lemma {:induction false} OnlyOnce(s: seq<Candidate>, c: Candidate)
    requires DistinctKeys(s)
    ensures multiset(s)[c] <= 1
    decreases |s|
  {
    hide Key;
    if s != [] {
      var init, last := s[..|s| - 1], s[|s| - 1];
      assert s == init + [last];
      OnlyOnce(init, c);
      assert c == last ==> c !in init;
    }
  }

  lemma Twice(t: seq<Candidate>, i: nat, j: nat)
    requires i < j < |t| && t[i] == t[j]
    ensures multiset(t)[t[i]] >= 2
  {
    assert t == t[..j] + t[j..];
    assert t[i] in t[..j] && t[j] in t[j..];
    assert multiset(t) == multiset(t[..j]) + multiset(t[j..]);
  }

  lemma PermutedKeys(s: seq<Candidate>, t: seq<Candidate>)
    requires DistinctKeys(s) && multiset(s) == multiset(t)
    ensures DistinctKeys(t)
  {
    hide Key;
    forall i, j | 0 <= i < j < |t| ensures Key(t[i]) != Key(t[j]) {
      if t[i] == t[j] {
        Twice(t, i, j);
        OnlyOnce(s, t[i]);
      } else {
        assert t[i] in multiset(s) && t[j] in multiset(s);
      }
    }
  }

  // ---- Main results ---------------------------------------------------------------------------

  /** However the configured accounts are listed, sorting their eligible workspaces gives the same order. */
  lemma OrderIgnoresConfiguration(pool: Pool, other: Pool, now: int, order: seq<Candidate>, otherOrder: seq<Candidate>)
    requires WellFormed(pool.accounts) && multiset(pool.accounts) == multiset(other.accounts)
    requires pool.active == other.active && pool.activeWorkspace == other.activeWorkspace
    requires IsDispatchOrder(pool, now, order) && IsDispatchOrder(other, now, otherOrder)
    ensures order == otherOrder
  {
    hide Less, Key, Candidates, WellFormed;
    KeysAreDistinct(pool.accounts, now);
    PermutedKeys(Candidates(pool.accounts, now), order);
    PermutedAccounts(pool.accounts, other.accounts, now);
    forall i, j | 0 <= i < j < |otherOrder| ensures !Less(pool, now, otherOrder[j], otherOrder[i]) {
      LessIgnoresAccounts(pool, other, now, otherOrder[j], otherOrder[i]);
    }
    SortedIsUnique(pool, now, order, otherOrder);
  }

  /** The order lists each workspace once, and leaves out exactly those of a switched-off account, those that are
      not ready, those that cool down or whose credential does, and those that have used up the running hour. */
  lemma OrderListsEligible(pool: Pool, now: int, order: seq<Candidate>, c: Candidate)
    requires WellFormed(pool.accounts) && IsDispatchOrder(pool, now, order)
    ensures c in order <==>
      && c.account in pool.accounts && c.entry in c.account.entries
      && !c.account.disabled && c.entry.ready
      && (c.account.credentialUntil.Some? ==> c.account.credentialUntil.value <= now)
      && (c.entry.record.cooldownUntil.Some? ==> c.entry.record.cooldownUntil.value <= now)
      && !QuotaUsedUp(c.entry.record, now)
    ensures forall i, j :: 0 <= i < j < |order| ==>
      order[i].account.email != order[j].account.email || order[i].entry.id != order[j].entry.id
  {
    hide Less, Key, Candidates, WellFormed, InOrder, QuotaUsedUp, Eligible;
    KeysAreDistinct(pool.accounts, now);
    PermutedKeys(Candidates(pool.accounts, now), order);
    CandidatesAreEligible(pool.accounts, now, c);
    assert c in order <==> c in multiset(order);
    EligibleExactly(Account(c.account.disabled, c.account.credentialUntil, map[]), c.entry.record, c.entry.ready, now);
    forall i, j | 0 <= i < j < |order|
      ensures order[i].account.email != order[j].account.email || order[i].entry.id != order[j].entry.id
    {
      if order[i].account.email == order[j].account.email && order[i].entry.id == order[j].entry.id {
        SameNamesSameKey(order[i], order[j]);
      }
    }
  }

  lemma SameNamesSameKey(a: Candidate, b: Candidate)
    requires a.account.email == b.account.email && a.entry.id == b.entry.id
    ensures Key(a) == Key(b)
  {
  }

  /** The active workspace, where the account is the active one and has it, and otherwise the default workspace. */
  predicate Preferred(pool: Pool, c: Candidate) {
    if c.account.email == pool.active && Trim(pool.activeWorkspace) != ""
       && exists e :: e in c.account.entries && e.id == pool.activeWorkspace
    then c.entry.id == pool.activeWorkspace
    else c.entry.id == c.account.defaultWorkspace
  }

  lemma PreferredIsPreferred(pool: Pool, c: Candidate)
    ensures IsPreferred(pool, c) <==> Preferred(pool, c)
  {
    hide Trim;
  }

  /** What comes first: the active account, then preferred workspaces, then higher priority, then
      workspaces without a quota, then more quota left, then fewer failures, then the longest unused, and
      last the smaller key. */
  lemma OrderIsByPreference(pool: Pool, now: int, order: seq<Candidate>, i: nat, j: nat)
    requires IsDispatchOrder(pool, now, order) && i < j < |order|
    ensures var a, b := order[i], order[j];
      && (b.account.email == pool.active ==> a.account.email == pool.active)
      && ((a.account.email == pool.active) == (b.account.email == pool.active) ==>
            && (Preferred(pool, b) ==> Preferred(pool, a))
            && (Preferred(pool, a) == Preferred(pool, b) ==>
                  && a.entry.priority >= b.entry.priority
                  && (a.entry.priority == b.entry.priority ==> NoWorseRecord(a, b, now))))
  {
    hide Key, StringLess, Preferred, IsPreferred, Candidates, Remaining, NoWorseRecord;
    PreferredIsPreferred(pool, order[i]);
    PreferredIsPreferred(pool, order[j]);
    var a, b := order[i], order[j];
    if IsActive(pool, a) == IsActive(pool, b) && IsPreferred(pool, a) == IsPreferred(pool, b) && a.entry.priority == b.entry.priority {
      NotLessRecord(pool, now, a, b);
    }
  }

  /** What is left of the quota of the running hour. */
  function Left(w: Workspace, now: int): int {
    if w.windowStartedAt.None? || now >= w.windowStartedAt.value + HOUR then w.hourlyQuota
    else if w.windowRequests >= w.hourlyQuota then 0
    else w.hourlyQuota - w.windowRequests
  }

  ghost predicate NoWorseRecord(a: Candidate, b: Candidate, now: int) {
    var l, r := a.entry.record, b.entry.record;
    && (l.hourlyQuota > 0 ==> r.hourlyQuota > 0)
    && (l.hourlyQuota > 0 ==> Left(l, now) >= Left(r, now))
    && ((l.hourlyQuota <= 0 && r.hourlyQuota <= 0)
        || (l.hourlyQuota > 0 && r.hourlyQuota > 0 && Left(l, now) == Left(r, now)) ==>
          && l.failures <= r.failures
          && (l.failures == r.failures && l.lastUsedAt.Some? ==> r.lastUsedAt.Some? && l.lastUsedAt.value <= r.lastUsedAt.value)
          && (l.failures == r.failures && l.lastUsedAt == r.lastUsedAt ==> NotAfter(Key(a), Key(b))))
  }

  /** a is b, a beginning of it, or has the smaller rune where they first differ. */
  ghost predicate NotAfter(a: string, b: string) {
    a <= b || exists k :: 0 <= k < |a| && k < |b| && a[..k] == b[..k] && a[k] < b[k]
  }

  lemma LeftRemains(w: Workspace, now: int)
    requires w.hourlyQuota > 0
    ensures Remaining(w, now) == Left(w, now)
  {
  }

  lemma {:induction false} NotLessIsNotAfter(a: string, b: string)
    requires !StringLess(b, a)
    ensures NotAfter(a, b)
    decreases |a|
  {
    if a != [] && b != [] && a[0] == b[0] {
      NotLessIsNotAfter(a[1..], b[1..]);
      if a[1..] <= b[1..] {
        assert a == [a[0]] + a[1..] && b == [b[0]] + b[1..];
      } else {
        var k :| 0 <= k < |a[1..]| && k < |b[1..]| && a[1..][..k] == b[1..][..k] && a[1..][k] < b[1..][k];
        assert a[..k + 1] == [a[0]] + a[1..][..k] && b[..k + 1] == [b[0]] + b[1..][..k];
      }
    } else if a != [] && b != [] {
      assert a[..0] == b[..0];
    }
  }

  lemma NotLessRecord(pool: Pool, now: int, a: Candidate, b: Candidate)
    requires !Less(pool, now, b, a) && IsActive(pool, a) == IsActive(pool, b) && IsPreferred(pool, a) == IsPreferred(pool, b)
    requires a.entry.priority == b.entry.priority
    ensures NoWorseRecord(a, b, now)
  {
    hide Key, StringLess, IsPreferred, IsActive, Remaining, NotAfter, Left;
    if a.entry.record.hourlyQuota > 0 {
      LeftRemains(a.entry.record, now);
    }
    if b.entry.record.hourlyQuota > 0 {
      LeftRemains(b.entry.record, now);
    }
    if !StringLess(Key(b), Key(a)) {
      NotLessIsNotAfter(Key(a), Key(b));
    }
  }

  function Insert(pool: Pool, now: int, c: Candidate, sorted: seq<Candidate>): seq<Candidate> {
    if sorted == [] || !Less(pool, now, sorted[0], c) then [c] + sorted
    else [sorted[0]] + Insert(pool, now, c, sorted[1..])
  }

  function Sorted(pool: Pool, now: int, candidates: seq<Candidate>): seq<Candidate> {
    if candidates == [] then [] else Insert(pool, now, candidates[0], Sorted(pool, now, candidates[1..]))
  }

  lemma ConsInOrder(pool: Pool, now: int, c: Candidate, rest: seq<Candidate>)
    requires InOrder(pool, now, rest) && forall d :: d in rest ==> !Less(pool, now, d, c)
    ensures InOrder(pool, now, [c] + rest)
  {
    hide Less;
  }

  lemma HeadIsLeast(pool: Pool, now: int, sorted: seq<Candidate>, c: Candidate)
    requires sorted != [] && InOrder(pool, now, sorted) && !Less(pool, now, sorted[0], c)
    ensures forall d :: d in sorted ==> !Less(pool, now, d, c)
  {
    hide Less;
    forall i | 0 <= i < |sorted| ensures !Less(pool, now, sorted[i], c) {
      if i > 0 {
        NotLessThrough(pool, now, sorted[i], sorted[0], c);
      }
    }
  }

  lemma TailInOrder(pool: Pool, now: int, sorted: seq<Candidate>)
    requires sorted != [] && InOrder(pool, now, sorted)
    ensures InOrder(pool, now, sorted[1..]) && sorted == [sorted[0]] + sorted[1..]
    ensures forall d :: d in sorted[1..] ==> !Less(pool, now, d, sorted[0])
  {
    hide Less;
  }

  lemma {:induction false} InsertSorts(pool: Pool, now: int, c: Candidate, sorted: seq<Candidate>)
    requires InOrder(pool, now, sorted)
    ensures InOrder(pool, now, Insert(pool, now, c, sorted))
    ensures multiset(Insert(pool, now, c, sorted)) == multiset(sorted) + multiset{c}
    decreases |sorted|
  {
    hide Less, InOrder;
    if sorted == [] {
      ConsInOrder(pool, now, c, sorted);
    } else if !Less(pool, now, sorted[0], c) {
      HeadIsLeast(pool, now, sorted, c);
      ConsInOrder(pool, now, c, sorted);
    } else {
      TailInOrder(pool, now, sorted);
      InsertSorts(pool, now, c, sorted[1..]);
      var rest := Insert(pool, now, c, sorted[1..]);
      LessIsStrictTotal(pool, now, sorted[0], c, c);
      forall d | d in rest ensures !Less(pool, now, d, sorted[0]) {
        assert d in multiset(rest);
      }
      ConsInOrder(pool, now, sorted[0], rest);
    }
  }

  lemma NotLessThrough(pool: Pool, now: int, a: Candidate, b: Candidate, c: Candidate)
    requires !Less(pool, now, a, b) && !Less(pool, now, b, c)
    ensures !Less(pool, now, a, c)
  {
    hide Less;
    LessIsStrictTotal(pool, now, a, b, c);
    LessIsStrictTotal(pool, now, b, a, c);
    LessIsStrictTotal(pool, now, a, c, b);
    LessIsStrictTotal(pool, now, b, c, a);
    if !Less(pool, now, b, a) && !Less(pool, now, c, b) {
      TiesAreTransitive(pool, now, a, b, c);
    }
  }

  /** Such an order exists. */
  lemma {:induction false} OrderExists(pool: Pool, now: int, candidates: seq<Candidate>)
    ensures InOrder(pool, now, Sorted(pool, now, candidates))
    ensures multiset(Sorted(pool, now, candidates)) == multiset(candidates)
    decreases |candidates|
  {
    hide Less, Insert;
    if candidates != [] {
      OrderExists(pool, now, candidates[1..]);
      InsertSorts(pool, now, candidates[0], Sorted(pool, now, candidates[1..]));
      assert candidates == [candidates[0]] + candidates[1..];
    }
  }
}
