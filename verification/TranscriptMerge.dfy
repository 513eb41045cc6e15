/** Keeping local messages next to the remote transcript they were written against
    (internal/app/admin_conversations.go:259-291). */
module TranscriptMerge {
  import opened Orders
  import opened Wrappers

  datatype Message = Message(
    id: string, upstream: string, role: string, stepType: string, status: string, content: string,
    editedAt: Option<int>, truncated: bool, attachments: seq<string>, requestedModel: string)

  lemma IdSetSnoc(ms: seq<Message>, m: Message)
    ensures IdSet(ms + [m]) == IdSet(ms) + {m.id}
  {
  }

  function Ids(ms: seq<Message>): (ids: seq<string>)
    ensures |ids| == |ms|
    ensures forall i :: 0 <= i < |ms| ==> ids[i] == ms[i].id
  {
    seq(|ms|, i requires 0 <= i < |ms| => ms[i].id)
  }

  function IdSet(ms: seq<Message>): set<string> {
    set m | m in ms :: m.id
  }

  // ---- The merge ------------------------------------------------------------------------------

  /** Neither the local nor the upstream id of a message is tombstoned. */
  predicate Kept(m: Message, deleted: set<string>) {
    m.id !in deleted && m.upstream !in deleted
  }

  predicate Shared(m: Message, remoteIds: set<string>, deleted: set<string>) {
    Kept(m, deleted) && m.id in remoteIds
  }

  predicate LocalOnly(m: Message, remoteIds: set<string>, deleted: set<string>) {
    Kept(m, deleted) && m.id !in remoteIds
  }

  /** The id of the last kept local message that the remote transcript also has, or "". */
  function Anchor(local: seq<Message>, remoteIds: set<string>, deleted: set<string>): string {
    if local == [] then ""
    else if Shared(local[|local| - 1], remoteIds, deleted) then local[|local| - 1].id
    else Anchor(local[..|local| - 1], remoteIds, deleted)
  }

  /** The kept local-only messages whose last shared message is the given anchor. */
  function Group(local: seq<Message>, remoteIds: set<string>, deleted: set<string>, anchor: string): seq<Message> {
    if local == [] then []
    else
      var init, last := local[..|local| - 1], local[|local| - 1];
      Group(init, remoteIds, deleted, anchor)
      + if LocalOnly(last, remoteIds, deleted) && Anchor(init, remoteIds, deleted) == anchor then [last] else []
  }

  /** Every remote message the first time its id occurs, each followed by the local messages anchored to it. */
  function Emit(remote: seq<Message>, local: seq<Message>, remoteIds: set<string>, deleted: set<string>): seq<Message> {
    if remote == [] then []
    else
      var init, last := remote[..|remote| - 1], remote[|remote| - 1];
      Emit(init, local, remoteIds, deleted)
      + if last.id in IdSet(init) then [] else [last] + Group(local, remoteIds, deleted, last.id)
  }

  lemma EmitSnoc(remote: seq<Message>, m: Message, local: seq<Message>, remoteIds: set<string>, deleted: set<string>)
    ensures Emit(remote + [m], local, remoteIds, deleted) ==
      if m.id in IdSet(remote) then Emit(remote, local, remoteIds, deleted)
      else Emit(remote, local, remoteIds, deleted) + ([m] + Group(local, remoteIds, deleted, m.id))
  {
    assert (remote + [m])[..|remote|] == remote;
  }

  /** retainLocalConversationMessages */
  function Retain(local: seq<Message>, remote: seq<Message>, deleted: set<string>): seq<Message> {
    var remoteIds := IdSet(remote);
    Group(local, remoteIds, deleted, "") + Emit(remote, local, remoteIds, deleted)
  }

  function GetGroup(after: map<string, seq<Message>>, anchor: string): seq<Message> {
    if anchor in after then after[anchor] else []
  }

  method CollectIds(ms: seq<Message>) returns (ids: set<string>)
    ensures ids == IdSet(ms)
  {
    ids := {};
    for i := 0 to |ms|
      invariant ids == IdSet(ms[..i])
    {
      assert ms[..i + 1] == ms[..i] + [ms[i]];
      ids := ids + {ms[i].id};
    }
    assert ms[..|ms|] == ms;
  }

  /** The dictionary holds every group of a local list. */
  ghost predicate HoldsGroups(after: map<string, seq<Message>>, local: seq<Message>, remoteIds: set<string>,
        deleted: set<string>) {
    forall a :: GetGroup(after, a) == Group(local, remoteIds, deleted, a)
  }

  lemma OneMoreGrouped(after: map<string, seq<Message>>, local: seq<Message>, m: Message,
        remoteIds: set<string>, deleted: set<string>)
    requires HoldsGroups(after, local, remoteIds, deleted)
    ensures var anchor := Anchor(local, remoteIds, deleted);
      HoldsGroups(if LocalOnly(m, remoteIds, deleted) then after[anchor := GetGroup(after, anchor) + [m]] else after,
                  local + [m], remoteIds, deleted)
    ensures Anchor(local + [m], remoteIds, deleted) == if Shared(m, remoteIds, deleted) then m.id else Anchor(local, remoteIds, deleted)
  {
    hide Group, Anchor, LocalOnly, Shared;
    var anchor := Anchor(local, remoteIds, deleted);
    var after' := if LocalOnly(m, remoteIds, deleted) then after[anchor := GetGroup(after, anchor) + [m]] else after;
    forall a ensures GetGroup(after', a) == Group(local + [m], remoteIds, deleted, a) {
      GroupSnoc(local, m, remoteIds, deleted, a);
    }
    GroupSnoc(local, m, remoteIds, deleted, "");
  }

  method GroupByAnchor(local: seq<Message>, remoteIds: set<string>, deleted: set<string>)
    returns (after: map<string, seq<Message>>)
    ensures HoldsGroups(after, local, remoteIds, deleted)
  {
    after := map[];
    var anchor := "";
    for i := 0 to |local|
      invariant anchor == Anchor(local[..i], remoteIds, deleted)
      invariant HoldsGroups(after, local[..i], remoteIds, deleted)
    {
      hide Group, Anchor, HoldsGroups;
      var message := local[i];
      assert local[..i + 1] == local[..i] + [message];
      OneMoreGrouped(after, local[..i], message, remoteIds, deleted);
      if message.id in deleted || message.upstream in deleted {
        continue;
      }
      if message.id in remoteIds {
        anchor := message.id;
        continue;
      }
      after := after[anchor := GetGroup(after, anchor) + [message]];
    }
    assert local[..|local|] == local;
  }

  method EmitInOrder(remote: seq<Message>, after: map<string, seq<Message>>,
                     ghost local: seq<Message>, ghost remoteIds: set<string>, ghost deleted: set<string>)
    returns (merged: seq<Message>)
    requires HoldsGroups(after, local, remoteIds, deleted)
    ensures merged == Group(local, remoteIds, deleted, "") + Emit(remote, local, remoteIds, deleted)
  {
    hide Group, IdSet, Emit, GetGroup;
    merged := GetGroup(after, "");
    var seen: set<string> := {};
    EmitNothing(local, remoteIds, deleted);
    assert remote[..0] == [];
    for i := 0 to |remote|
      invariant seen == IdSet(remote[..i])
      invariant merged == Group(local, remoteIds, deleted, "") + Emit(remote[..i], local, remoteIds, deleted)
    {
      var message := remote[i];
      assert remote[..i + 1] == remote[..i] + [message];
      IdSetSnoc(remote[..i], message);
      EmitSnoc(remote[..i], message, local, remoteIds, deleted);
      if message.id !in seen {
        AppendBlock(Group(local, remoteIds, deleted, ""), Emit(remote[..i], local, remoteIds, deleted),
                    [message], GetGroup(after, message.id));
        seen := seen + {message.id};
        merged := merged + [message];
        merged := merged + GetGroup(after, message.id);
      }
    }
    assert remote[..|remote|] == remote;
  }

  lemma EmitNothing(local: seq<Message>, remoteIds: set<string>, deleted: set<string>)
    ensures Emit([], local, remoteIds, deleted) == [] && IdSet([]) == {}
  {
  }

  method RetainLocalMessages(local: seq<Message>, remote: seq<Message>, deleted: set<string>)
    returns (merged: seq<Message>)
    ensures merged == Retain(local, remote, deleted)
  {
    var remoteIds := CollectIds(remote);
    var after := GroupByAnchor(local, remoteIds, deleted);
    merged := EmitInOrder(remote, after, local, remoteIds, deleted);
  }

  lemma AppendBlock(a: seq<Message>, b: seq<Message>, c: seq<Message>, d: seq<Message>)
    ensures ((a + b) + c) + d == a + (b + (c + d))
  {
  }

  // ---- Conservation ---------------------------------------------------------------------------

  /** The remote list without repeated ids, in remote order. */
  function Dedup(remote: seq<Message>): seq<Message> {
    if remote == [] then []
    else
      var init, last := remote[..|remote| - 1], remote[|remote| - 1];
      Dedup(init) + if last.id in IdSet(init) then [] else [last]
  }

  function LocalOnlyOf(local: seq<Message>, remoteIds: set<string>, deleted: set<string>): seq<Message> {
    if local == [] then []
    else
      var init, last := local[..|local| - 1], local[|local| - 1];
      LocalOnlyOf(init, remoteIds, deleted) + if LocalOnly(last, remoteIds, deleted) then [last] else []
  }

  lemma DedupSnoc(remote: seq<Message>, m: Message)
    ensures Dedup(remote + [m]) == if m.id in IdSet(remote) then Dedup(remote) else Dedup(remote) + [m]
  {
    assert (remote + [m])[..|remote|] == remote;
  }

  predicate DistinctIds(ms: seq<Message>) {
    forall i, j :: 0 <= i < j < |ms| ==> ms[i].id != ms[j].id
  }

  lemma DistinctIdsSnoc(ms: seq<Message>, m: Message)
    requires DistinctIds(ms) && m.id !in IdSet(ms)
    ensures DistinctIds(ms + [m])
  {
    assert forall i :: 0 <= i < |ms| ==> ms[i].id in IdSet(ms);
  }

  lemma {:induction false} DedupIds(remote: seq<Message>)
    ensures IdSet(Dedup(remote)) == IdSet(remote)
    ensures DistinctIds(Dedup(remote))
    decreases |remote|
  {
    if remote != [] {
      var init, last := remote[..|remote| - 1], remote[|remote| - 1];
      assert remote == init + [last];
      DedupIds(init);
      hide Dedup, IdSet, DistinctIds;
      IdSetSnoc(init, last);
      IdSetSnoc(Dedup(init), last);
      DedupSnoc(init, last);
      if last.id !in IdSet(init) {
        DistinctIdsSnoc(Dedup(init), last);
      }
    }
  }

  lemma {:induction false} AnchorIsShared(local: seq<Message>, remoteIds: set<string>, deleted: set<string>)
    ensures Anchor(local, remoteIds, deleted) == "" || Anchor(local, remoteIds, deleted) in remoteIds
    decreases |local|
  {
    if local != [] {
      AnchorIsShared(local[..|local| - 1], remoteIds, deleted);
    }
  }

  /** All messages anchored to any of the given distinct remote messages. */
  function Buckets(ds: seq<Message>, local: seq<Message>, remoteIds: set<string>,
        deleted: set<string>): multiset<Message> {
    if ds == [] then multiset{}
    else Buckets(ds[..|ds| - 1], local, remoteIds, deleted)
         + multiset(Group(local, remoteIds, deleted, ds[|ds| - 1].id))
  }

  lemma {:induction false} BucketsSnoc(ds: seq<Message>, local: seq<Message>, m: Message,
        remoteIds: set<string>, deleted: set<string>)
    requires DistinctIds(ds)
    ensures Buckets(ds, local + [m], remoteIds, deleted) ==
      Buckets(ds, local, remoteIds, deleted)
      + if LocalOnly(m, remoteIds, deleted) && Anchor(local, remoteIds, deleted) in IdSet(ds) then multiset{m} else multiset{}
    decreases |ds|
  {
    if ds != [] {
      var init, last := ds[..|ds| - 1], ds[|ds| - 1];
      assert ds == init + [last];
      BucketsSnoc(init, local, m, remoteIds, deleted);
      assert (local + [m])[..|local|] == local;
      IdSetSnoc(init, last);
      assert last.id !in IdSet(init);
    }
  }

  lemma {:induction false} BucketsCover(ds: seq<Message>, local: seq<Message>, remoteIds: set<string>,
        deleted: set<string>)
    requires DistinctIds(ds)
    requires IdSet(ds) == remoteIds
    ensures Buckets(ds, local, remoteIds, deleted)
            + (if "" in remoteIds then multiset{} else multiset(Group(local, remoteIds, deleted, "")))
            == multiset(LocalOnlyOf(local, remoteIds, deleted))
    decreases |local|
  {
    if local == [] {
      NoBuckets(ds, remoteIds, deleted);
    } else {
      var init, last := local[..|local| - 1], local[|local| - 1];
      assert local == init + [last];
      BucketsCover(ds, init, remoteIds, deleted);
      BucketsSnoc(ds, init, last, remoteIds, deleted);
      AnchorIsShared(init, remoteIds, deleted);
    }
  }

  lemma {:induction false} NoBuckets(ds: seq<Message>, remoteIds: set<string>, deleted: set<string>)
    ensures Buckets(ds, [], remoteIds, deleted) == multiset{}
    decreases |ds|
  {
    if ds != [] {
      NoBuckets(ds[..|ds| - 1], remoteIds, deleted);
    }
  }

  lemma {:induction false} EmitConserves(remote: seq<Message>, local: seq<Message>, remoteIds: set<string>,
        deleted: set<string>)
    ensures multiset(Emit(remote, local, remoteIds, deleted)) ==
            multiset(Dedup(remote)) + Buckets(Dedup(remote), local, remoteIds, deleted)
    decreases |remote|
  {
    if remote != [] {
      hide IdSet, Group, Emit, Dedup, Buckets;
      var init, last := remote[..|remote| - 1], remote[|remote| - 1];
      assert remote == init + [last];
      EmitConserves(init, local, remoteIds, deleted);
      EmitSnoc(init, last, local, remoteIds, deleted);
      DedupSnoc(init, last);
      var e, d, g := Emit(init, local, remoteIds, deleted), Dedup(init), Group(local, remoteIds, deleted, last.id);
      BucketsGrow(d, last, local, remoteIds, deleted);
      BlockMultiset(e, d, last, g, Buckets(d, local, remoteIds, deleted));
    }
  }

  lemma BlockMultiset(e: seq<Message>, d: seq<Message>, m: Message, g: seq<Message>, b: multiset<Message>)
    requires multiset(e) == multiset(d) + b
    ensures multiset(e + ([m] + g)) == multiset(d + [m]) + (b + multiset(g))
  {
    assert multiset(e + ([m] + g)) == multiset(e) + (multiset{m} + multiset(g));
    assert multiset(d + [m]) == multiset(d) + multiset{m};
  }

  lemma BucketsGrow(ds: seq<Message>, m: Message, local: seq<Message>, remoteIds: set<string>, deleted: set<string>)
    ensures Buckets(ds + [m], local, remoteIds, deleted) ==
      Buckets(ds, local, remoteIds, deleted) + multiset(Group(local, remoteIds, deleted, m.id))
  {
    assert (ds + [m])[..|ds|] == ds;
  }

  /** Every distinct remote message and every undeleted local-only message comes out; the only repetition
      possible is of messages before the first anchor, when some remote message has no id. */
  lemma MergeConserves(local: seq<Message>, remote: seq<Message>, deleted: set<string>)
    ensures var remoteIds := IdSet(remote);
      multiset(Retain(local, remote, deleted)) ==
        multiset(Dedup(remote)) + multiset(LocalOnlyOf(local, remoteIds, deleted))
        + (if "" in remoteIds then multiset(Group(local, remoteIds, deleted, "")) else multiset{})
  {
    var remoteIds := IdSet(remote);
    DedupIds(remote);
    EmitConserves(remote, local, remoteIds, deleted);
    BucketsCover(Dedup(remote), local, remoteIds, deleted);
  }

  /** Nothing is lost or repeated if and only if all remote ids are non-empty or nothing local-only precedes the anchors. */
  lemma MergeConservesExactly(local: seq<Message>, remote: seq<Message>, deleted: set<string>)
    ensures var remoteIds := IdSet(remote);
      multiset(Retain(local, remote, deleted)) ==
        multiset(Dedup(remote)) + multiset(LocalOnlyOf(local, remoteIds, deleted))
      <==> ("" !in remoteIds || Group(local, remoteIds, deleted, "") == [])
  {
    MergeConserves(local, remote, deleted);
    var g := Group(local, IdSet(remote), deleted, "");
    if g != [] {
      assert g[0] in multiset(g);
    }
  }

  // ---- Order ----------------------------------------------------------------------------------

  function Filter(ids: seq<string>, keep: set<string>): seq<string> {
    if ids == [] then []
    else Filter(ids[..|ids| - 1], keep) + if ids[|ids| - 1] in keep then [ids[|ids| - 1]] else []
  }

  lemma FilterSnoc(ids: seq<string>, id: string, keep: set<string>)
    ensures Filter(ids + [id], keep) == Filter(ids, keep) + if id in keep then [id] else []
  {
    assert (ids + [id])[..|ids|] == ids;
  }

  lemma {:induction false} FilterConcat(a: seq<string>, b: seq<string>, keep: set<string>)
    ensures Filter(a + b, keep) == Filter(a, keep) + Filter(b, keep)
    decreases |b|
  {
    if b == [] {
      assert a + b == a;
    } else {
      var init, last := b[..|b| - 1], b[|b| - 1];
      assert a + b == (a + init) + [last];
      FilterSnoc(a + init, last, keep);
      FilterConcat(a, init, keep);
    }
  }

  lemma {:induction false} FilterNone(ids: seq<string>, keep: set<string>)
    requires forall id :: id in ids ==> id !in keep
    ensures Filter(ids, keep) == []
    decreases |ids|
  {
    if ids != [] {
      assert ids[|ids| - 1] in ids;
      assert forall id :: id in ids[..|ids| - 1] ==> id in ids;
      FilterNone(ids[..|ids| - 1], keep);
    }
  }

  lemma {:induction false} SubsequenceFilter(a: seq<string>, b: seq<string>, keep: set<string>)
    requires Subsequence(a, b)
    ensures Subsequence(Filter(a, keep), Filter(b, keep))
    decreases |b|
  {
    if a == [] {
    } else {
      var b', x := b[..|b| - 1], b[|b| - 1];
      assert b == b' + [x];
      FilterSnoc(b', x, keep);
      if a[|a| - 1] == x && Subsequence(a[..|a| - 1], b') {
        assert a == a[..|a| - 1] + [x];
        FilterSnoc(a[..|a| - 1], x, keep);
        SubsequenceFilter(a[..|a| - 1], b', keep);
        SubsequenceSnoc(Filter(a[..|a| - 1], keep), Filter(b', keep), x);
        assert Filter(a[..|a| - 1], keep) + [] == Filter(a[..|a| - 1], keep);
        assert Filter(b', keep) + [] == Filter(b', keep);
      } else {
        SubsequenceFilter(a, b', keep);
        SubsequenceSnoc(Filter(a, keep), Filter(b', keep), x);
        assert Filter(b', keep) + [] == Filter(b', keep);
      }
    }
  }

  /** The ids of the local messages that survive tombstones, in local order. */
  function KeptIds(local: seq<Message>, deleted: set<string>): seq<string> {
    if local == [] then []
    else
      var last := local[|local| - 1];
      KeptIds(local[..|local| - 1], deleted) + if Kept(last, deleted) then [last.id] else []
  }

  /** Those of them the remote transcript has as well. */
  function SharedIds(local: seq<Message>, remoteIds: set<string>, deleted: set<string>): seq<string> {
    Filter(KeptIds(local, deleted), remoteIds)
  }

  /** Each anchor followed by the ids of the local messages grouped under it. */
  function Blocks(anchors: seq<string>, local: seq<Message>, remoteIds: set<string>, deleted: set<string>): seq<string> {
    if anchors == [] then []
    else
      var last := anchors[|anchors| - 1];
      Blocks(anchors[..|anchors| - 1], local, remoteIds, deleted)
      + ([last] + Ids(Group(local, remoteIds, deleted, last)))
  }

  lemma BlocksSnoc(anchors: seq<string>, a: string, local: seq<Message>, remoteIds: set<string>, deleted: set<string>)
    ensures Blocks(anchors + [a], local, remoteIds, deleted) ==
      Blocks(anchors, local, remoteIds, deleted) + ([a] + Ids(Group(local, remoteIds, deleted, a)))
  {
    assert (anchors + [a])[..|anchors|] == anchors;
  }

  lemma {:induction false} BlocksAgree(anchors: seq<string>, l1: seq<Message>, l2: seq<Message>,
        remoteIds: set<string>, deleted: set<string>)
    requires forall a :: a in anchors ==> Group(l1, remoteIds, deleted, a) == Group(l2, remoteIds, deleted, a)
    ensures Blocks(anchors, l1, remoteIds, deleted) == Blocks(anchors, l2, remoteIds, deleted)
    decreases |anchors|
  {
    if anchors != [] {
      assert anchors[|anchors| - 1] in anchors;
      assert forall a :: a in anchors[..|anchors| - 1] ==> a in anchors;
      BlocksAgree(anchors[..|anchors| - 1], l1, l2, remoteIds, deleted);
    }
  }

  lemma SharedSnoc(local: seq<Message>, m: Message, remoteIds: set<string>, deleted: set<string>)
    ensures KeptIds(local + [m], deleted) == KeptIds(local, deleted) + if Kept(m, deleted) then [m.id] else []
    ensures SharedIds(local + [m], remoteIds, deleted) ==
      SharedIds(local, remoteIds, deleted) + if Shared(m, remoteIds, deleted) then [m.id] else []
  {
    assert (local + [m])[..|local|] == local;
    var k := KeptIds(local, deleted);
    assert k + [] == k && Filter(k, remoteIds) + [] == Filter(k, remoteIds);
    FilterSnoc(k, m.id, remoteIds);
  }

  lemma GroupSnoc(local: seq<Message>, m: Message, remoteIds: set<string>, deleted: set<string>, a: string)
    ensures Group(local + [m], remoteIds, deleted, a) ==
      if LocalOnly(m, remoteIds, deleted) && Anchor(local, remoteIds, deleted) == a
      then Group(local, remoteIds, deleted, a) + [m] else Group(local, remoteIds, deleted, a)
    ensures Anchor(local + [m], remoteIds, deleted) ==
      if Shared(m, remoteIds, deleted) then m.id else Anchor(local, remoteIds, deleted)
  {
    assert (local + [m])[..|local|] == local;
  }

  lemma {:induction false} AnchorIsLastShared(local: seq<Message>, remoteIds: set<string>, deleted: set<string>)
    ensures var s := SharedIds(local, remoteIds, deleted);
      Anchor(local, remoteIds, deleted) == if s == [] then "" else s[|s| - 1]
    decreases |local|
  {
    if local != [] {
      var init, last := local[..|local| - 1], local[|local| - 1];
      assert local == init + [last];
      AnchorIsLastShared(init, remoteIds, deleted);
      SharedSnoc(init, last, remoteIds, deleted);
      GroupSnoc(init, last, remoteIds, deleted, "");
    }
  }

  /** The kept local ids can be read off the unanchored group followed by one block for each shared id. */
  lemma {:induction false} KeptIdsInBlocks(local: seq<Message>, remoteIds: set<string>, deleted: set<string>)
    requires Distinct(SharedIds(local, remoteIds, deleted))
    ensures Subsequence(KeptIds(local, deleted),
                        Ids(Group(local, remoteIds, deleted, ""))
                        + Blocks(SharedIds(local, remoteIds, deleted), local, remoteIds, deleted))
    decreases |local|
  {
    if local != [] {
      hide Subsequence, Group, Blocks, KeptIds, Shared, LocalOnly;
      var init, last := local[..|local| - 1], local[|local| - 1];
      assert local == init + [last];
      SharedSnoc(init, last, remoteIds, deleted);
      var shared := SharedIds(init, remoteIds, deleted);
      assert shared + [] == shared;
      DistinctSnoc(shared, last.id);
      KeptIdsInBlocks(init, remoteIds, deleted);
      KeptOrNot(last, remoteIds, deleted);
      if Shared(last, remoteIds, deleted) {
        SharedEndsBlocks(init, last, remoteIds, deleted);
      } else if LocalOnly(last, remoteIds, deleted) {
        LocalOnlyEndsBlocks(init, last, remoteIds, deleted);
      } else {
        forall a ensures Group(local, remoteIds, deleted, a) == Group(init, remoteIds, deleted, a) {
          GroupSnoc(init, last, remoteIds, deleted, a);
        }
        BlocksAgree(shared, init, local, remoteIds, deleted);
        assert KeptIds(init, deleted) + [] == KeptIds(init, deleted);
      }
    } else {
      EmptySubsequence(Ids(Group(local, remoteIds, deleted, "")) + Blocks(SharedIds(local, remoteIds, deleted), local, remoteIds, deleted));
    }
  }

  lemma KeptOrNot(m: Message, remoteIds: set<string>, deleted: set<string>)
    ensures Kept(m, deleted) <==> Shared(m, remoteIds, deleted) || LocalOnly(m, remoteIds, deleted)
    ensures !(Shared(m, remoteIds, deleted) && LocalOnly(m, remoteIds, deleted))
  {
  }

  lemma SharedEndsBlocks(init: seq<Message>, last: Message, remoteIds: set<string>, deleted: set<string>)
    requires Shared(last, remoteIds, deleted)
    requires Subsequence(KeptIds(init, deleted),
      Ids(Group(init, remoteIds, deleted, "")) + Blocks(SharedIds(init, remoteIds, deleted), init, remoteIds, deleted))
    ensures Subsequence(KeptIds(init + [last], deleted),
      Ids(Group(init + [last], remoteIds, deleted, ""))
      + Blocks(SharedIds(init + [last], remoteIds, deleted), init + [last], remoteIds, deleted))
  {
    hide Blocks, Group, KeptIds, SharedIds, Subsequence, Ids;
    var local, shared := init + [last], SharedIds(init, remoteIds, deleted);
    SharedSnoc(init, last, remoteIds, deleted);
    forall a ensures Group(local, remoteIds, deleted, a) == Group(init, remoteIds, deleted, a) {
      GroupSnoc(init, last, remoteIds, deleted, a);
    }
    BlocksAgree(shared, init, local, remoteIds, deleted);
    BlocksSnoc(shared, last.id, local, remoteIds, deleted);
    var g, b := Ids(Group(init, remoteIds, deleted, "")), Blocks(shared, init, remoteIds, deleted);
    var rest := Ids(Group(local, remoteIds, deleted, last.id));
    SubsequenceSnoc(KeptIds(init, deleted), g + b, last.id);
    SubsequenceSkip(KeptIds(init, deleted) + [last.id], (g + b) + [last.id], rest);
    assert ((g + b) + [last.id]) + rest == g + (b + ([last.id] + rest));
  }

  lemma OneMoreLocalOnly(init: seq<Message>, last: Message, remoteIds: set<string>, deleted: set<string>)
    requires LocalOnly(last, remoteIds, deleted)
    ensures KeptIds(init + [last], deleted) == KeptIds(init, deleted) + [last.id]
    ensures SharedIds(init + [last], remoteIds, deleted) == SharedIds(init, remoteIds, deleted)
    ensures Ids(Group(init + [last], remoteIds, deleted, "")) ==
      Ids(Group(init, remoteIds, deleted, "")) + if Anchor(init, remoteIds, deleted) == "" then [last.id] else []
  {
    hide Group, KeptIds, SharedIds, Anchor, Ids;
    SharedSnoc(init, last, remoteIds, deleted);
    GroupSnoc(init, last, remoteIds, deleted, "");
    IdsSnoc(Group(init, remoteIds, deleted, ""), last);
    assert SharedIds(init, remoteIds, deleted) + [] == SharedIds(init, remoteIds, deleted);
    assert Ids(Group(init, remoteIds, deleted, "")) + [] == Ids(Group(init, remoteIds, deleted, ""));
  }

  lemma LocalOnlyEndsBlocks(init: seq<Message>, last: Message, remoteIds: set<string>, deleted: set<string>)
    requires LocalOnly(last, remoteIds, deleted) && Distinct(SharedIds(init, remoteIds, deleted))
    requires Subsequence(KeptIds(init, deleted),
      Ids(Group(init, remoteIds, deleted, "")) + Blocks(SharedIds(init, remoteIds, deleted), init, remoteIds, deleted))
    ensures Subsequence(KeptIds(init + [last], deleted),
      Ids(Group(init + [last], remoteIds, deleted, ""))
      + Blocks(SharedIds(init + [last], remoteIds, deleted), init + [last], remoteIds, deleted))
  {
    hide Blocks, Group, KeptIds, SharedIds, Subsequence, Ids, LocalOnly, Anchor, Distinct;
    var shared := SharedIds(init, remoteIds, deleted);
    OneMoreLocalOnly(init, last, remoteIds, deleted);
    AnchorIsLastShared(init, remoteIds, deleted);
    var g, b := Ids(Group(init, remoteIds, deleted, "")), Blocks(shared, init, remoteIds, deleted);
    SubsequenceSnoc(KeptIds(init, deleted), g + b, last.id);
    if shared == [] {
      EmptyBlocks(init, remoteIds, deleted);
      EmptyBlocks(init + [last], remoteIds, deleted);
      assert (g + b) + [last.id] == (g + [last.id]) + [];
    } else {
      LastBlockGrows(init, last, shared, remoteIds, deleted);
      OnceOrTwice(KeptIds(init + [last], deleted), g, b, last.id);
      assert g + [] == g;
    }
  }

  lemma OnceOrTwice(kept: seq<string>, g: seq<string>, b: seq<string>, x: string)
    requires Subsequence(kept, (g + b) + [x])
    ensures Subsequence(kept, g + (b + [x])) && Subsequence(kept, (g + [x]) + (b + [x]))
  {
    hide Subsequence;
    assert (g + b) + [x] == g + (b + [x]);
    OneMoreBetween(g, x, b + [x]);
    SubsequenceTransitive(kept, g + (b + [x]), (g + [x]) + (b + [x]));
  }

  lemma OneMoreBetween(a: seq<string>, x: string, b: seq<string>)
    ensures Subsequence(a + b, (a + [x]) + b)
  {
    PrefixIsSubsequence(a, [x]);
    SubsequenceSame(a, a + [x], b);
  }

  lemma LastBlockGrows(init: seq<Message>, last: Message, shared: seq<string>, remoteIds: set<string>,
        deleted: set<string>)
    requires shared != [] && Distinct(shared)
    requires shared[|shared| - 1] == Anchor(init, remoteIds, deleted)
    requires LocalOnly(last, remoteIds, deleted)
    ensures Blocks(shared, init + [last], remoteIds, deleted) == Blocks(shared, init, remoteIds, deleted) + [last.id]
  {
    hide Blocks, Group, Anchor, LocalOnly;
    var local, anchor, before := init + [last], shared[|shared| - 1], shared[..|shared| - 1];
    assert shared == before + [anchor];
    forall a | a in before ensures Group(local, remoteIds, deleted, a) == Group(init, remoteIds, deleted, a) {
      GroupSnoc(init, last, remoteIds, deleted, a);
    }
    GroupSnoc(init, last, remoteIds, deleted, anchor);
    BlocksAgree(before, init, local, remoteIds, deleted);
    BlocksSnoc(before, anchor, init, remoteIds, deleted);
    BlocksSnoc(before, anchor, local, remoteIds, deleted);
    IdsConcat(Group(init, remoteIds, deleted, anchor), [last]);
  }

  lemma EmptyBlocks(local: seq<Message>, remoteIds: set<string>, deleted: set<string>)
    ensures Blocks([], local, remoteIds, deleted) == []
  {
  }

  lemma IdsConcat(a: seq<Message>, b: seq<Message>)
    ensures Ids(a + b) == Ids(a) + Ids(b)
  {
  }

  lemma IdsSnoc(a: seq<Message>, m: Message)
    ensures Ids(a + [m]) == Ids(a) + [m.id]
  {
  }

  lemma IdsOfBlock(a: seq<Message>, m: Message, b: seq<Message>)
    ensures Ids(a + ([m] + b)) == Ids(a) + ([m.id] + Ids(b))
  {
  }

  lemma {:induction false} EmitIsBlocks(remote: seq<Message>, local: seq<Message>, remoteIds: set<string>,
        deleted: set<string>)
    ensures Ids(Emit(remote, local, remoteIds, deleted)) == Blocks(Ids(Dedup(remote)), local, remoteIds, deleted)
    decreases |remote|
  {
    if remote == [] {
      EmptyBlocks(local, remoteIds, deleted);
    } else {
      hide Group, Blocks, IdSet, Emit, Dedup, Ids;
      var init, last := remote[..|remote| - 1], remote[|remote| - 1];
      assert remote == init + [last];
      EmitIsBlocks(init, local, remoteIds, deleted);
      EmitSnoc(init, last, local, remoteIds, deleted);
      DedupSnoc(init, last);
      var d, e, g := Dedup(init), Emit(init, local, remoteIds, deleted), Group(local, remoteIds, deleted, last.id);
      IdsSnoc(d, last);
      IdsOfBlock(e, last, g);
      BlocksSnoc(Ids(d), last.id, local, remoteIds, deleted);
    }
  }

  lemma RetainIds(local: seq<Message>, remote: seq<Message>, deleted: set<string>)
    ensures var remoteIds := IdSet(remote);
      Ids(Retain(local, remote, deleted)) ==
        Ids(Group(local, remoteIds, deleted, "")) + Blocks(Ids(Dedup(remote)), local, remoteIds, deleted)
  {
    EmitIsBlocks(remote, local, IdSet(remote), deleted);
  }

  lemma {:induction false} BlocksOfSubsequence(a: seq<string>, b: seq<string>, local: seq<Message>,
        remoteIds: set<string>, deleted: set<string>)
    requires Subsequence(a, b)
    ensures Subsequence(Blocks(a, local, remoteIds, deleted), Blocks(b, local, remoteIds, deleted))
    decreases |b|
  {
    hide Group;
    if a != [] {
      var a', b', x := a[..|a| - 1], b[..|b| - 1], b[|b| - 1];
      var block := [x] + Ids(Group(local, remoteIds, deleted, x));
      assert b == b' + [x];
      BlocksSnoc(b', x, local, remoteIds, deleted);
      if a[|a| - 1] == x && Subsequence(a', b') {
        assert a == a' + [x];
        BlocksSnoc(a', x, local, remoteIds, deleted);
        BlocksOfSubsequence(a', b', local, remoteIds, deleted);
        SubsequenceSame(Blocks(a', local, remoteIds, deleted), Blocks(b', local, remoteIds, deleted), block);
      } else {
        BlocksOfSubsequence(a, b', local, remoteIds, deleted);
        SubsequenceSkip(Blocks(a, local, remoteIds, deleted), Blocks(b', local, remoteIds, deleted), block);
      }
    }
  }

  lemma {:induction false} GroupIsLocalOnly(local: seq<Message>, remoteIds: set<string>, deleted: set<string>, a: string)
    ensures forall m :: m in Group(local, remoteIds, deleted, a) ==> m in local && LocalOnly(m, remoteIds, deleted)
    decreases |local|
  {
    if local != [] {
      GroupIsLocalOnly(local[..|local| - 1], remoteIds, deleted, a);
    }
  }

  lemma {:induction false} FilterBlocks(anchors: seq<string>, local: seq<Message>, remoteIds: set<string>,
        deleted: set<string>)
    requires forall a :: a in anchors ==> a in remoteIds
    ensures Filter(Blocks(anchors, local, remoteIds, deleted), remoteIds) == anchors
    decreases |anchors|
  {
    if anchors != [] {
      hide Group, LocalOnly, Blocks, Filter;
      var init, last := anchors[..|anchors| - 1], anchors[|anchors| - 1];
      assert anchors == init + [last] && last in anchors;
      assert forall a :: a in init ==> a in anchors;
      FilterBlocks(init, local, remoteIds, deleted);
      BlocksSnoc(init, last, local, remoteIds, deleted);
      FilterBlock(last, local, remoteIds, deleted);
      FilterConcat(Blocks(init, local, remoteIds, deleted), [last] + Ids(Group(local, remoteIds, deleted, last)), remoteIds);
    }
  }

  lemma FilterBlock(a: string, local: seq<Message>, remoteIds: set<string>, deleted: set<string>)
    requires a in remoteIds
    ensures Filter([a] + Ids(Group(local, remoteIds, deleted, a)), remoteIds) == [a]
  {
    hide Group, LocalOnly;
    FilterGroup(local, remoteIds, deleted, a);
    FilterConcat([a], Ids(Group(local, remoteIds, deleted, a)), remoteIds);
    FilterSnoc([], a, remoteIds);
    assert [] + [a] == [a];
  }

  lemma FilterGroup(local: seq<Message>, remoteIds: set<string>, deleted: set<string>, a: string)
    ensures Filter(Ids(Group(local, remoteIds, deleted, a)), remoteIds) == []
  {
    GroupIsLocalOnly(local, remoteIds, deleted, a);
    var g := Group(local, remoteIds, deleted, a);
    assert forall i :: 0 <= i < |g| ==> g[i] in g;
    FilterNone(Ids(g), remoteIds);
  }

  lemma IdsAreInIdSet(ms: seq<Message>)
    ensures forall id :: id in Ids(ms) ==> id in IdSet(ms)
  {
    forall id | id in Ids(ms) ensures id in IdSet(ms) {
      var i :| 0 <= i < |ms| && Ids(ms)[i] == id;
      assert ms[i] in ms;
    }
  }

  /** Restricted to remote ids, the output is the deduplicated remote list: remote order is never disturbed. */
  lemma RemoteOrderKept(local: seq<Message>, remote: seq<Message>, deleted: set<string>)
    ensures Filter(Ids(Retain(local, remote, deleted)), IdSet(remote)) == Ids(Dedup(remote))
  {
    hide Group, Blocks, Retain, Dedup, Filter;
    var remoteIds := IdSet(remote);
    RetainIds(local, remote, deleted);
    DedupIds(remote);
    FilterGroup(local, remoteIds, deleted, "");
    IdsAreInIdSet(Dedup(remote));
    FilterBlocks(Ids(Dedup(remote)), local, remoteIds, deleted);
    FilterConcat(Ids(Group(local, remoteIds, deleted, "")), Blocks(Ids(Dedup(remote)), local, remoteIds, deleted), remoteIds);
  }

  /** The kept local messages keep their order if and only if the shared ones come in the remote order. */
  lemma LocalOrderKept(local: seq<Message>, remote: seq<Message>, deleted: set<string>)
    ensures Subsequence(KeptIds(local, deleted), Ids(Retain(local, remote, deleted)))
       <==> Subsequence(SharedIds(local, IdSet(remote), deleted), Ids(Dedup(remote)))
  {
    hide Group, Blocks, Retain, KeptIds, Subsequence;
    var remoteIds := IdSet(remote);
    var kept, shared, d := KeptIds(local, deleted), SharedIds(local, remoteIds, deleted), Ids(Dedup(remote));
    RemoteOrderKept(local, remote, deleted);
    if Subsequence(kept, Ids(Retain(local, remote, deleted))) {
      SubsequenceFilter(kept, Ids(Retain(local, remote, deleted)), remoteIds);
    }
    if Subsequence(shared, d) {
      DedupIds(remote);
      SubsequenceDistinct(shared, d);
      KeptIdsInBlocks(local, remoteIds, deleted);
      RetainIds(local, remote, deleted);
      BlocksOfSubsequence(shared, d, local, remoteIds, deleted);
      var g := Ids(Group(local, remoteIds, deleted, ""));
      PrefixedSubsequence(g, Blocks(shared, local, remoteIds, deleted), Blocks(d, local, remoteIds, deleted));
      SubsequenceTransitive(kept, g + Blocks(shared, local, remoteIds, deleted), g + Blocks(d, local, remoteIds, deleted));
    }
  }

  lemma SubsequenceCases(a: seq<string>, b: seq<string>)
    requires Subsequence(a, b) && a != []
    ensures b != []
    ensures (a[|a| - 1] == b[|b| - 1] && Subsequence(a[..|a| - 1], b[..|b| - 1])) || Subsequence(a, b[..|b| - 1])
  {
  }

  lemma {:induction false} PrefixedSubsequence(p: seq<string>, a: seq<string>, b: seq<string>)
    requires Subsequence(a, b)
    ensures Subsequence(p + a, p + b)
    decreases |b|
  {
    hide Subsequence;
    if a == [] {
      PrefixIsSubsequence(p, b);
      assert p + a == p;
    } else {
      SubsequenceCases(a, b);
      var a', b', x := a[..|a| - 1], b[..|b| - 1], b[|b| - 1];
      assert p + b == (p + b') + [x];
      if a[|a| - 1] == x && Subsequence(a', b') {
        PrefixedSubsequence(p, a', b');
        SubsequenceSnoc(p + a', p + b', x);
        assert p + a == (p + a') + [x];
      } else {
        PrefixedSubsequence(p, a, b');
        SubsequenceSnoc(p + a, p + b', x);
      }
    }
  }

  lemma PrefixIsSubsequence(p: seq<string>, b: seq<string>)
    ensures Subsequence(p, p + b)
  {
    hide Subsequence;
    EmptySubsequence([]);
    SubsequenceSame([], [], p);
    assert [] + p == p;
    SubsequenceSkip(p, p, b);
  }

  lemma EmptySubsequence(b: seq<string>)
    ensures Subsequence([], b)
  {
  }

  // ---- Merging again --------------------------------------------------------------------------

  lemma {:induction false} GroupAppend(x: seq<Message>, y: seq<Message>, remoteIds: set<string>,
        deleted: set<string>, a: string)
    requires forall m :: m in y ==> LocalOnly(m, remoteIds, deleted)
    ensures Group(x + y, remoteIds, deleted, a) ==
      if Anchor(x, remoteIds, deleted) == a then Group(x, remoteIds, deleted, a) + y else Group(x, remoteIds, deleted, a)
    ensures Anchor(x + y, remoteIds, deleted) == Anchor(x, remoteIds, deleted)
    decreases |y|
  {
    hide Group, Anchor, LocalOnly;
    if y == [] {
      assert x + y == x && Group(x, remoteIds, deleted, a) + y == Group(x, remoteIds, deleted, a);
    } else {
      var init, last := y[..|y| - 1], y[|y| - 1];
      assert last in y && forall m :: m in init ==> m in y;
      assert x + y == (x + init) + [last] && y == init + [last];
      GroupAppend(x, init, remoteIds, deleted, a);
      GroupSnoc(x + init, last, remoteIds, deleted, a);
      LocalOnlyIsNotShared(last, remoteIds, deleted);
      assert (Group(x, remoteIds, deleted, a) + init) + [last] == Group(x, remoteIds, deleted, a) + y;
    }
  }

  lemma LocalOnlyIsNotShared(m: Message, remoteIds: set<string>, deleted: set<string>)
    ensures LocalOnly(m, remoteIds, deleted) ==> !Shared(m, remoteIds, deleted)
  {
  }

  /** Grouping a merged list again finds the groups it was merged from. */
  lemma {:induction false} GroupsOfMerged(remote: seq<Message>, local: seq<Message>, remoteIds: set<string>,
        deleted: set<string>, a: string)
    requires "" !in remoteIds || Group(local, remoteIds, deleted, "") == []
    requires forall m :: m in remote ==> Shared(m, remoteIds, deleted)
    ensures Group(Group(local, remoteIds, deleted, "") + Emit(remote, local, remoteIds, deleted), remoteIds, deleted, a) ==
      if a == "" || a in IdSet(remote) then Group(local, remoteIds, deleted, a) else []
    decreases |remote|
  {
    var g := Group(local, remoteIds, deleted, "");
    if remote == [] {
      assert [] + g == g && g + [] == g;
      GroupIsLocalOnly(local, remoteIds, deleted, "");
      GroupAppend([], g, remoteIds, deleted, a);
    } else {
      var init, last := remote[..|remote| - 1], remote[|remote| - 1];
      assert remote == init + [last] && last in remote;
      GroupsOfMerged(init, local, remoteIds, deleted, a);
      BlockGroups(init, last, local, remoteIds, deleted, a);
    }
  }

  lemma BlockGroups(init: seq<Message>, last: Message, local: seq<Message>, remoteIds: set<string>,
        deleted: set<string>, a: string)
    requires ("" !in remoteIds || Group(local, remoteIds, deleted, "") == []) && Shared(last, remoteIds, deleted)
    requires Group(Group(local, remoteIds, deleted, "") + Emit(init, local, remoteIds, deleted), remoteIds, deleted, a) ==
      if a == "" || a in IdSet(init) then Group(local, remoteIds, deleted, a) else []
    ensures Group(Group(local, remoteIds, deleted, "") + Emit(init + [last], local, remoteIds, deleted), remoteIds, deleted, a) ==
      if a == "" || a in IdSet(init + [last]) then Group(local, remoteIds, deleted, a) else []
  {
    hide Group, Emit, IdSet;
    EmitSnoc(init, last, local, remoteIds, deleted);
    IdSetSnoc(init, last);
    if last.id !in IdSet(init) {
      var g, e := Group(local, remoteIds, deleted, ""), Emit(init, local, remoteIds, deleted);
      var block := Group(local, remoteIds, deleted, last.id);
      AppendBlock(g, e, [last], block);
      GroupSnoc(g + e, last, remoteIds, deleted, a);
      GroupIsLocalOnly(local, remoteIds, deleted, last.id);
      GroupAppend((g + e) + [last], block, remoteIds, deleted, a);
    }
  }

  lemma {:induction false} EmitAgrees(remote: seq<Message>, l1: seq<Message>, l2: seq<Message>,
        remoteIds: set<string>, deleted: set<string>)
    requires forall m :: m in remote ==> Group(l1, remoteIds, deleted, m.id) == Group(l2, remoteIds, deleted, m.id)
    ensures Emit(remote, l1, remoteIds, deleted) == Emit(remote, l2, remoteIds, deleted)
    decreases |remote|
  {
    if remote != [] {
      assert remote[|remote| - 1] in remote;
      assert forall m :: m in remote[..|remote| - 1] ==> m in remote;
      EmitAgrees(remote[..|remote| - 1], l1, l2, remoteIds, deleted);
    }
  }

  lemma {:induction false} LocalOnlyCounted(ms: seq<Message>, remoteIds: set<string>, deleted: set<string>, x: Message)
    requires LocalOnly(x, remoteIds, deleted)
    ensures multiset(LocalOnlyOf(ms, remoteIds, deleted))[x] == multiset(ms)[x]
    decreases |ms|
  {
    hide LocalOnly;
    if ms != [] {
      var init, last := ms[..|ms| - 1], ms[|ms| - 1];
      assert ms == init + [last];
      LocalOnlyCounted(init, remoteIds, deleted, x);
    }
  }

  lemma {:induction false} GroupOnlyGrows(x: seq<Message>, y: seq<Message>, remoteIds: set<string>, deleted: set<string>,
        a: string)
    ensures Group(x, remoteIds, deleted, a) <= Group(x + y, remoteIds, deleted, a)
    decreases |y|
  {
    hide Group, Anchor, LocalOnly;
    if y == [] {
      assert x + y == x;
    } else {
      var init, last := y[..|y| - 1], y[|y| - 1];
      assert x + y == (x + init) + [last];
      GroupOnlyGrows(x, init, remoteIds, deleted, a);
      GroupSnoc(x + init, last, remoteIds, deleted, a);
    }
  }

  lemma UnanchoredAgain(local: seq<Message>, rest: seq<Message>, remoteIds: set<string>, deleted: set<string>)
    ensures var g := Group(local, remoteIds, deleted, "");
      g <= Group(g + rest, remoteIds, deleted, "") && forall m :: m in g ==> LocalOnly(m, remoteIds, deleted)
  {
    var g := Group(local, remoteIds, deleted, "");
    GroupIsLocalOnly(local, remoteIds, deleted, "");
    assert [] + g == g;
    GroupAppend([], g, remoteIds, deleted, "");
    GroupOnlyGrows(g, rest, remoteIds, deleted, "");
  }

  /** Merging again repeats the unanchored messages once more. */
  lemma MergeGrows(local: seq<Message>, remote: seq<Message>, deleted: set<string>)
    requires "" in IdSet(remote) && Group(local, IdSet(remote), deleted, "") != []
    ensures Retain(Retain(local, remote, deleted), remote, deleted) != Retain(local, remote, deleted)
  {
    hide Group, Emit, LocalOnlyOf, Dedup;
    var remoteIds, merged := IdSet(remote), Retain(local, remote, deleted);
    var g := Group(local, remoteIds, deleted, "");
    UnanchoredAgain(local, Emit(remote, local, remoteIds, deleted), remoteIds, deleted);
    assert g[0] in g && g[0] == Group(merged, remoteIds, deleted, "")[0];
    assert multiset(Group(merged, remoteIds, deleted, ""))[g[0]] > 0;
    LocalOnlyCounted(merged, remoteIds, deleted, g[0]);
    hide Retain, LocalOnly;
    MergeConserves(merged, remote, deleted);
    assert multiset(Retain(merged, remote, deleted))[g[0]] > multiset(merged)[g[0]];
  }

  /** Merging the result with the same remote list again changes nothing, if and only if all remote ids are
      non-empty or nothing local-only precedes the anchors. */
  lemma MergeIdempotent(local: seq<Message>, remote: seq<Message>, deleted: set<string>)
    requires forall m :: m in remote ==> Kept(m, deleted)
    ensures Retain(Retain(local, remote, deleted), remote, deleted) == Retain(local, remote, deleted)
       <==> ("" !in IdSet(remote) || Group(local, IdSet(remote), deleted, "") == [])
  {
    hide Group, Emit;
    var remoteIds, merged := IdSet(remote), Retain(local, remote, deleted);
    if "" in remoteIds && Group(local, remoteIds, deleted, "") != [] {
      MergeGrows(local, remote, deleted);
    } else {
      forall a ensures Group(merged, remoteIds, deleted, a) ==
        if a == "" || a in remoteIds then Group(local, remoteIds, deleted, a) else []
      {
        GroupsOfMerged(remote, local, remoteIds, deleted, a);
      }
      EmitAgrees(remote, merged, local, remoteIds, deleted);
    }
  }
}
