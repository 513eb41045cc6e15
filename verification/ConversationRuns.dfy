/** The conversation store as a value and as a machine of operations, with what every run of them keeps
    (internal/app/conversations.go:546-1358, internal/app/conversation_message_delete.go:9-93). */
module ConversationRuns {
  import opened Wrappers
  import opened Text
  import opened TranscriptMerge
  import opened MessageDeletion
  import opened ConversationEntries
  import opened Orders
  import opened RecencyList

  const CAPACITY := 1000
  const MAX_TITLE_RUNES := 72
  const MAX_MESSAGE_RUNES := 200000

  datatype Store = Store(items: map<string, Entry>, order: seq<string>)

  datatype Op =
    | Create(id: string, spareId: string, request: TurnRequest, ids: seq<string>)
    | Continue(id: string, request: TurnRequest, messageId: string)
    | SetEnvelope(id: string, responseId: string, completionId: string)
    | AppendDelta(id: string, delta: string, messageId: string)
    | Complete(id: string, result: TurnResult, messageId: string)
    | Fail(id: string, error: string)
    | Remove(id: string)
    | SetTarget(id: string, threadId: string, accountEmail: string, spaceId: string)
    | SetTitle(id: string, title: string)
    | SetContent(id: string, messageId: string, content: string, at: int)
    | DeleteOne(id: string, messageId: string)
    | Claim(id: string)
    | Restore(id: string, status: string)
    | Import(id: string, entry: Entry)
    | Load(id: string, entry: Entry)

  // ---- The store ------------------------------------------------------------------------------

  /** Trimming may not evict a conversation with a turn in flight or a deletion claim. */
  predicate Protected(e: Entry) {
    Busy(e.core.status) || e.core.status == "deleting"
  }

  function ProtectedIds(items: map<string, Entry>): set<string> {
    set id | id in items && Protected(items[id])
  }

  function Trim1000(s: Store): Store {
    var kept := Trimmed(s.order, ProtectedIds(s.items), CAPACITY);
    Store(map id | id in s.items && (id in s.order ==> id in kept) :: s.items[id], kept)
  }

  function Put(s: Store, id: string, e: Entry): Store {
    s.(items := s.items[id := e])
  }

  /** Publishes an entry and brings it to the front. */
  function Publish(s: Store, id: string, e: Entry): Store {
    Store(s.items[id := e], ToFront(s.order, id))
  }

  // ---- Operations -----------------------------------------------------------------------------

  function CreateId(s: Store, id: string, spareId: string): string {
    if id in s.items then spareId else id
  }

  function CreateIn(s: Store, id: string, spareId: string, request: TurnRequest, ids: seq<string>): Store
    requires IdsFor(request, ids)
  {
    var key := CreateId(s, id, spareId);
    Trim1000(Store(s.items[key := Created(request, ids)], [key] + s.order))
  }

  /** A turn may start only on a conversation that has none in flight and is not being deleted. */
  predicate MayContinue(s: Store, id: string) {
    id in s.items && !Busy(s.items[id].core.status) && LowerAscii(Trim(s.items[id].core.status)) != "deleting"
  }

  predicate StartsTurn(s: Store, op: Op) {
    op.Continue? && MayContinue(s, op.id) && !op.request.replay
  }

  predicate MayEdit(s: Store, id: string) {
    Trim(id) != "" && Trim(id) in s.items && !Busy(s.items[Trim(id)].core.status)
  }

  function SetContentIn(s: Store, id: string, messageId: string, content: string, at: int): Store {
    if !MayEdit(s, id) || Trim(messageId) == "" || |content| > MAX_MESSAGE_RUNES then s
    else
      var e := s.items[Trim(id)];
      var i := IndexOfEdited(e.core.messages, Trim(messageId));
      if i < 0 then s else Put(s, Trim(id), WithContent(e, i, content, at))
  }

  function DeleteOneIn(s: Store, id: string, messageId: string): Store {
    if Trim(id) !in s.items then s
    else
      var e := s.items[Trim(id)];
      var r := Delete(e.core, messageId);
      if r.Ok? then Put(s, Trim(id), Refreshed(e.(core := r.value))) else s
  }

  /** A conversation that enters from outside the running store: brought to the front, then trimmed. */
  function Insert(s: Store, id: string, e: Entry): Store {
    Trim1000(Publish(s, id, e))
  }

  function Apply(s: Store, op: Op): Store {
    match op
    case Create(id, spareId, request, ids) =>
      if IdsFor(request, ids) && spareId !in s.items
      then CreateIn(s, id, spareId, request, ids) else s
    case Continue(id, request, messageId) =>
      if StartsTurn(s, op) then Publish(s, id, Continued(s.items[id], request, messageId)) else s
    case SetEnvelope(id, responseId, completionId) =>
      if id in s.items then Publish(s, id, WithEnvelope(s.items[id], responseId, completionId)) else s
    case AppendDelta(id, delta, messageId) =>
      if TrimRightCarriage(delta) != "" && id in s.items && Busy(s.items[id].core.status)
      then Publish(s, id, WithDelta(s.items[id], TrimRightCarriage(delta), messageId)) else s
    case Complete(id, result, messageId) =>
      if id in s.items && !result.cachedReplay then Publish(s, id, Completed(s.items[id], result, messageId)) else s
    case Fail(id, error) =>
      if id in s.items then Publish(s, id, Failed(s.items[id], error)) else s
    case Remove(id) =>
      if id in s.items && s.items[id].core.status != "running" then Store(s.items - {id}, Without(s.order, id)) else s
    case SetTarget(id, threadId, accountEmail, spaceId) =>
      if Trim(id) != "" && Trim(threadId) != "" && Trim(id) in s.items && Busy(s.items[Trim(id)].core.status)
      then Put(s, Trim(id), WithTarget(s.items[Trim(id)], Trim(threadId), Trim(accountEmail), spaceId)) else s
    case SetTitle(id, title) =>
      var clean := CollapseWhitespace(title);
      if MayEdit(s, id) && clean != "" && |clean| <= MAX_TITLE_RUNES
      then Put(s, Trim(id), s.items[Trim(id)].(title := clean)) else s
    case SetContent(id, messageId, content, at) => SetContentIn(s, id, messageId, content, at)
    case DeleteOne(id, messageId) => DeleteOneIn(s, id, messageId)
    case Claim(id) =>
      if MayEdit(s, id) then Put(s, Trim(id), WithStatus(s.items[Trim(id)], "deleting")) else s
    case Restore(id, status) =>
      if Trim(id) != "" && Trim(status) != "" && Trim(id) in s.items
      then Put(s, Trim(id), WithStatus(s.items[Trim(id)], Trim(status))) else s
    case Import(id, entry) =>
      if id in s.items then s else Insert(s, id, Refreshed(entry))
    case Load(id, entry) =>
      if id in s.items then s else Insert(s, id, Interrupted(entry))
  }

  function Run(s: Store, ops: seq<Op>): Store
    decreases |ops|
  {
    if ops == [] then s else Run(Apply(s, ops[0]), ops[1..])
  }

  // ---- The invariant --------------------------------------------------------------------------

  /** The recency list has no duplicates, all its ids have entries, and no entry's cached preview is stale. */
  ghost predicate Inv(s: Store) {
    && Distinct(s.order)
    && (forall id :: id in s.order ==> id in s.items)
    && (forall id :: id in s.items ==> s.items[id].preview == Preview(s.items[id].core.messages))
  }

  lemma PutKeepsInv(s: Store, id: string, e: Entry)
    requires Inv(s) && id in s.items && e.preview == Preview(e.core.messages)
    ensures Inv(Put(s, id, e))
  {
    hide Preview, Distinct;
  }

  lemma PublishKeepsInv(s: Store, id: string, e: Entry)
    requires Inv(s) && e.preview == Preview(e.core.messages)
    ensures Inv(Publish(s, id, e))
  {
    hide Preview, Distinct, Without;
    ToFrontDistinct(s.order, id);
    assert s.order == [] ==> ToFront(s.order, id) == s.order;
  }

  /** Trimming evicts from the end of the list only conversations that are neither running nor being
      deleted, as many as it takes or as there are, and touches no other entry. */
  lemma TrimIsExact(s: Store)
    requires Distinct(s.order) && forall id :: id in s.order ==> id in s.items
    ensures var s' := Trim1000(s);
      && Distinct(s'.order) && Subsequence(s'.order, s.order)
      && (forall id :: id in s'.order ==> id in s'.items)
      && (forall id :: id in s.items && (Protected(s.items[id]) || id !in s.order) ==> id in s'.items)
      && (forall id :: id in s'.items ==> id in s.items && s'.items[id] == s.items[id])
      && (|s'.order| > 1000 ==> forall id :: id in s'.order ==> Protected(s.items[id]))
      && (|s.order| <= 1000 ==> s' == s)
      && (|s.order| > 1000 ==> |s'.order| >= 1000)
  {
    hide Trimmed, Subsequence, Distinct, Protected;
    TrimEvictsExactly(s.order, ProtectedIds(s.items), CAPACITY);
    SubsequenceDistinct(Trimmed(s.order, ProtectedIds(s.items), CAPACITY), s.order);
  }

  /** The evicted conversations are the least recent of the evictable ones. */
  lemma TrimEvictsLeastRecent(s: Store, i: nat, j: nat)
    requires Distinct(s.order) && forall id :: id in s.order ==> id in s.items
    requires i < j < |s.order|
    requires s.order[i] !in Trim1000(s).items && s.order[j] in Trim1000(s).items
    ensures Protected(s.items[s.order[j]])
  {
    hide Trimmed, Subsequence, Distinct, Protected;
    TrimEvictsExactly(s.order, ProtectedIds(s.items), CAPACITY);
  }

  lemma TrimKeepsInv(s: Store)
    requires Inv(s)
    ensures Inv(Trim1000(s))
  {
    hide Trim1000, Preview, Subsequence, Distinct;
    TrimIsExact(s);
  }

  lemma CreateKeepsInv(s: Store, id: string, spareId: string, request: TurnRequest, ids: seq<string>)
    requires Inv(s) && IdsFor(request, ids) && spareId !in s.items
    ensures Inv(CreateIn(s, id, spareId, request, ids))
  {
    hide Trim1000, Preview, OpeningMessages, Distinct, IdsFor;
    var key := CreateId(s, id, spareId);
    DistinctCons(key, s.order);
    TrimKeepsInv(Store(s.items[key := Created(request, ids)], [key] + s.order));
  }

  lemma InsertKeepsInv(s: Store, id: string, e: Entry)
    requires Inv(s) && e.preview == Preview(e.core.messages)
    ensures Inv(Insert(s, id, e))
  {
    hide Inv, Trim1000, Publish;
    PublishKeepsInv(s, id, e);
    TrimKeepsInv(Publish(s, id, e));
  }

  lemma RemoveKeepsInv(s: Store, id: string)
    requires Inv(s)
    ensures Inv(Store(s.items - {id}, Without(s.order, id)))
  {
    hide Preview, Without, Distinct;
    WithoutDistinct(s.order, id);
    WithoutMembers(s.order, id);
  }

  lemma InvGives(s: Store, id: string)
    requires Inv(s) && id in s.items
    ensures s.items[id].preview == Preview(s.items[id].core.messages)
  {
  }

  /** Every operation keeps the list free of duplicates and within the entries, and every preview fresh. */
  lemma EveryOperationKeepsInv(s: Store, op: Op)
    requires Inv(s)
    ensures Inv(Apply(s, op))
  {
    hide Inv, Publish, Put, CreateIn, Insert, Preview, Trim, Busy, CollapseWhitespace, TrimRightCarriage, Without,
      Continued, Delete, IndexOfEdited, WithDelta, Completed, Failed, Interrupted, LowerAscii, IdsFor;
    match op
    case Create(id, spareId, request, ids) =>
      if IdsFor(request, ids) && spareId !in s.items {
        CreateKeepsInv(s, id, spareId, request, ids);
      }
    case Remove(id) => RemoveKeepsInv(s, id);
    case Import(id, entry) => InsertKeepsInv(s, id, Refreshed(entry));
    case Load(id, entry) => LoadedIsFresh(entry); InsertKeepsInv(s, id, Interrupted(entry));
    case SetTarget(id, threadId, accountEmail, spaceId) =>
      if Trim(id) in s.items {
        InvGives(s, Trim(id));
        PutKeepsInv(s, Trim(id), WithTarget(s.items[Trim(id)], Trim(threadId), Trim(accountEmail), spaceId));
      }
    case SetTitle(id, title) =>
      if Trim(id) in s.items {
        InvGives(s, Trim(id));
        PutKeepsInv(s, Trim(id), s.items[Trim(id)].(title := CollapseWhitespace(title)));
      }
    case Claim(id) =>
      if Trim(id) in s.items {
        InvGives(s, Trim(id));
        PutKeepsInv(s, Trim(id), WithStatus(s.items[Trim(id)], "deleting"));
      }
    case Restore(id, status) =>
      if Trim(id) in s.items {
        InvGives(s, Trim(id));
        PutKeepsInv(s, Trim(id), WithStatus(s.items[Trim(id)], Trim(status)));
      }
    case SetContent(id, messageId, content, at) => SetContentKeepsInv(s, id, messageId, content, at);
    case DeleteOne(id, messageId) => DeleteOneKeepsInv(s, id, messageId);
    case Continue(id, request, messageId) =>
      if id in s.items {
        ContinuedIsFresh(s.items[id], request, messageId);
        PublishKeepsInv(s, id, Continued(s.items[id], request, messageId));
      }
    case SetEnvelope(id, responseId, completionId) =>
      if id in s.items {
        PublishKeepsInv(s, id, WithEnvelope(s.items[id], responseId, completionId));
      }
    case AppendDelta(id, delta, messageId) =>
      if id in s.items {
        TurnsAreFresh(s.items[id], TrimRightCarriage(delta), messageId, "");
        PublishKeepsInv(s, id, WithDelta(s.items[id], TrimRightCarriage(delta), messageId));
      }
    case Complete(id, result, messageId) =>
      if id in s.items {
        CompletedIsFresh(s.items[id], result, messageId);
        PublishKeepsInv(s, id, Completed(s.items[id], result, messageId));
      }
    case Fail(id, error) =>
      if id in s.items {
        TurnsAreFresh(s.items[id], "", "", error);
        PublishKeepsInv(s, id, Failed(s.items[id], error));
      }
  }

  lemma LoadedIsFresh(e: Entry)
    ensures Interrupted(e).preview == Preview(Interrupted(e).core.messages)
  {
    hide Preview, Busy;
  }

  lemma ContinuedIsFresh(e: Entry, request: TurnRequest, id: string)
    ensures Continued(e, request, id).preview == Preview(Continued(e, request, id).core.messages)
  {
    hide Preview, ContinuedMessages, Trim;
  }

  lemma TurnsAreFresh(e: Entry, delta: string, id: string, error: string)
    ensures WithDelta(e, delta, id).preview == Preview(WithDelta(e, delta, id).core.messages)
    ensures Failed(e, error).preview == Preview(Failed(e, error).core.messages)
  {
    hide Preview, DeltaMessages, CloseAnswer, Trim;
  }

  lemma CompletedIsFresh(e: Entry, result: TurnResult, id: string)
    ensures Completed(e, result, id).preview == Preview(Completed(e, result, id).core.messages)
  {
    hide Preview, CompletedMessages, Trim;
  }

  lemma SetContentKeepsInv(s: Store, id: string, messageId: string, content: string, at: int)
    requires Inv(s)
    ensures Inv(SetContentIn(s, id, messageId, content, at))
  {
    hide Inv, Put, Preview, Trim, Busy;
    if MayEdit(s, id) {
      var e := s.items[Trim(id)];
      var i := IndexOfEdited(e.core.messages, Trim(messageId));
      if i >= 0 {
        PutKeepsInv(s, Trim(id), WithContent(e, i, content, at));
      }
    }
  }

  lemma DeleteOneKeepsInv(s: Store, id: string, messageId: string)
    requires Inv(s)
    ensures Inv(DeleteOneIn(s, id, messageId))
  {
    hide Inv, Put, Preview, Trim, Delete;
    if Trim(id) in s.items {
      var e := s.items[Trim(id)];
      var r := Delete(e.core, messageId);
      if r.Ok? {
        PutKeepsInv(s, Trim(id), Refreshed(e.(core := r.value)));
      }
    }
  }

  lemma {:induction false} EveryRunKeepsInv(s: Store, ops: seq<Op>)
    requires Inv(s)
    ensures Inv(Run(s, ops))
    decreases |ops|
  {
    hide Inv, Apply;
    if ops != [] {
      EveryOperationKeepsInv(s, ops[0]);
      EveryRunKeepsInv(Apply(s, ops[0]), ops[1..]);
    }
  }
}
