/** The conversation store as the source runs it: an entry map, a recency list updated in place, append
    buffers for the answers being streamed, and previews that freeze once full. Every method is proved to
    do what the operation of the same name does to the plain store of ConversationRuns
    (internal/app/conversations.go:546-1358, internal/app/conversation_message_delete.go:9-93). */
module ConversationStore {
  import opened Wrappers
  import opened Text
  import opened TranscriptMerge
  import opened MessageDeletion
  import opened ConversationEntries
  import opened Orders
  import opened RecencyList
  import opened RecencyArray
  import opened ConversationRuns
  import opened ConversationTurns
  import opened ConversationBuffers

  datatype StoreError = NotFound | InProgress | BeingDeleted | Invalid | NotSaved

  // ---- Trimming, one position at a time -------------------------------------------------------

  function Excess(order: seq<string>): nat {
    if |order| > CAPACITY then |order| - CAPACITY else 0
  }

  lemma KeepStep(order: seq<string>, keep: set<string>, i: nat, n: nat)
    requires i < |order| && order[i] in keep
    ensures DropOldest(order[..i + 1], keep, n) + order[i + 1..] == DropOldest(order[..i], keep, n) + order[i..]
  {
    assert order[..i + 1][..i] == order[..i];
    assert order[i..] == [order[i]] + order[i + 1..];
    if n != 0 {
      assert DropOldest(order[..i + 1], keep, n) == DropOldest(order[..i], keep, n) + [order[i]];
    }
  }

  lemma DropStep(order: seq<string>, keep: set<string>, i: nat, n: nat, rest: seq<string>)
    requires i < |order| && order[i] !in keep && n > 0 && rest == order[..i] + order[i + 1..]
    ensures DropOldest(order[..i + 1], keep, n) + order[i + 1..] == DropOldest(rest[..i], keep, n - 1) + rest[i..]
  {
    assert order[..i + 1][..i] == order[..i];
    assert rest[..i] == order[..i] && rest[i..] == order[i + 1..];
  }

  lemma NoMoreDrops(order: seq<string>, keep: set<string>, i: nat, n: nat)
    requires i <= |order| && (n == 0 || i == 0)
    ensures DropOldest(order[..i], keep, n) + order[i..] == order
  {
  }

  /** How far the trimming of s0 is when s is left and the positions from i on have been looked at. */
  ghost predicate Trimming(s0: Store, s: Store, i: nat) {
    && i <= |s.order| && Distinct(s.order)
    && DropOldest(s0.order, ProtectedIds(s0.items), Excess(s0.order))
       == DropOldest(s.order[..i], ProtectedIds(s0.items), Excess(s.order)) + s.order[i..]
    && (forall id :: id in s.items <==> id in s0.items && (id in s0.order ==> id in s.order))
    && (forall id :: id in s.items ==> s.items[id] == s0.items[id])
    && (forall id :: id in s.order ==> id in s0.order && id in s.items)
  }

  lemma TrimmingStarts(s: Store)
    requires Distinct(s.order) && forall id :: id in s.order ==> id in s.items
    ensures Trimming(s, s, |s.order|)
  {
    hide DropOldest, Distinct;
    assert s.order[..|s.order|] == s.order && s.order[|s.order|..] == [];
  }

  lemma TrimmingKeeps(s0: Store, s: Store, i: nat)
    requires i < |s.order| && Trimming(s0, s, i + 1) && s.order[i] in s.items && Protected(s.items[s.order[i]])
    ensures Trimming(s0, s, i)
  {
    hide DropOldest, Distinct, Protected;
    KeepStep(s.order, ProtectedIds(s0.items), i, Excess(s.order));
  }

  lemma TrimmingEvicts(s0: Store, s: Store, i: nat, rest: seq<string>)
    requires i < |s.order| && Trimming(s0, s, i + 1) && s.order[i] in s.items && !Protected(s.items[s.order[i]])
    requires |s.order| > CAPACITY && rest == s.order[..i] + s.order[i + 1..]
    ensures Trimming(s0, Store(s.items - {s.order[i]}, rest), i)
  {
    hide DropOldest, Distinct, Protected, Without;
    DropStep(s.order, ProtectedIds(s0.items), i, Excess(s.order), rest);
    WithoutAt(s.order, i);
    WithoutMembers(s.order, s.order[i]);
    WithoutDistinct(s.order, s.order[i]);
  }

  lemma TrimmedIdsHaveEntries(s0: Store, s: Store, i: nat)
    requires Trimming(s0, s, i)
    ensures forall id :: id in s.order ==> id in s.items
  {
  }

  lemma TrimmingEnds(s0: Store, s: Store, i: nat)
    requires Trimming(s0, s, i) && (|s.order| <= CAPACITY || i == 0)
    ensures s == Trim1000(s0)
  {
    hide DropOldest, Distinct, Protected;
    NoMoreDrops(s.order, ProtectedIds(s0.items), i, Excess(s.order));
    assert s.items == Trim1000(s0).items;
  }

  class ConversationStore {
    var items: map<string, Entry>
    var streams: Buffers
    const order: OrderList

    ghost predicate Valid()
      reads this, order, order.cells
    {
      order.Valid() && Inv(Value()) && BuffersAgree(items, streams)
    }

    /** The plain store this one represents. */
    ghost function Value(): Store
      requires order.Valid()
      reads this, order, order.cells
    {
      Store(items, order.Ids())
    }

    constructor ()
      ensures Valid() && Value() == Store(map[], []) && fresh(order) && fresh(order.cells)
    {
      items, streams := map[], map[];
      order := new OrderList();
    }

    method Publish(id: string, e: Entry)
      requires order.Valid()
      modifies `items, order, order.cells
      ensures order.Valid() && Value() == ConversationRuns.Publish(old(Value()), id, e)
      ensures order.cells == old(order.cells) || fresh(order.cells)
    {
      items := items[id := e];
      order.MoveToFront(id);
    }

    /** trimLocked */
    method TrimEntries()
      requires order.Valid() && forall id :: id in order.Ids() ==> id in items
      modifies `items, order, order.cells
      ensures order.Valid() && Value() == Trim1000(old(Value()))
      ensures order.cells == old(order.cells)
    {
      hide Trimming, Protected, Distinct;
      ghost var before := Value();
      var i: nat := order.count;
      TrimmingStarts(before);
      while order.count > CAPACITY && i > 0
        invariant order.Valid() && order.cells == old(order.cells) && i <= order.count
        invariant Trimming(before, Value(), i)
        decreases i
      {
        i := i - 1;
        var id := order.cells[i];
        ghost var now := Value();
        assert now.order[i] == id;
        TrimmedIdsHaveEntries(before, now, i + 1);
        if Protected(items[id]) {
          TrimmingKeeps(before, now, i);
        } else {
          items := items - {id};
          order.RemoveAt(i);
          TrimmingEvicts(before, now, i, order.Ids());
        }
      }
      TrimmingEnds(before, Value(), i);
    }

    // ---- Turns --------------------------------------------------------------------------------

    method Create(id: string, spareId: string, request: TurnRequest, ids: seq<string>) returns (key: string)
      requires Valid() && IdsFor(request, ids) && spareId !in items
      modifies this, order, order.cells
      ensures Valid() && Value() == Apply(old(Value()), Op.Create(id, spareId, request, ids))
      ensures streams == NextBuffers(old(Value()), old(streams), Op.Create(id, spareId, request, ids))
      ensures order.cells == old(order.cells) || fresh(order.cells)
      ensures key !in old(items) && key == CreateId(old(Value()), id, spareId)
    {
      hide Created, Trim1000, Preview, BuffersAgree, IdsFor, Inv;
      EveryOperationKeepsInv(Value(), Op.Create(id, spareId, request, ids));
      OperationKeepsAgreement(Value(), streams, Op.Create(id, spareId, request, ids));
      InvParts(Value());
      key := if id in items then spareId else id;
      items := items[key := Created(request, ids)];
      order.Prepend(key);
      TrimEntries();
    }

    method Continue(id: string, request: TurnRequest, messageId: string) returns (r: Result<Entry, StoreError>)
      requires Valid()
      modifies this, order, order.cells
      ensures Valid() && Value() == Apply(old(Value()), Op.Continue(id, request, messageId))
      ensures streams == NextBuffers(old(Value()), old(streams), Op.Continue(id, request, messageId))
      ensures order.cells == old(order.cells) || fresh(order.cells)
      ensures r.Ok? <==> MayContinue(old(Value()), id)
      ensures r.Err? ==> r.error == if id !in old(items) then NotFound
        else if Busy(old(items)[id].core.status) then InProgress else BeingDeleted
    {
      hide Continued, Preview, BuffersAgree, Inv, Trim, LowerAscii, Without;
      EveryOperationKeepsInv(Value(), Op.Continue(id, request, messageId));
      OperationKeepsAgreement(Value(), streams, Op.Continue(id, request, messageId));
      if id !in items {
        return Err(NotFound);
      }
      var current := items[id];
      if Busy(current.core.status) {
        return Err(InProgress);
      }
      if LowerAscii(Trim(current.core.status)) == "deleting" {
        return Err(BeingDeleted);
      }
      if request.replay {
        return Ok(current);
      }
      streams := streams - {id};
      var next := Continued(current, request, messageId);
      Publish(id, next);
      return Ok(next);
    }

    method SetEnvelopeIds(id: string, responseId: string, completionId: string)
      requires Valid()
      modifies this, order, order.cells
      ensures Valid() && Value() == Apply(old(Value()), Op.SetEnvelope(id, responseId, completionId))
      ensures streams == NextBuffers(old(Value()), old(streams), Op.SetEnvelope(id, responseId, completionId))
      ensures order.cells == old(order.cells) || fresh(order.cells)
    {
      hide Preview, Inv, Trim, Without, CollapseWhitespace, Busy, BuffersAgree;
      EveryOperationKeepsInv(Value(), Op.SetEnvelope(id, responseId, completionId));
      OperationKeepsAgreement(Value(), streams, Op.SetEnvelope(id, responseId, completionId));
      if id in items {
        Publish(id, WithEnvelope(items[id], responseId, completionId));
      }
    }

    method Complete(id: string, result: TurnResult, messageId: string)
      requires Valid()
      modifies this, order, order.cells
      ensures Valid() && Value() == Apply(old(Value()), Op.Complete(id, result, messageId))
      ensures streams == NextBuffers(old(Value()), old(streams), Op.Complete(id, result, messageId))
      ensures order.cells == old(order.cells) || fresh(order.cells)
    {
      hide Preview, Inv, Completed, Without, BuffersAgree;
      EveryOperationKeepsInv(Value(), Op.Complete(id, result, messageId));
      OperationKeepsAgreement(Value(), streams, Op.Complete(id, result, messageId));
      if result.cachedReplay {
        return;
      }
      if id in items {
        streams := streams - {id};
        Publish(id, Completed(items[id], result, messageId));
      }
    }

    method Fail(id: string, error: string)
      requires Valid()
      modifies this, order, order.cells
      ensures Valid() && Value() == Apply(old(Value()), Op.Fail(id, error))
      ensures streams == NextBuffers(old(Value()), old(streams), Op.Fail(id, error))
      ensures order.cells == old(order.cells) || fresh(order.cells)
    {
      hide Preview, Inv, Failed, Without, BuffersAgree;
      EveryOperationKeepsInv(Value(), Op.Fail(id, error));
      OperationKeepsAgreement(Value(), streams, Op.Fail(id, error));
      if id in items {
        streams := streams - {id};
        Publish(id, Failed(items[id], error));
      }
    }

    method Delete(id: string) returns (r: Result<(), StoreError>)
      requires Valid()
      modifies this, order, order.cells
      ensures Valid() && Value() == Apply(old(Value()), Op.Remove(id))
      ensures streams == NextBuffers(old(Value()), old(streams), Op.Remove(id))
      ensures order.cells == old(order.cells) || fresh(order.cells)
      ensures r.Ok? <==> id in old(items) && old(items)[id].core.status != "running"
    {
      hide Preview, Inv, Without, BuffersAgree;
      EveryOperationKeepsInv(Value(), Op.Remove(id));
      OperationKeepsAgreement(Value(), streams, Op.Remove(id));
      if id !in items {
        return Err(NotFound);
      }
      if items[id].core.status == "running" {
        return Err(InProgress);
      }
      items := items - {id};
      streams := streams - {id};
      order.Remove(id);
      return Ok(());
    }

    // ---- Streaming ----------------------------------------------------------------------------

    /** The streaming fast path: the text grows in a buffer and a full preview is not recomputed, yet
        the store ends up as if the text had been appended and the preview recomputed. */
    method AppendAssistantDelta(id: string, delta: string, messageId: string)
      requires Valid()
      modifies this, order, order.cells
      ensures Valid() && Value() == Apply(old(Value()), Op.AppendDelta(id, delta, messageId))
      ensures streams == NextBuffers(old(Value()), old(streams), Op.AppendDelta(id, delta, messageId))
      ensures order.cells == old(order.cells) || fresh(order.cells)
    {
      hide BuffersAgree, TrimRightCarriage, Inv, Preview, Without, CollapseWhitespace, Busy, DeltaMessages, WithOpenAnswer;
      ghost var s := Value();
      EveryOperationKeepsInv(s, Op.AppendDelta(id, delta, messageId));
      OperationKeepsAgreement(s, streams, Op.AppendDelta(id, delta, messageId));
      var text := TrimRightCarriage(delta);
      if text == "" || id !in items || !Busy(items[id].core.status) {
        return;
      }
      InvGives(s, id);
      var next, stream := Grow(items[id], id, text, messageId);
      streams := streams[id := stream];
      Publish(id, next);
    }

    /** The entry and the buffer after one delta. */
    method Grow(current: Entry, id: string, delta: string, messageId: string) returns (next: Entry, stream: StreamBuffer)
      requires BuffersAgree(items, streams) && id in items && current == items[id]
      requires current.preview == Preview(current.core.messages)
      requires Busy(current.core.status)
      ensures next == WithDelta(current, delta, messageId)
      ensures stream == Grown(BufferFor(streams, id, OpenAnswer(current, messageId)), delta)
    {
      hide Preview, CollapseWhitespace, Busy, BuffersAgree, BufferFor, WithOpenAnswer;
      var messages := WithOpenAnswer(current.core.messages, messageId);
      var assistant := LastOf(messages);
      BufferHoldsText(items, streams, id, messageId);
      stream := BufferFor(streams, id, assistant);
      stream := stream.(text := stream.text + delta);
      assistant := assistant.(content := stream.text, status := "streaming");
      messages := WithLast(messages, assistant);
      next := current.(core := current.core.(status := "running", messages := messages));
      if stream.frozen {
        FrozenDelta(current, delta, messageId);
      } else {
        var preview := ComputePreview(messages);
        next := next.(preview := preview);
        stream := stream.(frozen := |CollapseWhitespace(assistant.content)| > PREVIEW_RUNES);
      }
    }

    // ---- Changes between turns ----------------------------------------------------------------

    method SetExecutionTarget(id: string, threadId: string, accountEmail: string, spaceId: string) returns (pinned: bool)
      requires Valid()
      modifies `items
      ensures Valid() && Value() == Apply(old(Value()), Op.SetTarget(id, threadId, accountEmail, spaceId))
      ensures streams == NextBuffers(old(Value()), old(streams), Op.SetTarget(id, threadId, accountEmail, spaceId))
      ensures pinned <==> Trim(id) != "" && Trim(threadId) != "" && Trim(id) in old(items) && Busy(old(items)[Trim(id)].core.status)
    {
      hide Inv, Trim, Busy, Preview, BuffersAgree;
      EveryOperationKeepsInv(Value(), Op.SetTarget(id, threadId, accountEmail, spaceId));
      OperationKeepsAgreement(Value(), streams, Op.SetTarget(id, threadId, accountEmail, spaceId));
      var key, thread, email := Trim(id), Trim(threadId), Trim(accountEmail);
      if key == "" || thread == "" || key !in items || !Busy(items[key].core.status) {
        return false;
      }
      items := items[key := WithTarget(items[key], thread, email, spaceId)];
      return true;
    }

    /** saved is whether the optional saver accepted the new entry; without it nothing changes. */
    method SetTitle(id: string, title: string, saved: bool) returns (r: Result<Entry, StoreError>)
      requires Valid()
      modifies `items
      ensures Valid() && Value() == if saved then Apply(old(Value()), Op.SetTitle(id, title)) else old(Value())
      ensures r.Ok? <==> saved && MayEdit(old(Value()), id) && 0 < |CollapseWhitespace(title)| <= 72
    {
      hide Inv, Trim, Busy, Preview, CollapseWhitespace, BuffersAgree;
      EveryOperationKeepsInv(Value(), Op.SetTitle(id, title));
      OperationKeepsAgreement(Value(), streams, Op.SetTitle(id, title));
      var key := Trim(id);
      if key == "" {
        return Err(Invalid);
      }
      var clean := CollapseWhitespace(title);
      if clean == "" || |clean| > MAX_TITLE_RUNES {
        return Err(Invalid);
      }
      if key !in items {
        return Err(NotFound);
      }
      if Busy(items[key].core.status) {
        return Err(InProgress);
      }
      if !saved {
        return Err(NotSaved);
      }
      items := items[key := items[key].(title := clean)];
      return Ok(items[key]);
    }

    method SetMessageContent(id: string, messageId: string, content: string, at: int, saved: bool)
      returns (r: Result<Entry, StoreError>)
      requires Valid()
      modifies `items
      ensures Valid() && Value() == if saved then Apply(old(Value()), Op.SetContent(id, messageId, content, at)) else old(Value())
      ensures r.Ok? <==>
        && saved && MayEdit(old(Value()), id) && Trim(messageId) != "" && |content| <= 200000
        && IndexOfEdited(old(items)[Trim(id)].core.messages, Trim(messageId)) >= 0
    {
      hide Inv, Trim, Busy, Preview, CollapseWhitespace, WithContent, BuffersAgree;
      EveryOperationKeepsInv(Value(), Op.SetContent(id, messageId, content, at));
      OperationKeepsAgreement(Value(), streams, Op.SetContent(id, messageId, content, at));
      var key, target := Trim(id), Trim(messageId);
      if key == "" || target == "" || |content| > MAX_MESSAGE_RUNES {
        return Err(Invalid);
      }
      if key !in items {
        return Err(NotFound);
      }
      if Busy(items[key].core.status) {
        return Err(InProgress);
      }
      var index := FindEdited(items[key].core.messages, target);
      if index < 0 {
        return Err(NotFound);
      }
      if !saved {
        return Err(NotSaved);
      }
      items := items[key := WithContent(items[key], index, content, at)];
      return Ok(items[key]);
    }

    method DeleteMessage(id: string, messageId: string, saved: bool) returns (r: Result<Entry, StoreError>)
      requires Valid()
      modifies `items
      ensures Valid() && Value() == if saved then Apply(old(Value()), Op.DeleteOne(id, messageId)) else old(Value())
      ensures r.Ok? <==> saved && Trim(id) in old(items) && MessageDeletion.Delete(old(items)[Trim(id)].core, messageId).Ok?
    {
      hide Inv, Trim, Busy, Preview, CollapseWhitespace, BuffersAgree, DeleteAt;
      EveryOperationKeepsInv(Value(), Op.DeleteOne(id, messageId));
      OperationKeepsAgreement(Value(), streams, Op.DeleteOne(id, messageId));
      var key := Trim(id);
      if key !in items {
        return Err(NotFound);
      }
      var core := MessageDeletion.DeleteMessage(items[key].core, messageId);
      if core.Err? {
        return Err(if core.error == ConversationBusy then InProgress else NotFound);
      }
      if !saved {
        return Err(NotSaved);
      }
      items := items[key := Refreshed(items[key].(core := core.value))];
      return Ok(items[key]);
    }

    method ClaimForDeletion(id: string) returns (r: Result<Entry, StoreError>)
      requires Valid()
      modifies `items
      ensures Valid() && Value() == Apply(old(Value()), Op.Claim(id))
      ensures streams == NextBuffers(old(Value()), old(streams), Op.Claim(id))
      ensures r.Ok? <==> MayEdit(old(Value()), id)
    {
      hide Inv, Trim, Busy, Preview, CollapseWhitespace, BuffersAgree;
      EveryOperationKeepsInv(Value(), Op.Claim(id));
      OperationKeepsAgreement(Value(), streams, Op.Claim(id));
      var key := Trim(id);
      if key == "" {
        return Err(Invalid);
      }
      if key !in items {
        return Err(NotFound);
      }
      if Busy(items[key].core.status) {
        return Err(InProgress);
      }
      items := items[key := WithStatus(items[key], "deleting")];
      return Ok(items[key]);
    }

    /** Restored over a running turn, the status ends it and its buffer is left behind, to no effect. */
    method RestoreDeletionClaim(id: string, status: string) returns (r: Result<(), StoreError>)
      requires Valid()
      modifies `items
      ensures order.Valid() && Value() == Apply(old(Value()), Op.Restore(id, status))
      ensures streams == NextBuffers(old(Value()), old(streams), Op.Restore(id, status))
      ensures Inv(Value()) && (Usual(Op.Restore(id, status)) ==> Valid())
      ensures r.Ok? <==> Trim(id) != "" && Trim(status) != "" && Trim(id) in old(items)
    {
      hide Inv, Trim, Busy, Preview, CollapseWhitespace, BuffersAgree;
      EveryOperationKeepsInv(Value(), Op.Restore(id, status));
      if Usual(Op.Restore(id, status)) {
        OperationKeepsAgreement(Value(), streams, Op.Restore(id, status));
      }
      var key, restored := Trim(id), Trim(status);
      if key == "" || restored == "" {
        return Err(Invalid);
      }
      if key !in items {
        return Err(NotFound);
      }
      items := items[key := WithStatus(items[key], restored)];
      return Ok(());
    }

    // ---- Entries from outside -----------------------------------------------------------------

    method InsertEntry(id: string, e: Entry)
      requires order.Valid() && Inv(Value()) && id !in items && e.preview == Preview(e.core.messages)
      modifies `items, order, order.cells
      ensures order.Valid() && Value() == Insert(old(Value()), id, e)
      ensures order.cells == old(order.cells) || fresh(order.cells)
    {
      hide Inv, Preview, Trim1000, Without, BuffersAgree, Distinct;
      PublishKeepsInv(Value(), id, e);
      Publish(id, e);
      InvParts(Value());
      TrimEntries();
    }

    method ImportRemote(id: string, e: Entry) returns (shown: Entry)
      requires Valid()
      modifies this, order, order.cells
      ensures order.Valid() && Value() == Apply(old(Value()), Op.Import(id, e))
      ensures streams == NextBuffers(old(Value()), old(streams), Op.Import(id, e))
      ensures Inv(Value()) && (Usual(Op.Import(id, e)) ==> Valid())
      ensures order.cells == old(order.cells) || fresh(order.cells)
      ensures shown == if id in old(items) then old(items)[id] else Refreshed(e)
    {
      hide Inv, Preview, Insert, BuffersAgree, Busy, Usual, Refreshed;
      EveryOperationKeepsInv(Value(), Op.Import(id, e));
      if Usual(Op.Import(id, e)) {
        OperationKeepsAgreement(Value(), streams, Op.Import(id, e));
      }
      if id in items {
        return items[id];
      }
      RefreshedIsFresh(e);
      InsertEntry(id, Refreshed(e));
      return Refreshed(e);
    }

    /** A cache miss restored from disk; row is what the store on disk holds. */
    method LoadConversation(id: string, row: Option<Entry>) returns (shown: Option<Entry>)
      requires Valid()
      modifies this, order, order.cells
      ensures Valid() && Value() == if row.Some? then Apply(old(Value()), Op.Load(id, row.value)) else old(Value())
      ensures streams == old(streams)
      ensures order.cells == old(order.cells) || fresh(order.cells)
      ensures shown == if id in old(items) then Some(old(items)[id])
        else if row.Some? then Some(Interrupted(row.value)) else None
    {
      hide Inv, Preview, Insert, Interrupted, BuffersAgree;
      if id in items {
        return Some(items[id]);
      }
      if row.None? {
        return None;
      }
      EveryOperationKeepsInv(Value(), Op.Load(id, row.value));
      OperationKeepsAgreement(Value(), streams, Op.Load(id, row.value));
      LoadedIsFresh(row.value);
      InsertEntry(id, Interrupted(row.value));
      return Some(Interrupted(row.value));
    }
  }
}
