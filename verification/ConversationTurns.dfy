/** What holds over whole runs of the conversation store: one turn at a time, no turn on a conversation
    that is being deleted, and streamed text that only grows
    (internal/app/conversations.go:650-1003, 1146-1358). */
module ConversationTurns {
  import opened Text
  import opened TranscriptMerge
  import opened MessageDeletion
  import opened ConversationEntries
  import opened Orders
  import opened ConversationRuns

  lemma RunningIsBusy()
    ensures Busy("running") && !Busy("deleting") && LowerAscii(Trim("deleting")) == "deleting"
  {
    hide Trim;
    TrimOfTrimmed("running");
    TrimOfTrimmed("deleting");
    assert forall i :: 0 <= i < 7 ==> !('A' <= "running"[i] <= 'Z');
    assert forall i :: 0 <= i < 8 ==> !('A' <= "deleting"[i] <= 'Z');
    assert LowerAscii("deleting") == "deleting";
    assert LowerAscii("running") == "running";
    assert |"running"| != |"deleting"|;
  }

  /** Ends the turn in flight on a conversation, or forces its status. */
  predicate Finishes(op: Op, id: string) {
    || (op.Complete? && op.id == id)
    || (op.Fail? && op.id == id)
    || (op.Restore? && Trim(op.id) == id)
  }

  predicate HasStatus(s: Store, id: string, status: string) {
    id in s.items && s.items[id].core.status == status
  }

  /** The text of the answer being written, if there is one. */
  function OpenText(messages: seq<Message>): string {
    if HasOpenAnswer(messages) then LastOf(messages).content else ""
  }

  /** The messages that no delta can change. */
  function ClosedPart(messages: seq<Message>): seq<Message> {
    if HasOpenAnswer(messages) then messages[..|messages| - 1] else messages
  }

  function DeltaOf(op: Op, id: string): string {
    if op.AppendDelta? && op.id == id then TrimRightCarriage(op.delta) else ""
  }

  function DeltaText(ops: seq<Op>, id: string): string {
    if ops == [] then "" else DeltaOf(ops[0], id) + DeltaText(ops[1..], id)
  }

  /** The status and the transcript of a conversation are as before. */
  predicate SameCore(s: Store, s': Store, id: string) {
    id in s.items && id in s'.items && s'.items[id].core == s.items[id].core
  }

  // ---- Operations that leave a protected conversation alone -----------------------------------

  lemma TrimKeepsProtected(s: Store, id: string)
    requires Distinct(s.order) && (forall x :: x in s.order ==> x in s.items)
    requires id in s.items && Protected(s.items[id])
    ensures SameCore(s, Trim1000(s), id)
  {
    hide Trim1000, Distinct, Subsequence, Protected;
    TrimIsExact(s);
  }

  lemma CreateKeeps(s: Store, key: string, spareId: string, request: TurnRequest, ids: seq<string>, id: string)
    requires Inv(s) && IdsFor(request, ids) && spareId !in s.items && id in s.items && Protected(s.items[id])
    ensures SameCore(s, CreateIn(s, key, spareId, request, ids), id)
  {
    hide Trim1000, Distinct, Created, Protected, IdsFor;
    var k := CreateId(s, key, spareId);
    DistinctCons(k, s.order);
    TrimKeepsProtected(Store(s.items[k := Created(request, ids)], [k] + s.order), id);
  }

  lemma InsertKeeps(s: Store, key: string, e: Entry, id: string)
    requires Inv(s) && key !in s.items && id in s.items && Protected(s.items[id]) && e.preview == Preview(e.core.messages)
    ensures SameCore(s, Insert(s, key, e), id)
  {
    hide Trim1000, Distinct, Preview, Protected, RecencyList.ToFront;
    PublishKeepsInv(s, key, e);
    TrimKeepsProtected(Publish(s, key, e), id);
  }

  /** Brings in a conversation, or is about another one. */
  predicate Outside(op: Op, id: string) {
    op.Create? || op.Import? || op.Load? || (op.id != id && Trim(op.id) != id)
  }

  /** Such an operation leaves a running or claimed conversation alone. */
  lemma OthersKeep(s: Store, op: Op, id: string)
    requires Inv(s) && id in s.items && Protected(s.items[id])
    requires Outside(op, id)
    ensures SameCore(s, Apply(s, op), id)
  {
    hide Inv, Trim, Busy, CreateIn, Insert, Continued, WithDelta, Completed, Failed, Delete, IndexOfEdited, IdsFor, Interrupted,
      RecencyList.ToFront, RecencyList.Without, Preview, CollapseWhitespace, TrimRightCarriage, LowerAscii, WithContent,
      WithEnvelope, Refreshed, Protected;
    match op
    case Create(key, spareId, request, ids) =>
      if IdsFor(request, ids) && spareId !in s.items {
        CreateKeeps(s, key, spareId, request, ids, id);
      }
    case Import(key, entry) =>
      if key !in s.items {
        RefreshedIsFresh(entry);
        InsertKeeps(s, key, Refreshed(entry), id);
      }
    case Load(key, entry) =>
      if key !in s.items {
        LoadedIsFresh(entry);
        InsertKeeps(s, key, Interrupted(entry), id);
      }
    case _ =>
  }

  lemma RefreshedIsFresh(e: Entry)
    ensures Refreshed(e).preview == Preview(Refreshed(e).core.messages)
  {
  }

  // ---- A running conversation -----------------------------------------------------------------

  lemma DeltaGrows(messages: seq<Message>, delta: string, id: string)
    ensures OpenText(DeltaMessages(messages, delta, id)) == OpenText(messages) + delta
    ensures ClosedPart(DeltaMessages(messages, delta, id)) == ClosedPart(messages)
  {
  }

  /** From s to s' the conversation runs on: no message before its answer changed, and the text was
      appended to the answer. */
  predicate Carries(s: Store, s': Store, id: string, text: string) {
    && HasStatus(s, id, "running") && HasStatus(s', id, "running")
    && OpenText(s'.items[id].core.messages) == OpenText(s.items[id].core.messages) + text
    && ClosedPart(s'.items[id].core.messages) == ClosedPart(s.items[id].core.messages)
  }

  lemma SameCoreCarries(s: Store, s': Store, id: string)
    requires HasStatus(s, id, "running") && SameCore(s, s', id)
    ensures Carries(s, s', id, "")
  {
    hide OpenText, ClosedPart;
  }

  lemma CarriesOn(s: Store, m: Store, s': Store, id: string, a: string, b: string)
    requires Carries(s, m, id, a) && Carries(m, s', id, b)
    ensures Carries(s, s', id, a + b)
  {
    hide OpenText, ClosedPart;
    var t := OpenText(s.items[id].core.messages);
    assert (t + a) + b == t + (a + b);
  }

  lemma PublishedDelta(s: Store, id: string, delta: string, messageId: string)
    requires HasStatus(s, id, "running")
    ensures Carries(s, Publish(s, id, WithDelta(s.items[id], delta, messageId)), id, delta)
  {
    hide Preview, RecencyList.ToFront, DeltaMessages, OpenText, ClosedPart;
    DeltaGrows(s.items[id].core.messages, delta, messageId);
  }

  lemma NoDelta(s: Store, id: string)
    requires HasStatus(s, id, "running")
    ensures Carries(s, s, id, "")
  {
    hide OpenText, ClosedPart;
  }

  lemma RunningIsProtected(e: Entry)
    requires e.core.status == "running"
    ensures Protected(e) && Busy(e.core.status)
  {
    RunningIsBusy();
    hide Busy;
  }

  lemma ApplyingDelta(s: Store, id: string, delta: string, messageId: string)
    requires id in s.items && Busy(s.items[id].core.status)
    ensures Apply(s, AppendDelta(id, delta, messageId)) ==
      if TrimRightCarriage(delta) == "" then s
      else Publish(s, id, WithDelta(s.items[id], TrimRightCarriage(delta), messageId))
  {
    hide TrimRightCarriage, Publish, WithDelta, Busy;
  }

  lemma DeltaOnRunning(s: Store, id: string, delta: string, messageId: string)
    requires HasStatus(s, id, "running")
    ensures Carries(s, Apply(s, AppendDelta(id, delta, messageId)), id, TrimRightCarriage(delta))
  {
    hide Apply, TrimRightCarriage, Publish, WithDelta, Carries, Busy, Protected;
    RunningIsProtected(s.items[id]);
    ApplyingDelta(s, id, delta, messageId);
    if TrimRightCarriage(delta) == "" {
      NoDelta(s, id);
    } else {
      PublishedDelta(s, id, TrimRightCarriage(delta), messageId);
    }
  }

  /** Nothing but a delta or the end of the turn changes the transcript or the status of a running conversation. */
  lemma OwnKeepsRunning(s: Store, op: Op, id: string)
    requires HasStatus(s, id, "running") && !Finishes(op, id) && !Outside(op, id)
    requires !(op.AppendDelta? && op.id == id)
    ensures SameCore(s, Apply(s, op), id)
  {
    hide Trim, Busy, CreateIn, Insert, Continued, WithDelta, Completed, Failed, IndexOfEdited, Interrupted, DeleteAt,
      RecencyList.ToFront, RecencyList.Without, Preview, CollapseWhitespace, TrimRightCarriage, LowerAscii, WithContent;
    RunningIsBusy();
    match op
    case DeleteOne(key, messageId) =>
    case _ =>
  }

  lemma OthersLeaveRunning(s: Store, op: Op, id: string)
    requires Inv(s) && HasStatus(s, id, "running") && !Finishes(op, id) && !(op.AppendDelta? && op.id == id)
    ensures SameCore(s, Apply(s, op), id)
  {
    hide Inv, Apply, Busy, Protected, Outside, Finishes, SameCore;
    RunningIsProtected(s.items[id]);
    if Outside(op, id) {
      OthersKeep(s, op, id);
    } else {
      OwnKeepsRunning(s, op, id);
    }
  }

  lemma RunningSurvives(s: Store, op: Op, id: string)
    requires Inv(s) && HasStatus(s, id, "running") && !Finishes(op, id)
    ensures Carries(s, Apply(s, op), id, DeltaOf(op, id))
  {
    hide Inv, Apply, Carries, TrimRightCarriage, Finishes, SameCore;
    if op.AppendDelta? && op.id == id {
      DeltaOnRunning(s, id, op.delta, op.messageId);
    } else {
      OthersLeaveRunning(s, op, id);
      SameCoreCarries(s, Apply(s, op), id);
    }
  }

  /** As long as a turn runs, its conversation is never evicted, removed or taken over, no message before
      the answer changes, and the answer is what it was at the start followed by every delta since. */
  lemma {:induction false} StreamedTextIsAppended(s: Store, ops: seq<Op>, id: string)
    requires Inv(s) && HasStatus(s, id, "running") && forall op :: op in ops ==> !Finishes(op, id)
    ensures Carries(s, Run(s, ops), id, DeltaText(ops, id))
    decreases |ops|
  {
    hide Inv, Apply, OpenText, ClosedPart, Finishes, DeltaOf;
    if ops == [] {
      NoDelta(s, id);
    } else {
      assert ops[0] in ops;
      RunningSurvives(s, ops[0], id);
      EveryOperationKeepsInv(s, ops[0]);
      StreamedTextIsAppended(Apply(s, ops[0]), ops[1..], id);
      CarriesOn(s, Apply(s, ops[0]), Run(s, ops), id, DeltaOf(ops[0], id), DeltaText(ops[1..], id));
    }
  }

  /** Between two turns that start on one conversation, the first is completed, failed or forced to another status. */
  lemma TurnsExclude(s: Store, first: Op, between: seq<Op>, second: Op)
    requires Inv(s) && StartsTurn(s, first)
    requires StartsTurn(Run(Apply(s, first), between), second) && second.id == first.id
    ensures exists op :: op in between && Finishes(op, first.id)
  {
    hide Inv, Run, Preview, Finishes, Trim, LowerAscii, RecencyList.ToFront, ContinuedMessages;
    var id := first.id;
    EveryOperationKeepsInv(s, first);
    assert HasStatus(Apply(s, first), id, "running");
    if forall op :: op in between ==> !Finishes(op, id) {
      StreamedTextIsAppended(Apply(s, first), between, id);
      RunningIsBusy();
    }
  }

  // ---- A conversation that is being deleted ---------------------------------------------------

  /** One deleter, and turns finished only while they run: the claim on the conversation is neither
      restored nor carried out, and Complete and Fail meet a busy conversation. */
  predicate RespectsClaim(s: Store, op: Op, id: string) {
    && !(op.Restore? && Trim(op.id) == id)
    && !(op.Remove? && op.id == id)
    && ((op.Complete? || op.Fail?) && op.id == id && id in s.items ==> Busy(s.items[id].core.status))
  }

  predicate RespectsClaimThroughout(s: Store, ops: seq<Op>, id: string)
    decreases |ops|
  {
    ops == [] || (RespectsClaim(s, ops[0], id) && RespectsClaimThroughout(Apply(s, ops[0]), ops[1..], id))
  }

  lemma ClaimSurvives(s: Store, op: Op, id: string)
    requires Inv(s) && HasStatus(s, id, "deleting") && RespectsClaim(s, op, id)
    ensures HasStatus(Apply(s, op), id, "deleting")
  {
    hide Inv, Trim, Busy, CreateIn, Insert, Continued, WithDelta, Completed, Failed, IndexOfEdited, Interrupted, DeleteAt,
      RecencyList.ToFront, RecencyList.Without, Preview, CollapseWhitespace, TrimRightCarriage, LowerAscii;
    RunningIsBusy();
    if Outside(op, id) {
      OthersKeep(s, op, id);
    } else {
      match op
      case SetContent(key, messageId, content, at) =>
      case _ =>
    }
  }

  /** From a successful claim until it is restored or carried out, no turn starts on the conversation,
      not even a replay, and no delta lands on it. */
  lemma {:induction false} ClaimExcludesTurns(s: Store, ops: seq<Op>, id: string, request: TurnRequest,
        messageId: string, delta: string)
    requires Inv(s) && HasStatus(s, id, "deleting") && RespectsClaimThroughout(s, ops, id)
    ensures var s' := Run(s, ops);
      && HasStatus(s', id, "deleting") && !MayContinue(s', id)
      && Apply(s', Continue(id, request, messageId)) == s'
      && Apply(s', AppendDelta(id, delta, messageId)) == s'
    decreases |ops|
  {
    hide Inv, RespectsClaim, TrimRightCarriage, Trim, LowerAscii;
    if ops == [] {
      RunningIsBusy();
    } else {
      hide Apply;
      ClaimSurvives(s, ops[0], id);
      EveryOperationKeepsInv(s, ops[0]);
      ClaimExcludesTurns(Apply(s, ops[0]), ops[1..], id, request, messageId, delta);
    }
  }

  // ---- Turns that end without an answer -------------------------------------------------------

  lemma FailedIsSettled()
    ensures !Busy("failed")
  {
    hide Trim, LowerAscii;
    assert |LowerAscii(Trim("failed"))| < |"running"|;
  }

  /** No turn in flight and no claim, no message still being written, and all texts as they were. */
  predicate IsOver(e: Entry, r: Entry) {
    && !Protected(r) && |r.core.messages| == |e.core.messages|
    && (forall i :: 0 <= i < |e.core.messages| ==> r.core.messages[i].content == e.core.messages[i].content)
    && (Protected(e) ==> forall m :: m in r.core.messages ==> m.status != "streaming" && m.status != "running")
  }

  lemma FailedIsUnprotected(e: Entry)
    requires e.core.status == "failed"
    ensures !Protected(e)
  {
    FailedIsSettled();
    hide Busy;
    assert |e.core.status| < |"deleting"|;
  }

  /** A conversation restored from disk has no turn in flight and no claim, and no message of an
      interrupted one is still being written; all texts are as stored. */
  lemma RestoredTurnIsOver(e: Entry)
    ensures IsOver(e, Interrupted(e))
  {
    hide Preview, Busy;
    if Protected(e) {
      FailedIsUnprotected(Interrupted(e));
    }
  }
}
