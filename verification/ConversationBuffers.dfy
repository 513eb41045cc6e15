/** The append buffers of the answers being streamed, next to the plain store: what every operation makes
    of them, and why the fast path through them is the plain append
    (internal/app/conversations.go:740-862). */
module ConversationBuffers {
  import opened Text
  import opened TranscriptMerge
  import opened MessageDeletion
  import opened ConversationEntries
  import opened Orders
  import opened ConversationRuns
  import opened ConversationTurns

  /** conversationStreamBuffer */
  datatype StreamBuffer = StreamBuffer(messageId: string, text: string, frozen: bool)

  type Buffers = map<string, StreamBuffer>

  /** The buffer a delta is appended to: the present one if it is for the open answer and as long as
      its text, and otherwise a new one that starts from the published text. */
  function BufferFor(buffers: Buffers, id: string, answer: Message): StreamBuffer {
    if id in buffers && buffers[id].messageId == answer.id && |buffers[id].text| == |answer.content| then buffers[id]
    else StreamBuffer(answer.id, answer.content, false)
  }

  function Grown(b: StreamBuffer, delta: string): StreamBuffer {
    StreamBuffer(b.messageId, b.text + delta, b.frozen || |CollapseWhitespace(b.text + delta)| > PREVIEW_RUNES)
  }

  function OpenAnswer(e: Entry, messageId: string): Message {
    LastOf(WithOpenAnswer(e.core.messages, messageId))
  }

  /** The delta reaches a conversation with a turn in flight and has text. */
  predicate Lands(s: Store, id: string, delta: string) {
    TrimRightCarriage(delta) != "" && id in s.items && Busy(s.items[id].core.status)
  }

  /** What an operation makes of the buffers. */
  function NextBuffers(s: Store, buffers: Buffers, op: Op): Buffers {
    match op
    case Continue(id, _, _) => if StartsTurn(s, op) then buffers - {id} else buffers
    case AppendDelta(id, delta, messageId) =>
      if Lands(s, id, delta) then
        buffers[id := Grown(BufferFor(buffers, id, OpenAnswer(s.items[id], messageId)), TrimRightCarriage(delta))]
      else buffers
    case Complete(id, result, _) => if id in s.items && !result.cachedReplay then buffers - {id} else buffers
    case Fail(id, _) => if id in s.items then buffers - {id} else buffers
    case Remove(id) => if id in s.items && s.items[id].core.status != "running" then buffers - {id} else buffers
    case _ => buffers
  }

  function RunBuffers(s: Store, buffers: Buffers, ops: seq<Op>): Buffers
    decreases |ops|
  {
    if ops == [] then buffers else RunBuffers(Apply(s, ops[0]), NextBuffers(s, buffers, ops[0]), ops[1..])
  }

  // ---- What buffers hold ----------------------------------------------------------------------

  /** A buffer has text, and a frozen one has enough of it to fill a preview. */
  predicate Sound(b: StreamBuffer) {
    b.text != "" && (b.frozen ==> |CollapseWhitespace(b.text)| > PREVIEW_RUNES)
  }

  /** If the buffer would be used for the next delta of the conversation, it holds the published text. */
  predicate Agrees(e: Entry, b: StreamBuffer) {
    Busy(e.core.status) && HasOpenAnswer(e.core.messages) && LastOf(e.core.messages).id == b.messageId
    && |LastOf(e.core.messages).content| == |b.text|
    ==> LastOf(e.core.messages).content == b.text
  }

  ghost predicate BuffersAgree(items: map<string, Entry>, buffers: Buffers) {
    forall id :: id in buffers ==> Sound(buffers[id]) && (id in items ==> Agrees(items[id], buffers[id]))
  }

  /** What callers do: a claim is restored to the status of a conversation that was not running, and
      imported conversations are finished ones. */
  predicate Usual(op: Op) {
    (op.Restore? ==> !Busy(Trim(op.status))) && (op.Import? ==> !Busy(op.entry.core.status))
  }

  /** Comparing lengths is enough: whichever buffer a delta is appended to holds the published text. */
  lemma BufferHoldsText(items: map<string, Entry>, buffers: Buffers, id: string, messageId: string)
    requires BuffersAgree(items, buffers) && id in items && Busy(items[id].core.status)
    ensures var answer := OpenAnswer(items[id], messageId);
      var b := BufferFor(buffers, id, answer);
      && b.messageId == answer.id && b.text == answer.content
      && (b.frozen ==> HasOpenAnswer(items[id].core.messages) && |CollapseWhitespace(answer.content)| > PREVIEW_RUNES)
  {
    hide CollapseWhitespace, Busy;
  }

  lemma AgreeAfterPut(items: map<string, Entry>, buffers: Buffers, id: string, e: Entry)
    requires BuffersAgree(items, buffers) && (id in buffers ==> Agrees(e, buffers[id]))
    ensures BuffersAgree(items[id := e], buffers)
  {
    hide Agrees, Sound;
  }

  lemma AgreeAfterStop(items: map<string, Entry>, buffers: Buffers, id: string, e: Entry)
    requires BuffersAgree(items, buffers)
    ensures BuffersAgree(items[id := e], buffers - {id}) && BuffersAgree(items - {id}, buffers - {id})
  {
    hide Agrees, Sound;
  }

  lemma AgreeOnFewer(items: map<string, Entry>, fewer: map<string, Entry>, buffers: Buffers)
    requires BuffersAgree(items, buffers) && forall id :: id in fewer ==> id in items && fewer[id] == items[id]
    ensures BuffersAgree(fewer, buffers)
  {
    hide Agrees, Sound;
  }

  lemma AgreeAfterTrim(s: Store, buffers: Buffers)
    requires Distinct(s.order) && (forall id :: id in s.order ==> id in s.items) && BuffersAgree(s.items, buffers)
    ensures BuffersAgree(Trim1000(s).items, buffers)
  {
    hide Trim1000, Subsequence, Distinct, BuffersAgree;
    TrimIsExact(s);
    AgreeOnFewer(s.items, Trim1000(s).items, buffers);
  }

  lemma IdleAgrees(e: Entry, b: StreamBuffer)
    requires !Busy(e.core.status) || !HasOpenAnswer(e.core.messages)
    ensures Agrees(e, b)
  {
    hide Busy;
  }

  lemma DeltaIsLast(messages: seq<Message>, delta: string, id: string)
    ensures var answer, grown := LastOf(WithOpenAnswer(messages, id)), DeltaMessages(messages, delta, id);
      HasOpenAnswer(grown) && LastOf(grown).id == answer.id && LastOf(grown).content == answer.content + delta
  {
  }

  /** The buffer after a delta holds the text published with it. */
  predicate Holds(e: Entry, b: StreamBuffer) {
    && Busy(e.core.status) && HasOpenAnswer(e.core.messages)
    && LastOf(e.core.messages).id == b.messageId && LastOf(e.core.messages).content == b.text
  }

  lemma GrownFrom(e: Entry, b: StreamBuffer, delta: string, messageId: string)
    requires b.messageId == OpenAnswer(e, messageId).id && b.text == OpenAnswer(e, messageId).content
    ensures Holds(WithDelta(e, delta, messageId), Grown(b, delta))
  {
    hide Preview, CollapseWhitespace, Busy, DeltaMessages, WithOpenAnswer, HasOpenAnswer;
    RunningIsProtected(WithDelta(e, delta, messageId));
    DeltaIsLast(e.core.messages, delta, messageId);
  }

  lemma GrownIsSound(b: StreamBuffer, delta: string)
    requires delta != "" && (b.frozen ==> |CollapseWhitespace(b.text + delta)| > PREVIEW_RUNES)
    ensures Sound(Grown(b, delta))
  {
    hide CollapseWhitespace;
  }

  lemma GrownHolds(s: Store, buffers: Buffers, id: string, delta: string, messageId: string)
    requires BuffersAgree(s.items, buffers) && id in s.items && Busy(s.items[id].core.status) && delta != ""
    ensures var b := Grown(BufferFor(buffers, id, OpenAnswer(s.items[id], messageId)), delta);
      Holds(WithDelta(s.items[id], delta, messageId), b) && Sound(b)
  {
    hide Busy, BuffersAgree, BufferFor, OpenAnswer, WithDelta, Holds, Sound, Grown, CollapseWhitespace;
    BufferHoldsText(s.items, buffers, id, messageId);
    FrozenStays(s, buffers, id, delta, messageId);
    var b := BufferFor(buffers, id, OpenAnswer(s.items[id], messageId));
    GrownFrom(s.items[id], b, delta, messageId);
    GrownIsSound(b, delta);
  }

  lemma FrozenStays(s: Store, buffers: Buffers, id: string, delta: string, messageId: string)
    requires BuffersAgree(s.items, buffers) && id in s.items && Busy(s.items[id].core.status)
    ensures var b := BufferFor(buffers, id, OpenAnswer(s.items[id], messageId));
      b.frozen ==> |CollapseWhitespace(b.text + delta)| > PREVIEW_RUNES
  {
    hide CollapseWhitespace, BuffersAgree, Busy, WithOpenAnswer;
    BufferHoldsText(s.items, buffers, id, messageId);
    var b := BufferFor(buffers, id, OpenAnswer(s.items[id], messageId));
    if b.frozen {
      FullPreviewIsStable(b.text, b.text + delta);
    }
  }

  lemma HoldsAgrees(e: Entry, b: StreamBuffer)
    requires Holds(e, b)
    ensures Agrees(e, b)
  {
    hide Busy;
  }

  lemma AgreeAfterDelta(items: map<string, Entry>, buffers: Buffers, id: string, e: Entry, b: StreamBuffer)
    requires BuffersAgree(items, buffers) && Sound(b) && Agrees(e, b)
    ensures BuffersAgree(items[id := e], buffers[id := b])
  {
    hide Agrees, Sound;
  }

  // ---- Every operation keeps them so ----------------------------------------------------------

  lemma CreateAgrees(s: Store, buffers: Buffers, id: string, spareId: string, request: TurnRequest, ids: seq<string>)
    requires Inv(s) && BuffersAgree(s.items, buffers) && IdsFor(request, ids) && spareId !in s.items
    ensures BuffersAgree(CreateIn(s, id, spareId, request, ids).items, buffers)
  {
    var key := CreateId(s, id, spareId);
    InvParts(s);
    hide Trim1000, Created, IdsFor, BuffersAgree, Distinct, Agrees, Inv;
    CreatedHasNoAnswer(request, ids);
    if key in buffers {
      IdleAgrees(Created(request, ids), buffers[key]);
    }
    AgreeAfterPut(s.items, buffers, key, Created(request, ids));
    DistinctCons(key, s.order);
    AgreeAfterTrim(Store(s.items[key := Created(request, ids)], [key] + s.order), buffers);
  }

  lemma CreatedHasNoAnswer(request: TurnRequest, ids: seq<string>)
    requires IdsFor(request, ids)
    ensures !HasOpenAnswer(Created(request, ids).core.messages)
  {
    hide Preview, Trim, OpeningHistory;
  }

  lemma InsertAgrees(s: Store, buffers: Buffers, id: string, e: Entry)
    requires Inv(s) && BuffersAgree(s.items, buffers) && !Busy(e.core.status) && e.preview == Preview(e.core.messages)
    ensures BuffersAgree(Insert(s, id, e).items, buffers)
  {
    hide Trim1000, BuffersAgree, Distinct, Agrees, Inv, Busy, Preview, RecencyList.ToFront;
    if id in buffers {
      IdleAgrees(e, buffers[id]);
    }
    AgreeAfterPut(s.items, buffers, id, e);
    PublishKeepsInv(s, id, e);
    InvParts(Publish(s, id, e));
    AgreeAfterTrim(Publish(s, id, e), buffers);
  }

  lemma RestoredIsIdle(e: Entry)
    ensures !Busy(Interrupted(e).core.status)
  {
    hide Busy, Preview;
    FailedIsSettled();
  }

  lemma DeltaAgrees(s: Store, buffers: Buffers, id: string, delta: string, messageId: string)
    requires BuffersAgree(s.items, buffers)
    ensures var op := AppendDelta(id, delta, messageId);
      BuffersAgree(Apply(s, op).items, NextBuffers(s, buffers, op))
  {
    hide BuffersAgree, Busy, TrimRightCarriage, WithDelta, Holds, Sound, Grown, BufferFor, OpenAnswer, RecencyList.ToFront;
    if Lands(s, id, delta) {
      var text := TrimRightCarriage(delta);
      var b := Grown(BufferFor(buffers, id, OpenAnswer(s.items[id], messageId)), text);
      GrownHolds(s, buffers, id, text, messageId);
      HoldsAgrees(WithDelta(s.items[id], text, messageId), b);
      AgreeAfterDelta(s.items, buffers, id, WithDelta(s.items[id], text, messageId), b);
    }
  }

  /** An entry in place of one that is idle and is itself idle, or of the same transcript and status. */
  lemma ReplacedAgrees(s: Store, buffers: Buffers, id: string, e: Entry)
    requires BuffersAgree(s.items, buffers) && id in s.items && (!Busy(e.core.status) || e.core == s.items[id].core)
    ensures BuffersAgree(s.items[id := e], buffers)
  {
    hide BuffersAgree, Busy;
    if id in buffers {
      if !Busy(e.core.status) {
        IdleAgrees(e, buffers[id]);
      } else {
        SameAgrees(s.items, buffers, id, e);
      }
    }
    AgreeAfterPut(s.items, buffers, id, e);
  }

  lemma SameAgrees(items: map<string, Entry>, buffers: Buffers, id: string, e: Entry)
    requires BuffersAgree(items, buffers) && id in items && id in buffers && e.core == items[id].core
    ensures Agrees(e, buffers[id])
  {
    hide Busy, Sound;
  }

  lemma EditAgrees(s: Store, buffers: Buffers, op: Op)
    requires BuffersAgree(s.items, buffers) && (op.SetContent? || op.DeleteOne?)
    ensures BuffersAgree(Apply(s, op).items, buffers)
  {
    hide BuffersAgree, Busy, Trim, Preview, CapturedTurns, Tombstones, IndexOfEdited;
    match op
    case SetContent(id, messageId, content, at) =>
      if MayEdit(s, id) {
        var i := IndexOfEdited(s.items[Trim(id)].core.messages, Trim(messageId));
        if i >= 0 {
          ReplacedAgrees(s, buffers, Trim(id), WithContent(s.items[Trim(id)], i, content, at));
        }
      }
    case DeleteOne(id, messageId) =>
      if Trim(id) in s.items {
        var r := Delete(s.items[Trim(id)].core, messageId);
        if r.Ok? {
          ReplacedAgrees(s, buffers, Trim(id), Refreshed(s.items[Trim(id)].(core := r.value)));
        }
      }
    case _ =>
  }

  lemma HeaderAgrees(s: Store, buffers: Buffers, op: Op)
    requires BuffersAgree(s.items, buffers) && Usual(op)
    requires op.SetEnvelope? || op.SetTarget? || op.SetTitle? || op.Claim? || op.Restore?
    ensures BuffersAgree(Apply(s, op).items, buffers)
  {
    hide BuffersAgree, Busy, Trim, Preview, CollapseWhitespace, RecencyList.ToFront;
    RunningIsBusy();
    match op
    case SetEnvelope(id, responseId, completionId) =>
      if id in s.items {
        ReplacedAgrees(s, buffers, id, WithEnvelope(s.items[id], responseId, completionId));
      }
    case SetTarget(id, threadId, accountEmail, spaceId) =>
      if Trim(id) in s.items {
        ReplacedAgrees(s, buffers, Trim(id), WithTarget(s.items[Trim(id)], Trim(threadId), Trim(accountEmail), spaceId));
      }
    case SetTitle(id, title) =>
      if Trim(id) in s.items {
        ReplacedAgrees(s, buffers, Trim(id), s.items[Trim(id)].(title := CollapseWhitespace(title)));
      }
    case Claim(id) =>
      if Trim(id) in s.items {
        ReplacedAgrees(s, buffers, Trim(id), WithStatus(s.items[Trim(id)], "deleting"));
      }
    case Restore(id, status) =>
      if Trim(id) in s.items {
        ReplacedAgrees(s, buffers, Trim(id), WithStatus(s.items[Trim(id)], Trim(status)));
      }
    case _ =>
  }

  lemma EndAgrees(s: Store, buffers: Buffers, op: Op)
    requires BuffersAgree(s.items, buffers) && (op.Continue? || op.Complete? || op.Fail? || op.Remove?)
    ensures BuffersAgree(Apply(s, op).items, NextBuffers(s, buffers, op))
  {
    hide BuffersAgree, MayContinue, Continued, Completed, Failed, RecencyList.ToFront, RecencyList.Without;
    match op
    case Continue(id, request, messageId) =>
      if StartsTurn(s, op) {
        StartedIsThere(s, op);
        AgreeAfterStop(s.items, buffers, id, Continued(s.items[id], request, messageId));
      }
    case Complete(id, result, messageId) =>
      if id in s.items {
        AgreeAfterStop(s.items, buffers, id, Completed(s.items[id], result, messageId));
      }
    case Fail(id, error) =>
      if id in s.items {
        AgreeAfterStop(s.items, buffers, id, Failed(s.items[id], error));
      }
    case Remove(id) =>
      if id in s.items {
        AgreeAfterStop(s.items, buffers, id, s.items[id]);
      }
    case _ =>
  }

  lemma StartedIsThere(s: Store, op: Op)
    requires StartsTurn(s, op)
    ensures op.id in s.items
  {
    hide Busy, Trim, LowerAscii;
  }

  /** Every operation callers make leaves every buffer that could be used next with the published text. */
  lemma OperationKeepsAgreement(s: Store, buffers: Buffers, op: Op)
    requires Inv(s) && BuffersAgree(s.items, buffers) && Usual(op)
    ensures BuffersAgree(Apply(s, op).items, NextBuffers(s, buffers, op))
  {
    hide Inv, BuffersAgree, CreateIn, Insert, IdsFor, Interrupted, Refreshed, Busy, Trim;
    match op
    case Create(id, spareId, request, ids) =>
      if IdsFor(request, ids) && spareId !in s.items {
        CreateAgrees(s, buffers, id, spareId, request, ids);
      }
    case Import(id, entry) =>
      RefreshedIsFresh(entry);
      RefreshedStatus(entry);
      InsertAgrees(s, buffers, id, Refreshed(entry));
    case Load(id, entry) =>
      LoadedIsFresh(entry);
      RestoredIsIdle(entry);
      InsertAgrees(s, buffers, id, Interrupted(entry));
    case AppendDelta(id, delta, messageId) => DeltaAgrees(s, buffers, id, delta, messageId);
    case SetContent(_, _, _, _) => EditAgrees(s, buffers, op);
    case DeleteOne(_, _) => EditAgrees(s, buffers, op);
    case Continue(_, _, _) => EndAgrees(s, buffers, op);
    case Complete(_, _, _) => EndAgrees(s, buffers, op);
    case Fail(_, _) => EndAgrees(s, buffers, op);
    case Remove(_) => EndAgrees(s, buffers, op);
    case _ => HeaderAgrees(s, buffers, op);
  }

  lemma RefreshedStatus(e: Entry)
    ensures Refreshed(e).core == e.core
  {
  }

  lemma InvParts(s: Store)
    requires Inv(s)
    ensures Distinct(s.order) && forall id :: id in s.order ==> id in s.items
  {
    hide Preview;
  }

  /** Over every run of operations callers make, the next delta of any conversation is appended to its
      published text, whichever buffer that takes. */
  lemma {:induction false} RunKeepsAgreement(s: Store, buffers: Buffers, ops: seq<Op>)
    requires Inv(s) && BuffersAgree(s.items, buffers) && forall op :: op in ops ==> Usual(op)
    ensures Inv(Run(s, ops)) && BuffersAgree(Run(s, ops).items, RunBuffers(s, buffers, ops))
    decreases |ops|
  {
    hide Inv, BuffersAgree, Apply, NextBuffers, Usual;
    if ops != [] {
      assert ops[0] in ops;
      OperationKeepsAgreement(s, buffers, ops[0]);
      EveryOperationKeepsInv(s, ops[0]);
      RunKeepsAgreement(Apply(s, ops[0]), NextBuffers(s, buffers, ops[0]), ops[1..]);
    }
  }

  // ---- Buffers belong to running conversations ------------------------------------------------

  /** Every buffer is that of the answer a running conversation is writing, and holds exactly its text. */
  ghost predicate BuffersExact(items: map<string, Entry>, buffers: Buffers) {
    forall id :: id in buffers ==> id in items && Holds(items[id], buffers[id]) && Sound(buffers[id])
  }

  /** No turn that has a buffer is ended by restoring a status over it. */
  predicate Careful(buffers: Buffers, op: Op) {
    op.Restore? && Trim(op.id) in buffers && Trim(op.id) != "" && Trim(op.status) != "" ==> Busy(Trim(op.status))
  }

  predicate CarefulThroughout(s: Store, buffers: Buffers, ops: seq<Op>)
    decreases |ops|
  {
    ops == [] || (Careful(buffers, ops[0]) && CarefulThroughout(Apply(s, ops[0]), NextBuffers(s, buffers, ops[0]), ops[1..]))
  }

  lemma IdleHasNone(items: map<string, Entry>, buffers: Buffers, id: string)
    requires BuffersExact(items, buffers) && (id in items ==> !Busy(items[id].core.status))
    ensures id !in buffers
  {
    hide Busy;
  }

  lemma ExactAgrees(items: map<string, Entry>, buffers: Buffers)
    requires BuffersExact(items, buffers)
    ensures BuffersAgree(items, buffers)
  {
    hide Holds, Sound, Agrees;
    forall id | id in buffers ensures Agrees(items[id], buffers[id]) {
      HoldsAgrees(items[id], buffers[id]);
    }
  }

  lemma ExactAfterStop(items: map<string, Entry>, buffers: Buffers, id: string, e: Entry)
    requires BuffersExact(items, buffers)
    ensures BuffersExact(items[id := e], buffers - {id}) && BuffersExact(items - {id}, buffers - {id})
  {
    hide Holds;
  }

  lemma ExactAfterTrim(s: Store, buffers: Buffers)
    requires Distinct(s.order) && (forall id :: id in s.order ==> id in s.items) && BuffersExact(s.items, buffers)
    ensures BuffersExact(Trim1000(s).items, buffers)
  {
    hide Trim1000, Subsequence, Distinct, Busy;
    TrimIsExact(s);
  }

  lemma ReplacedExact(s: Store, buffers: Buffers, id: string, e: Entry)
    requires BuffersExact(s.items, buffers) && id in s.items
    requires !Busy(s.items[id].core.status) || e.core == s.items[id].core
    ensures BuffersExact(s.items[id := e], buffers)
  {
    hide Busy;
    if e.core != s.items[id].core {
      IdleHasNone(s.items, buffers, id);
    }
  }

  lemma NewExact(s: Store, buffers: Buffers, id: string, e: Entry)
    requires BuffersExact(s.items, buffers) && id !in s.items
    ensures BuffersExact(s.items[id := e], buffers)
  {
    hide Holds;
  }

  lemma CreateExact(s: Store, buffers: Buffers, id: string, spareId: string, request: TurnRequest, ids: seq<string>)
    requires Inv(s) && BuffersExact(s.items, buffers) && IdsFor(request, ids) && spareId !in s.items
    ensures BuffersExact(CreateIn(s, id, spareId, request, ids).items, buffers)
  {
    var key := CreateId(s, id, spareId);
    InvParts(s);
    hide Trim1000, Created, IdsFor, BuffersExact, Distinct, Inv;
    NewExact(s, buffers, key, Created(request, ids));
    DistinctCons(key, s.order);
    ExactAfterTrim(Store(s.items[key := Created(request, ids)], [key] + s.order), buffers);
  }

  lemma InsertExact(s: Store, buffers: Buffers, id: string, e: Entry)
    requires Inv(s) && BuffersExact(s.items, buffers) && id !in s.items && e.preview == Preview(e.core.messages)
    ensures BuffersExact(Insert(s, id, e).items, buffers)
  {
    hide Trim1000, BuffersExact, Distinct, Inv, Preview, RecencyList.ToFront;
    NewExact(s, buffers, id, e);
    PublishKeepsInv(s, id, e);
    InvParts(Publish(s, id, e));
    ExactAfterTrim(Publish(s, id, e), buffers);
  }

  lemma DeltaExact(s: Store, buffers: Buffers, id: string, delta: string, messageId: string)
    requires BuffersExact(s.items, buffers)
    ensures var op := AppendDelta(id, delta, messageId);
      BuffersExact(Apply(s, op).items, NextBuffers(s, buffers, op))
  {
    hide BuffersAgree, Busy, TrimRightCarriage, WithDelta, Holds, Sound, Grown, BufferFor, OpenAnswer, RecencyList.ToFront;
    ExactAgrees(s.items, buffers);
    if Lands(s, id, delta) {
      GrownHolds(s, buffers, id, TrimRightCarriage(delta), messageId);
    }
  }

  lemma EditExact(s: Store, buffers: Buffers, op: Op)
    requires BuffersExact(s.items, buffers) && (op.SetContent? || op.DeleteOne?)
    ensures BuffersExact(Apply(s, op).items, buffers)
  {
    hide BuffersExact, Busy, Trim, Preview, DeleteAt, IndexOfEdited;
    match op
    case SetContent(id, messageId, content, at) =>
      if MayEdit(s, id) {
        var i := IndexOfEdited(s.items[Trim(id)].core.messages, Trim(messageId));
        if i >= 0 {
          ReplacedExact(s, buffers, Trim(id), WithContent(s.items[Trim(id)], i, content, at));
        }
      }
    case DeleteOne(id, messageId) =>
      if Trim(id) in s.items {
        var r := Delete(s.items[Trim(id)].core, messageId);
        if r.Ok? {
          ReplacedExact(s, buffers, Trim(id), Refreshed(s.items[Trim(id)].(core := r.value)));
        }
      }
    case _ =>
  }

  lemma HeaderExact(s: Store, buffers: Buffers, op: Op)
    requires BuffersExact(s.items, buffers) && (op.SetEnvelope? || op.SetTarget? || op.SetTitle? || op.Claim?)
    ensures BuffersExact(Apply(s, op).items, buffers)
  {
    hide BuffersExact, Busy, Trim, Preview, CollapseWhitespace, RecencyList.ToFront;
    match op
    case SetEnvelope(id, responseId, completionId) =>
      if id in s.items {
        ReplacedExact(s, buffers, id, WithEnvelope(s.items[id], responseId, completionId));
      }
    case SetTarget(id, threadId, accountEmail, spaceId) =>
      if Trim(id) in s.items {
        ReplacedExact(s, buffers, Trim(id), WithTarget(s.items[Trim(id)], Trim(threadId), Trim(accountEmail), spaceId));
      }
    case SetTitle(id, title) =>
      if Trim(id) in s.items {
        ReplacedExact(s, buffers, Trim(id), s.items[Trim(id)].(title := CollapseWhitespace(title)));
      }
    case Claim(id) =>
      if MayEdit(s, id) {
        ReplacedExact(s, buffers, Trim(id), WithStatus(s.items[Trim(id)], "deleting"));
      }
    case _ =>
  }

  lemma StatusExact(items: map<string, Entry>, buffers: Buffers, id: string, status: string)
    requires BuffersExact(items, buffers) && id in items
    ensures BuffersExact(items[id := WithStatus(items[id], status)], buffers) <==> (id in buffers ==> Busy(status))
  {
    hide Busy, HasOpenAnswer, CollapseWhitespace;
    if id in buffers && !Busy(status) {
      assert !Holds(items[id := WithStatus(items[id], status)][id], buffers[id]);
    }
  }

  lemma RestoreExact(s: Store, buffers: Buffers, id: string, status: string)
    requires BuffersExact(s.items, buffers)
    ensures BuffersExact(Apply(s, Restore(id, status)).items, buffers) <==> Careful(buffers, Restore(id, status))
  {
    hide BuffersExact, Busy, Trim, WithStatus;
    ExactHasEntries(s.items, buffers);
    if Trim(id) in s.items {
      StatusExact(s.items, buffers, Trim(id), Trim(status));
    }
  }

  lemma ExactHasEntries(items: map<string, Entry>, buffers: Buffers)
    requires BuffersExact(items, buffers)
    ensures forall id :: id in buffers ==> id in items
  {
    hide Holds, Sound;
  }

  lemma EndExact(s: Store, buffers: Buffers, op: Op)
    requires BuffersExact(s.items, buffers) && (op.Continue? || op.Complete? || op.Fail? || op.Remove?)
    ensures BuffersExact(Apply(s, op).items, NextBuffers(s, buffers, op))
  {
    hide BuffersExact, MayContinue, Continued, Completed, Failed, RecencyList.ToFront, RecencyList.Without;
    match op
    case Continue(id, request, messageId) =>
      if StartsTurn(s, op) {
        StartedIsThere(s, op);
        ExactAfterStop(s.items, buffers, id, Continued(s.items[id], request, messageId));
      }
    case Complete(id, result, messageId) =>
      if id in s.items {
        ExactAfterStop(s.items, buffers, id, Completed(s.items[id], result, messageId));
      }
    case Fail(id, error) =>
      if id in s.items {
        ExactAfterStop(s.items, buffers, id, Failed(s.items[id], error));
      }
    case Remove(id) =>
      if id in s.items {
        ExactAfterStop(s.items, buffers, id, s.items[id]);
      }
    case _ =>
  }

  /** Exactly when it does not end a turn by restoring a status over it, an operation leaves every buffer
      with a running conversation and the text of the answer being written. */
  lemma OperationKeepsExact(s: Store, buffers: Buffers, op: Op)
    requires Inv(s) && BuffersExact(s.items, buffers)
    ensures BuffersExact(Apply(s, op).items, NextBuffers(s, buffers, op)) <==> Careful(buffers, op)
  {
    hide Inv, BuffersExact, CreateIn, Insert, IdsFor, Interrupted, Refreshed, Busy, Trim;
    match op
    case Create(id, spareId, request, ids) =>
      if IdsFor(request, ids) && spareId !in s.items {
        CreateExact(s, buffers, id, spareId, request, ids);
      }
    case Import(id, entry) =>
      if id !in s.items {
        RefreshedIsFresh(entry);
        InsertExact(s, buffers, id, Refreshed(entry));
      }
    case Load(id, entry) =>
      if id !in s.items {
        LoadedIsFresh(entry);
        InsertExact(s, buffers, id, Interrupted(entry));
      }
    case AppendDelta(id, delta, messageId) => DeltaExact(s, buffers, id, delta, messageId);
    case SetContent(_, _, _, _) => EditExact(s, buffers, op);
    case DeleteOne(_, _) => EditExact(s, buffers, op);
    case Continue(_, _, _) => EndExact(s, buffers, op);
    case Complete(_, _, _) => EndExact(s, buffers, op);
    case Fail(_, _) => EndExact(s, buffers, op);
    case Remove(_) => EndExact(s, buffers, op);
    case Restore(id, status) => RestoreExact(s, buffers, id, status);
    case _ => HeaderExact(s, buffers, op);
  }

  /** Over every run in which no turn is ended by restoring a status over it, a buffer exists only for a
      running conversation and holds exactly the text of the answer it is writing. */
  lemma {:induction false} BuffersBelongToRunningTurns(s: Store, buffers: Buffers, ops: seq<Op>)
    requires Inv(s) && BuffersExact(s.items, buffers) && CarefulThroughout(s, buffers, ops)
    ensures BuffersExact(Run(s, ops).items, RunBuffers(s, buffers, ops))
    decreases |ops|
  {
    hide Inv, BuffersExact, Apply, NextBuffers, Careful;
    if ops != [] {
      OperationKeepsExact(s, buffers, ops[0]);
      EveryOperationKeepsInv(s, ops[0]);
      BuffersBelongToRunningTurns(Apply(s, ops[0]), NextBuffers(s, buffers, ops[0]), ops[1..]);
    }
  }

  /** The buffer of a running conversation is the one its next delta is appended to, so no text is copied again
      and a frozen preview stays frozen. */
  lemma BufferIsReused(items: map<string, Entry>, buffers: Buffers, id: string, messageId: string)
    requires BuffersExact(items, buffers) && id in buffers
    ensures id in items && BufferFor(buffers, id, OpenAnswer(items[id], messageId)) == buffers[id]
  {
    hide Busy, CollapseWhitespace, Sound;
  }

  // ---- The frozen preview ---------------------------------------------------------------------

  lemma AssistantIsNoStep(m: Message)
    requires m.role == "assistant"
    ensures !IsProcessStep(m)
  {
    hide Trim;
    TrimOfTrimmed(m.role);
    assert |LowerAscii(m.role)| == 9;
  }

  /** The preview of a transcript that ends in a long answer does not depend on what is appended to it. */
  lemma FrozenPreview(messages: seq<Message>, delta: string, id: string)
    requires HasOpenAnswer(messages) && |CollapseWhitespace(LastOf(messages).content)| > PREVIEW_RUNES
    ensures Preview(DeltaMessages(messages, delta, id)) == Preview(messages)
  {
    hide CollapseWhitespace, TruncateRunes, IsProcessStep, Decimal;
    var before, after := LastOf(messages), LastOf(DeltaMessages(messages, delta, id));
    FullPreviewIsStable(before.content, after.content);
    AssistantIsNoStep(before);
    AssistantIsNoStep(after);
    LongTextShows(messages);
    LongTextShows(DeltaMessages(messages, delta, id));
  }

  lemma FrozenDelta(e: Entry, delta: string, id: string)
    requires HasOpenAnswer(e.core.messages) && |CollapseWhitespace(OpenAnswer(e, id).content)| > PREVIEW_RUNES
    ensures Preview(DeltaMessages(e.core.messages, delta, id)) == Preview(e.core.messages)
  {
    hide CollapseWhitespace, Preview, DeltaMessages;
    FrozenPreview(e.core.messages, delta, id);
  }

  lemma LongTextShows(messages: seq<Message>)
    requires messages != [] && !IsProcessStep(LastOf(messages)) && |CollapseWhitespace(LastOf(messages).content)| > PREVIEW_RUNES
    ensures Preview(messages) == TruncateRunes(CollapseWhitespace(LastOf(messages).content), PREVIEW_RUNES)
  {
    hide CollapseWhitespace, IsProcessStep, Decimal, Trim;
    LongTextSurvives(CollapseWhitespace(LastOf(messages).content));
  }

  lemma LongTextSurvives(text: string)
    requires |text| > PREVIEW_RUNES
    ensures text != ""
  {
  }
}
