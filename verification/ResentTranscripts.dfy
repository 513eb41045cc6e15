/** A client that resends its whole transcript is recognised after any number of successful turns
    (internal/app/conversations.go:492-512, 576-738, 800-921, internal/app/conversation_history.go:38-60). */
module ResentTranscripts {
  import opened Wrappers
  import opened Text
  import opened Sanitizer
  import opened TranscriptMerge
  import opened MessageDeletion
  import opened ConversationHistory
  import opened ConversationEntries

  /** A turn that succeeds: its request, the deltas streamed while it runs, and its result. */
  datatype Turn = Turn(request: TurnRequest, userId: string, deltas: seq<string>, result: TurnResult, answerId: string)

  function Streamed(e: Entry, deltas: seq<string>, id: string): Entry {
    if deltas == [] then e else WithDelta(Streamed(e, deltas[..|deltas| - 1], id), deltas[|deltas| - 1], id)
  }

  function Finished(e: Entry, t: Turn): Entry {
    Completed(Streamed(e, t.deltas, t.answerId), t.result, t.answerId)
  }

  /** The first turn creates the conversation. */
  function Opened(first: Turn, ids: seq<string>): Entry
    requires IdsFor(first.request, ids)
  {
    Finished(Created(first.request, ids), first)
  }

  /** Every later turn continues it. */
  function Conversed(e: Entry, turns: seq<Turn>): Entry {
    if turns == [] then e
    else
      var t := turns[|turns| - 1];
      Finished(Continued(Conversed(e, turns[..|turns| - 1]), t.request, t.userId), t)
  }

  function UserSegment(t: Turn): Segment {
    Segment("user", t.request.prompt)
  }

  /** What a turn adds to the transcript the client holds: its prompt and the visible answer. */
  function Exchange(t: Turn): seq<Segment> {
    [UserSegment(t), Segment("assistant", Sanitize(t.result.text))]
  }

  function Held(start: seq<Segment>, turns: seq<Turn>): seq<Segment> {
    if turns == [] then start else Held(start, turns[..|turns| - 1]) + Exchange(turns[|turns| - 1])
  }

  // ---- The segments a turn stores -------------------------------------------------------------

  lemma StoredAppend(a: seq<Message>, b: seq<Message>)
    ensures StoredSegments(a + b) == StoredSegments(a) + StoredSegments(b)
  {
    hide ExactSegments;
    ExactSegmentsAppend(AsSegments(a), AsSegments(b));
    assert AsSegments(a + b) == AsSegments(a) + AsSegments(b);
  }

  lemma StoredOne(m: Message)
    ensures StoredSegments([m]) == Counted(Segment(m.role, m.content))
  {
    hide ExactSegments, Counted;
    assert AsSegments([m]) == [Segment(m.role, m.content)];
    OneSegment(Segment(m.role, m.content));
  }

  lemma StoredDependsOnText(a: seq<Message>, b: seq<Message>)
    requires |a| == |b| && forall i :: 0 <= i < |a| ==> a[i].role == b[i].role && a[i].content == b[i].content
    ensures StoredSegments(a) == StoredSegments(b)
  {
    assert AsSegments(a) == AsSegments(b);
  }

  lemma CountedTrims(role: string, text: string)
    ensures Counted(Segment(role, Trim(text))) == Counted(Segment(role, text))
  {
    hide Trim, LowerAscii;
    TrimOfTrimmed(Trim(text));
  }

  /** Streaming leaves the transcript before the open answer as it was. */
  lemma {:induction false} StreamedMessages(e: Entry, deltas: seq<string>, id: string)
    requires !HasOpenAnswer(e.core.messages)
    ensures var ms := Streamed(e, deltas, id).core.messages;
      ms == e.core.messages
      || (HasOpenAnswer(ms) && |ms| == |e.core.messages| + 1 && ms[..|ms| - 1] == e.core.messages)
    decreases |deltas|
  {
    hide Preview;
    if deltas != [] {
      StreamedMessages(e, deltas[..|deltas| - 1], id);
    }
  }

  /** However much was streamed, completing stores the transcript from before the answer and the final text. */
  lemma CompletedStores(messages: seq<Message>, streamed: seq<Message>, r: TurnResult, model: string, id: string)
    requires !HasOpenAnswer(messages)
    requires streamed == messages
      || (HasOpenAnswer(streamed) && |streamed| == |messages| + 1 && streamed[..|streamed| - 1] == messages)
    ensures StoredSegments(CompletedMessages(streamed, r, model, id))
      == StoredSegments(messages) + Counted(Segment("assistant", Sanitize(r.text)))
  {
    hide Sanitize, Trim, StoredSegments, Counted, FirstNonEmpty;
    var final := CompletedMessages(streamed, r, model, id);
    var n := |final| - 1;
    CompletedShape(messages, streamed, r, model, id);
    StoredDependsOnText(final[..n], messages);
    StoredAppend(final[..n], [final[n]]);
    StoredOne(final[n]);
    assert final == final[..n] + [final[n]];
  }

  /** The last message is the finished answer, and those before it have the text they had. */
  predicate EndsWithAnswer(messages: seq<Message>, final: seq<Message>, text: string) {
    && |final| == |messages| + 1
    && final[|messages|].role == "assistant" && final[|messages|].content == text && final[|messages|].status == "completed"
    && forall i :: 0 <= i < |messages| ==> final[i].role == messages[i].role && final[i].content == messages[i].content
  }

  lemma StampedShape(messages: seq<Message>, streamed: seq<Message>, stamped: seq<Message>)
    requires !HasOpenAnswer(messages) && |stamped| == |streamed|
    requires forall i :: 0 <= i < |streamed| ==>
      stamped[i] == streamed[i] || stamped[i] == streamed[i].(upstream := stamped[i].upstream)
    requires streamed == messages
      || (HasOpenAnswer(streamed) && |streamed| == |messages| + 1 && streamed[..|streamed| - 1] == messages)
    ensures HasOpenAnswer(stamped) <==> |stamped| == |messages| + 1
    ensures |stamped| == |messages| || |stamped| == |messages| + 1
    ensures forall i :: 0 <= i < |messages| ==>
      stamped[i].role == messages[i].role && stamped[i].content == messages[i].content
  {
    StampedKeepsOpen(streamed, stamped);
    assert forall i :: 0 <= i < |messages| ==> streamed[i] == messages[i];
  }

  lemma CompletedShape(messages: seq<Message>, streamed: seq<Message>, r: TurnResult, model: string, id: string)
    requires !HasOpenAnswer(messages)
    requires streamed == messages
      || (HasOpenAnswer(streamed) && |streamed| == |messages| + 1 && streamed[..|streamed| - 1] == messages)
    ensures EndsWithAnswer(messages, CompletedMessages(streamed, r, model, id), Sanitize(r.text))
  {
    hide Sanitize, Trim, FirstNonEmpty, WithUserStep;
    var stamped := if Trim(r.userMessageId) != "" then WithUserStep(streamed, Trim(r.userMessageId)) else streamed;
    StampedShape(messages, streamed, stamped);
  }

  lemma StampedKeepsOpen(a: seq<Message>, b: seq<Message>)
    requires |a| == |b| && forall i :: 0 <= i < |a| ==> b[i] == a[i] || b[i] == a[i].(upstream := b[i].upstream)
    ensures HasOpenAnswer(a) <==> HasOpenAnswer(b)
  {
  }

  lemma FinishedStores(e: Entry, t: Turn)
    requires !HasOpenAnswer(e.core.messages)
    ensures StoredSegments(Finished(e, t).core.messages)
      == StoredSegments(e.core.messages) + Counted(Segment("assistant", Sanitize(t.result.text)))
    ensures !HasOpenAnswer(Finished(e, t).core.messages) && Finished(e, t).core.status == "completed"
  {
    hide Preview, Sanitize, Trim, StoredSegments, Counted, FirstNonEmpty, CompletedMessages, Streamed;
    var s := Streamed(e, t.deltas, t.answerId);
    StreamedMessages(e, t.deltas, t.answerId);
    CompletedStores(e.core.messages, s.core.messages, t.result, s.model, t.answerId);
    CompletedShape(e.core.messages, s.core.messages, t.result, s.model, t.answerId);
  }

  lemma UserMessageStores(messages: seq<Message>, req: TurnRequest, id: string)
    ensures StoredSegments(messages + [UserMessage(id, req)])
      == StoredSegments(messages) + Counted(Segment("user", req.prompt))
  {
    hide StoredSegments, Counted, Trim;
    StoredAppend(messages, [UserMessage(id, req)]);
    StoredOne(UserMessage(id, req));
    CountedTrims("user", req.prompt);
  }

  lemma ContinuedStores(e: Entry, req: TurnRequest, id: string)
    requires HasUserTurn(req)
    ensures StoredSegments(Continued(e, req, id).core.messages)
      == StoredSegments(e.core.messages) + Counted(Segment("user", req.prompt))
    ensures !HasOpenAnswer(Continued(e, req, id).core.messages)
  {
    hide StoredSegments, Counted, Trim, Preview, HasUserTurn;
    var closed := CloseAnswer(e.core.messages);
    StoredDependsOnText(closed, e.core.messages);
    UserMessageStores(closed, req, id);
  }

  lemma CreatedStores(start: seq<Segment>, req: TurnRequest, ids: seq<string>)
    requires IdsFor(req, ids) && req.history == start + [Segment("user", req.prompt)] && Trim(req.prompt) != ""
    ensures StoredSegments(Created(req, ids).core.messages) == ExactSegments(start) + Counted(Segment("user", req.prompt))
    ensures !HasOpenAnswer(Created(req, ids).core.messages)
  {
    hide StoredSegments, Counted, Trim, Preview, ExactSegments, HistoryMessages;
    OpeningIsStart(start, req);
    var history := HistoryMessages(OpeningHistory(req), ids);
    HistoryStores(OpeningHistory(req), ids);
    ExactSegmentsFixed(start);
    UserMessageStores(history, req, ids[|ids| - 1]);
  }

  lemma OpeningIsStart(start: seq<Segment>, req: TurnRequest)
    requires req.history == start + [Segment("user", req.prompt)] && Trim(req.prompt) != ""
    ensures OpeningHistory(req) == ExactSegments(start)
  {
    hide ExactSegments, Trim;
    ExactSegmentsAppend(start, [Segment("user", req.prompt)]);
    OneSegment(Segment("user", req.prompt));
    PlainRole("user");
    assert ExactSegments(req.history) == ExactSegments(start) + [Segment("user", Trim(req.prompt))];
  }

  lemma OneSegment(s: Segment)
    ensures ExactSegments([s]) == Counted(s)
  {
    hide Counted;
    assert [s][..0] == [];
  }

  lemma HistoryStores(segments: seq<Segment>, ids: seq<string>)
    requires |segments| <= |ids|
    ensures StoredSegments(HistoryMessages(segments, ids)) == ExactSegments(segments)
  {
    hide ExactSegments;
    assert AsSegments(HistoryMessages(segments, ids)) == segments;
  }

  // ---- Main results ---------------------------------------------------------------------------

  /** A client that starts from a transcript and sends it with its first prompt. */
  predicate FirstRequest(start: seq<Segment>, first: Turn, ids: seq<string>) {
    && IdsFor(first.request, ids)
    && first.request.history == start + [UserSegment(first)] && Trim(first.request.prompt) != ""
  }

  lemma ExchangeSegments(held: seq<Segment>, t: Turn)
    ensures ExactSegments(held + Exchange(t))
      == ExactSegments(held) + Counted(UserSegment(t)) + Counted(Segment("assistant", Sanitize(t.result.text)))
  {
    hide ExactSegments, Counted, Sanitize;
    ExactSegmentsAppend(held, Exchange(t));
    ExactSegmentsAppend([UserSegment(t)], [Segment("assistant", Sanitize(t.result.text))]);
    OneSegment(UserSegment(t));
    OneSegment(Segment("assistant", Sanitize(t.result.text)));
    assert Exchange(t) == [UserSegment(t)] + [Segment("assistant", Sanitize(t.result.text))];
  }

  lemma OpenedStores(start: seq<Segment>, first: Turn, ids: seq<string>)
    requires FirstRequest(start, first, ids)
    ensures StoredSegments(Opened(first, ids).core.messages) == ExactSegments(start + Exchange(first))
    ensures !HasOpenAnswer(Opened(first, ids).core.messages) && Opened(first, ids).core.status == "completed"
    ensures ExactSegments(start + Exchange(first)) != []
  {
    hide ExactSegments, StoredSegments, Counted, Sanitize, Trim, Finished, Created, IdsFor, HasOpenAnswer;
    CreatedStores(start, first.request, ids);
    FinishedStores(Created(first.request, ids), first);
    ExchangeSegments(start, first);
    PromptCounts(first.request.prompt);
  }

  /** After any number of successful turns the stored transcript is the one the client holds. */
  lemma {:induction false} StoredIsHeld(e: Entry, held: seq<Segment>, turns: seq<Turn>)
    requires StoredSegments(e.core.messages) == ExactSegments(held)
    requires !HasOpenAnswer(e.core.messages) && e.core.status == "completed"
    requires forall t :: t in turns ==> HasUserTurn(t.request)
    ensures StoredSegments(Conversed(e, turns).core.messages) == ExactSegments(Held(held, turns))
    ensures !HasOpenAnswer(Conversed(e, turns).core.messages) && Conversed(e, turns).core.status == "completed"
    decreases |turns|
  {
    hide ExactSegments, StoredSegments, Counted, Sanitize, Trim, HasUserTurn, Finished, Continued, HasOpenAnswer;
    if turns != [] {
      var t, before := turns[|turns| - 1], turns[..|turns| - 1];
      assert t in turns && forall u :: u in before ==> u in turns;
      StoredIsHeld(e, held, before);
      ContinuedStores(Conversed(e, before), t.request, t.userId);
      FinishedStores(Continued(Conversed(e, before), t.request, t.userId), t);
      ExchangeSegments(Held(held, before), t);
    }
  }

  /** So the client's whole transcript with a next prompt is accepted as the history of this conversation. */
  lemma ResentTranscriptIsRecognised(start: seq<Segment>, first: Turn, ids: seq<string>, later: seq<Turn>,
                                     prompt: string, incremental: bool)
    requires FirstRequest(start, first, ids) && (forall t :: t in later ==> HasUserTurn(t.request)) && Trim(prompt) != ""
    ensures Compatible(Conversed(Opened(first, ids), later).core.messages,
                       Held(start + Exchange(first), later) + [Segment("user", prompt)], incremental)
  {
    hide ExactSegments, StoredSegments, Trim, Conversed, Held, HasUserTurn, IdsFor, Exchange, Opened, HasOpenAnswer;
    var held := Held(start + Exchange(first), later);
    OpenedStores(start, first, ids);
    StoredIsHeld(Opened(first, ids), start + Exchange(first), later);
    HeldGrows(start + Exchange(first), later);
    WithPrompt(held, prompt);
    assert ExactSegments(held)[0..] == ExactSegments(held);
  }

  lemma WithPrompt(held: seq<Segment>, prompt: string)
    requires Trim(prompt) != ""
    ensures var incoming := ExactSegments(held + [Segment("user", prompt)]);
      |incoming| > 0 && WithoutPrompt(incoming) == ExactSegments(held)
  {
    hide ExactSegments, Trim;
    ExactSegmentsAppend(held, [Segment("user", prompt)]);
    OneSegment(Segment("user", prompt));
    PromptCounts(prompt);
  }

  lemma PromptCounts(prompt: string)
    requires Trim(prompt) != ""
    ensures Counted(Segment("user", prompt)) == [Segment("user", Trim(prompt))]
  {
    hide Trim;
    PlainRole("user");
  }

  lemma {:induction false} HeldGrows(held: seq<Segment>, turns: seq<Turn>)
    requires ExactSegments(held) != []
    ensures ExactSegments(Held(held, turns)) != []
    decreases |turns|
  {
    hide ExactSegments, Counted, Sanitize;
    if turns != [] {
      HeldGrows(held, turns[..|turns| - 1]);
      ExchangeSegments(Held(held, turns[..|turns| - 1]), turns[|turns| - 1]);
    }
  }
}
