/** What the operations on one conversation leave behind, field by field and message by message
    (internal/app/conversations.go:576-980, 1181-1292, 1479-1490). */
module TurnOutcomes {
  import opened Wrappers
  import opened Text
  import opened Sanitizer
  import opened TranscriptMerge
  import opened MessageDeletion
  import opened ConversationHistory
  import opened ConversationEntries

  /** Message i is an answer the turn before left open. */
  predicate LeftOpen(messages: seq<Message>, i: int) {
    0 <= i == |messages| - 1 && messages[i].role == "assistant" && messages[i].status != "completed"
  }

  /** Message i is the last one of a user. */
  predicate LastUser(messages: seq<Message>, i: int) {
    0 <= i < |messages| && messages[i].role == "user" && forall k :: i < k < |messages| ==> messages[k].role != "user"
  }

  predicate HasPrompt(req: TurnRequest) {
    Trim(req.prompt) != "" || |req.attachments| > 0
  }

  /** A finished message of the given role and text, with nothing else recorded on it. */
  predicate Plain(m: Message, id: string, role: string, text: string) {
    && m.id == id && m.role == role && m.content == text && m.status == "completed"
    && m.upstream == "" && m.stepType == "" && m.requestedModel == "" && m.editedAt.None? && !m.truncated
  }

  /** The messages of a turn before are as they were, but that one left open has failed. */
  predicate OldMessagesKept(before: seq<Message>, after: seq<Message>) {
    |before| <= |after|
    && forall i :: 0 <= i < |before| ==> after[i] == if LeftOpen(before, i) then before[i].(status := "failed") else before[i]
  }

  /** A new conversation is running and holds the history it was sent, without a final prompt of its own, and the
      prompt. */
  lemma CreatedOutcome(req: TurnRequest, ids: seq<string>)
    requires IdsFor(req, ids)
    ensures var e, h := Created(req, ids), OpeningHistory(req);
      && e.core.status == "running" && e.title == req.title && e.model == Trim(req.model) && e.error == ""
      && e.responseId == "" && e.completionId == "" && e.threadId == "" && e.accountEmail == "" && e.spaceId == ""
      && e.core.messageId == "" && e.core.deletedIds == [] && e.core.legacyTurns == map[]
      && e.preview == Preview(e.core.messages)
      && |e.core.messages| == |h| + (if HasPrompt(req) then 1 else 0)
      && (forall i :: 0 <= i < |h| ==>
            Plain(e.core.messages[i], ids[i], h[i].role, h[i].text) && e.core.messages[i].attachments == [])
      && (HasPrompt(req) ==>
            && Plain(e.core.messages[|h|], ids[|h|], "user", Trim(req.prompt))
            && e.core.messages[|h|].attachments == req.attachments)
  {
    hide Preview, Trim, OpeningHistory;
  }

  /** A turn continued keeps the transcript, an answer left open apart, and adds the prompt. */
  lemma ContinuedOutcome(e: Entry, req: TurnRequest, id: string)
    ensures var r, ms := Continued(e, req, id), e.core.messages;
      && r == e.(core := e.core.(status := "running", messages := r.core.messages),
                 preview := Preview(r.core.messages), error := "",
                 model := if Trim(req.model) == "" then e.model else Trim(req.model))
      && OldMessagesKept(ms, r.core.messages)
      && |r.core.messages| == |ms| + (if HasPrompt(req) then 1 else 0)
      && (HasPrompt(req) ==>
            && Plain(r.core.messages[|ms|], id, "user", Trim(req.prompt))
            && r.core.messages[|ms|].attachments == req.attachments)
  {
    hide Preview, Trim;
  }

  /** A delta makes the answer left open, or a new one, longer by its text; nothing else changes. */
  lemma DeltaOutcome(e: Entry, delta: string, id: string)
    ensures var r, ms := WithDelta(e, delta, id), e.core.messages;
      && r == e.(core := e.core.(status := "running", messages := r.core.messages), preview := Preview(r.core.messages))
      && (if LeftOpen(ms, |ms| - 1) then
            && |r.core.messages| == |ms| && r.core.messages[..|ms| - 1] == ms[..|ms| - 1]
            && r.core.messages[|ms| - 1] ==
                 ms[|ms| - 1].(content := ms[|ms| - 1].content + delta, status := "streaming")
          else
            && |r.core.messages| == |ms| + 1 && r.core.messages[..|ms|] == ms
            && r.core.messages[|ms|].id == id && r.core.messages[|ms|].role == "assistant"
            && r.core.messages[|ms|].content == delta && r.core.messages[|ms|].status == "streaming")
  {
    hide Preview;
  }

  /** The id of the user step goes to the last message of a user, and to no other. */
  lemma {:induction false} StampedUser(messages: seq<Message>, userId: string)
    ensures |WithUserStep(messages, userId)| == |messages|
    ensures forall i :: 0 <= i < |messages| ==>
      WithUserStep(messages, userId)[i] == if LastUser(messages, i) then messages[i].(upstream := userId) else messages[i]
    decreases |messages|
  {
    if messages != [] {
      var init, last := messages[..|messages| - 1], messages[|messages| - 1];
      StampedUser(init, userId);
      forall i | 0 <= i < |init| ensures LastUser(messages, i) <==> last.role != "user" && LastUser(init, i) {
        assert last.role != "user" ==> forall k :: i < k < |messages| ==> k == |init| || messages[k] == init[k];
      }
    }
  }

  /** The answer of a finished turn: what the result says, and otherwise what was streamed. */
  predicate AnswerOf(a: Message, open: Message, res: TurnResult, model: string) {
    && a.role == "assistant" && a.status == "completed" && a.content == Sanitize(res.text)
    && a.truncated == res.truncated && a.attachments == res.attachments
    && a.id == (if Trim(res.messageId) != "" then Trim(res.messageId) else Trim(open.id))
    && a.requestedModel == (if Trim(res.model) != "" then Trim(res.model) else Trim(model))
    && a.upstream == open.upstream && a.stepType == open.stepType && a.editedAt == open.editedAt
  }

  /** Where the answer of a finished turn goes. */
  function AnswerAt(messages: seq<Message>): nat {
    if LeftOpen(messages, |messages| - 1) then |messages| - 1 else |messages|
  }

  function Stamped(messages: seq<Message>, userId: string): seq<Message> {
    if userId != "" then WithUserStep(messages, userId) else messages
  }

  lemma StampingKeepsOpen(messages: seq<Message>, userId: string)
    ensures |Stamped(messages, userId)| == |messages|
    ensures forall i :: 0 <= i < |messages| ==>
      Stamped(messages, userId)[i] == if LastUser(messages, i) && userId != "" then messages[i].(upstream := userId) else messages[i]
    ensures AnswerAt(Stamped(messages, userId)) == AnswerAt(messages)
    ensures AnswerAt(messages) < |messages| ==> Stamped(messages, userId)[AnswerAt(messages)] == messages[AnswerAt(messages)]
  {
    hide WithUserStep;
    StampedUser(messages, userId);
  }

  lemma OpenedAt(messages: seq<Message>, id: string)
    ensures var n, r := AnswerAt(messages), WithOpenAnswer(messages, id);
      && |r| == n + 1 && r[..n] == messages[..n]
      && r[n] == if n < |messages| then messages[n] else Message(id, "", "assistant", "", "streaming", "", None, false, [], "")
  {
  }

  lemma AnsweredOutcome(open: Message, res: TurnResult, model: string)
    requires open.role == "assistant"
    ensures AnswerOf(Answered(open, res, model), open, res, model)
  {
    hide Trim, Sanitize;
  }

  /** A turn completed changes one answer, the open one or a new one at the end, and stamps the last user message
      with the id of its step, if there is one. */
  lemma CompletedMessagesOutcome(ms: seq<Message>, res: TurnResult, model: string, id: string)
    ensures var r, n := CompletedMessages(ms, res, model, id), AnswerAt(ms);
      && |r| == n + 1
      && (forall i :: 0 <= i < n ==>
            r[i] == if LastUser(ms, i) && Trim(res.userMessageId) != "" then ms[i].(upstream := Trim(res.userMessageId)) else ms[i])
      && AnswerOf(r[n], if n < |ms| then ms[n] else Message(id, "", "assistant", "", "streaming", "", None, false, [], ""), res, model)
  {
    hide Trim, WithUserStep, LastUser, Answered, AnswerOf, AnswerAt, WithOpenAnswer;
    var stamped, n := Stamped(ms, Trim(res.userMessageId)), AnswerAt(ms);
    StampingKeepsOpen(ms, Trim(res.userMessageId));
    OpenedAt(stamped, id);
    var open := WithOpenAnswer(stamped, id);
    AnswerIsAnswer(ms);
    AnsweredOutcome(open[n], res, model);
    assert forall i :: 0 <= i < n ==> open[i] == open[..n][i] == stamped[..n][i] == stamped[i];
  }

  lemma AnswerIsAnswer(messages: seq<Message>)
    ensures AnswerAt(messages) <= |messages|
    ensures AnswerAt(messages) < |messages| ==> messages[AnswerAt(messages)].role == "assistant"
  {
  }

  lemma CompletedOutcome(e: Entry, res: TurnResult, id: string)
    ensures var r := Completed(e, res, id);
      && r == e.(core := e.core.(status := "completed", messageId := Trim(res.messageId),
                                 messages := CompletedMessages(e.core.messages, res, e.model, id)),
                 preview := Preview(r.core.messages), error := "", threadId := Trim(res.threadId),
                 accountEmail := Trim(res.accountEmail),
                 spaceId := if Trim(res.spaceId) != "" then Trim(res.spaceId) else Trim(e.spaceId))
  {
    hide Preview, Trim, CompletedMessages;
  }

  /** A turn failed keeps the transcript; an answer left open has failed. */
  lemma FailedOutcome(e: Entry, error: string)
    ensures var r, ms := Failed(e, error), e.core.messages;
      && r == e.(core := e.core.(status := "failed", messages := r.core.messages),
                 preview := Preview(r.core.messages), error := Trim(error))
      && |r.core.messages| == |ms| && OldMessagesKept(ms, r.core.messages)
  {
    hide Preview, Trim;
  }

  /** An interrupted turn read back from disk has failed, as have its messages that were being written. */
  lemma InterruptedOutcome(e: Entry)
    ensures var r, ms := Interrupted(e), e.core.messages;
      && r.preview == Preview(r.core.messages)
      && (if LowerAscii(Trim(e.core.status)) == "running" || e.core.status == "deleting" then
            && r == e.(core := e.core.(status := "failed", messages := r.core.messages), preview := r.preview,
                       error := "turn was interrupted by a restart")
            && |r.core.messages| == |ms|
            && forall i :: 0 <= i < |ms| ==>
                 r.core.messages[i] == if ms[i].status == "streaming" || ms[i].status == "running"
                                       then ms[i].(status := "failed") else ms[i]
          else r == e.(preview := r.preview))
  {
    hide Preview, Trim, LowerAscii;
  }

  /** An edit changes the text and edit time of one message. */
  lemma EditOutcome(e: Entry, i: nat, content: string, at: int)
    requires i < |e.core.messages|
    ensures var r, ms := WithContent(e, i, content, at), e.core.messages;
      && r == e.(core := e.core.(messages := r.core.messages), preview := Preview(r.core.messages))
      && |r.core.messages| == |ms| && (forall k :: 0 <= k < |ms| && k != i ==> r.core.messages[k] == ms[k])
      && r.core.messages[i] == ms[i].(content := content, editedAt := Some(at))
  {
    hide Preview;
  }

  /** The message edited is the first with the id. */
  lemma {:induction false} EditedIsFirst(messages: seq<Message>, id: string)
    ensures var i := IndexOfEdited(messages, id);
      && (i >= 0 ==> Trim(messages[i].id) == id && forall k :: 0 <= k < i ==> Trim(messages[k].id) != id)
      && (i < 0 ==> forall m :: m in messages ==> Trim(m.id) != id)
    decreases |messages|
  {
    hide Trim;
    if messages != [] {
      EditedIsFirst(messages[1..], id);
      assert messages == [messages[0]] + messages[1..];
    }
  }

  /** The envelope's ids replace those recorded, unless they are blank; the target replaces the one pinned. */
  lemma HeaderOutcome(e: Entry, responseId: string, completionId: string, threadId: string, accountEmail: string, spaceId: string)
    ensures WithEnvelope(e, responseId, completionId) ==
      e.(responseId := if Trim(responseId) == "" then e.responseId else Trim(responseId),
         completionId := if Trim(completionId) == "" then e.completionId else Trim(completionId),
         preview := Preview(e.core.messages))
    ensures WithTarget(e, threadId, accountEmail, spaceId) ==
      e.(threadId := threadId, accountEmail := accountEmail, spaceId := spaceId)
  {
    hide Trim, Preview;
  }

  // ---- What a preview shows -------------------------------------------------------------------

  /** The number a row of digits stands for. */
  function ValueOf(digits: string): int {
    if digits == "" then 0 else 10 * ValueOf(digits[..|digits| - 1]) + (digits[|digits| - 1] as int - '0' as int)
  }

  lemma {:induction false} DecimalDigits(n: nat)
    ensures ValueOf(Decimal(n)) == n
    ensures forall c :: c in Decimal(n) ==> '0' <= c <= '9'
    ensures Decimal(n) != "" && (n > 0 ==> Decimal(n)[0] != '0')
    decreases n
  {
    if n >= 10 {
      DecimalDigits(n / 10);
      assert Decimal(n)[..|Decimal(n)| - 1] == Decimal(n / 10);
    } else {
      assert Decimal(n)[..0] == "";
    }
  }

  /** A message that is no process step shows its collapsed text, or without one the number of its attachments. */
  predicate Shows(m: Message, text: string) {
    && LowerAscii(Trim(m.role)) != "step"
    && (if CollapseWhitespace(m.content) != "" then text == CollapseWhitespace(m.content)
        else |m.attachments| > 0 && text == Decimal(|m.attachments|) + " attachments")
  }

  ghost predicate ShowsNothing(m: Message) {
    forall text :: !Shows(m, text)
  }

  lemma PreviewTextShows(m: Message)
    ensures PreviewText(m) != "" ==> Shows(m, PreviewText(m))
    ensures PreviewText(m) == "" ==> ShowsNothing(m)
  {
    hide CollapseWhitespace, Trim, LowerAscii, Decimal;
    assert forall n: nat :: (Decimal(n) + " attachments") != "";
  }

  ghost predicate ShownLast(messages: seq<Message>, i: int, text: string) {
    0 <= i < |messages| && Shows(messages[i], text) && forall k :: i < k < |messages| ==> ShowsNothing(messages[k])
  }

  /** The preview is the start of what the last message shows that shows anything. */
  lemma {:induction false} PreviewIsLastShown(messages: seq<Message>)
    ensures (forall m :: m in messages ==> ShowsNothing(m)) ==> Preview(messages) == ""
    ensures forall i, text :: ShownLast(messages, i, text) ==> Preview(messages) == TruncateRunes(text, 96)
    decreases |messages|
  {
    hide Shows, ShowsNothing, PreviewText, TruncateRunes;
    if messages != [] {
      var init, last := messages[..|messages| - 1], messages[|messages| - 1];
      PreviewTextShows(last);
      PreviewIsLastShown(init);
      assert last in messages && forall m :: m in init ==> m in messages;
      if ShowsNothing(last) {
        NothingIsShown(last);
      }
      forall i, text | ShownLast(messages, i, text) ensures Preview(messages) == TruncateRunes(text, 96) {
        if i < |init| {
          assert ShowsNothing(messages[|messages| - 1]);
          assert messages[i] == init[i] && forall k :: i < k < |init| ==> messages[k] == init[k];
          assert ShownLast(init, i, text);
        } else {
          ShownIs(last, text);
        }
      }
    }
  }

  lemma ShownIs(m: Message, text: string)
    requires Shows(m, text)
    ensures PreviewText(m) == text && text != ""
  {
    hide CollapseWhitespace, Trim, LowerAscii, Decimal;
    assert |Decimal(|m.attachments|) + " attachments"| > 0;
  }

  lemma NothingIsShown(m: Message)
    requires ShowsNothing(m)
    ensures PreviewText(m) == ""
  {
    if PreviewText(m) != "" {
      PreviewTextShows(m);
    }
  }

}
