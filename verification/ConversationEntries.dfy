/** One conversation of the store and what each operation makes of it
    (internal/app/conversations.go:322-343, 467-490, 576-980). */
module ConversationEntries {
  import opened Wrappers
  import opened Text
  import opened Sanitizer
  import opened TranscriptMerge
  import opened MessageDeletion
  import opened ConversationHistory

  /** A conversation entry; core holds its status and transcript, preview is the cached one. */
  datatype Entry = Entry(
    core: Conversation, preview: string, title: string, error: string, model: string,
    responseId: string, completionId: string, threadId: string, accountEmail: string, spaceId: string)

  /** What a turn is started with; title is the one derived from the prompt. */
  datatype TurnRequest = TurnRequest(
    title: string, prompt: string, attachments: seq<string>, history: seq<Segment>, model: string, replay: bool)

  datatype TurnResult = TurnResult(
    text: string, threadId: string, messageId: string, accountEmail: string, spaceId: string,
    userMessageId: string, model: string, truncated: bool, attachments: seq<string>, cachedReplay: bool)

  // ---- The preview ----------------------------------------------------------------------------

  const PREVIEW_RUNES := 96

  function Decimal(n: nat): string {
    if n < 10 then [('0' as int + n) as char] else Decimal(n / 10) + [('0' as int + n % 10) as char]
  }

  predicate IsProcessStep(m: Message) {
    LowerAscii(Trim(m.role)) == "step"
  }

  /** What a message would show in a preview. */
  function PreviewText(m: Message): string {
    if IsProcessStep(m) then ""
    else
      var text := CollapseWhitespace(m.content);
      if text == "" && m.attachments != [] then Decimal(|m.attachments|) + " attachments" else text
  }

  /** conversationPreviewFromMessages: the start of the last message that shows anything. */
  function Preview(messages: seq<Message>): string {
    if messages == [] then ""
    else
      var text := PreviewText(messages[|messages| - 1]);
      if text != "" then TruncateRunes(text, PREVIEW_RUNES) else Preview(messages[..|messages| - 1])
  }

  method ComputePreview(messages: seq<Message>) returns (preview: string)
    ensures preview == Preview(messages)
  {
    hide IsProcessStep, CollapseWhitespace, TruncateRunes, Decimal;
    assert messages[..|messages|] == messages;
    var i := |messages|;
    while i > 0
      invariant 0 <= i <= |messages|
      invariant Preview(messages[..i]) == Preview(messages)
    {
      i := i - 1;
      assert messages[..i + 1][..i] == messages[..i];
      if IsProcessStep(messages[i]) {
        continue;
      }
      var text := CollapseWhitespace(messages[i].content);
      if text == "" && |messages[i].attachments| > 0 {
        text := Decimal(|messages[i].attachments|) + " attachments";
      }
      if text != "" {
        return TruncateRunes(text, PREVIEW_RUNES);
      }
    }
    return "";
  }

  function Refreshed(e: Entry): Entry {
    e.(preview := Preview(e.core.messages))
  }

  predicate SolidEnds(s: string) {
    s == [] || (!IsSpace(s[0]) && !IsSpace(s[|s| - 1]))
  }

  lemma SpacedEnds(word: string, rest: string)
    requires word != [] && SolidEnds(word) && SolidEnds(rest)
    ensures SolidEnds(Spaced(word, rest))
  {
    hide IsSpace;
  }

  lemma FirstWordIsSolid(t: string)
    requires t != [] && !IsSpace(t[0])
    ensures FirstWord(t) != [] && SolidEnds(FirstWord(t))
  {
    hide IsSpace;
    assert WordLength(t) > 0;
  }

  lemma {:induction false} WordsEnds(s: string)
    ensures SolidEnds(Words(s))
    decreases |s|
  {
    hide IsSpace, SolidEnds, FirstWord, Spaced;
    var t := TrimLeft(s);
    if t != [] {
      FirstWordIsSolid(t);
      WordsEnds(AfterFirstWord(t));
      SpacedEnds(FirstWord(t), Words(AfterFirstWord(t)));
    } else {
      NothingIsSolid();
    }
  }

  lemma NothingIsSolid()
    ensures SolidEnds([])
  {
  }

  /** Once more than 96 collapsed runes are there, appending text leaves the truncated form as it is. */
  lemma FullPreviewIsStable(a: string, b: string)
    requires a <= b && |CollapseWhitespace(a)| > 96
    ensures TruncateRunes(CollapseWhitespace(a), 96) == TruncateRunes(CollapseWhitespace(b), 96)
    ensures |CollapseWhitespace(b)| > 96
  {
    hide Words, Trim;
    CollapsePrefixStable(a, b);
    WordsEnds(Trim(a));
    WordsEnds(Trim(b));
    TrimOfTrimmed(CollapseWhitespace(a));
    TrimOfTrimmed(CollapseWhitespace(b));
  }

  // ---- Messages -------------------------------------------------------------------------------

  function LastOf(messages: seq<Message>): Message
    requires messages != []
  {
    messages[|messages| - 1]
  }

  function WithLast(messages: seq<Message>, m: Message): seq<Message>
    requires messages != []
  {
    messages[..|messages| - 1] + [m]
  }

  /** The last message is an answer still being written. */
  predicate HasOpenAnswer(messages: seq<Message>) {
    messages != [] && LastOf(messages).role == "assistant" && LastOf(messages).status != "completed"
  }

  function NewAnswer(id: string): Message {
    Message(id, "", "assistant", "", "streaming", "", None, false, [], "")
  }

  /** ensureAssistantMessageLocked */
  function WithOpenAnswer(messages: seq<Message>, id: string): (r: seq<Message>)
    ensures HasOpenAnswer(r)
  {
    if HasOpenAnswer(messages) then messages else messages + [NewAnswer(id)]
  }

  function UserMessage(id: string, req: TurnRequest): Message {
    Message(id, "", "user", "", "completed", Trim(req.prompt), None, false, req.attachments, "")
  }

  predicate HasUserTurn(req: TurnRequest) {
    Trim(req.prompt) != "" || req.attachments != []
  }

  /** An answer left open by a turn that ended is marked as failed. */
  function CloseAnswer(messages: seq<Message>): seq<Message> {
    if HasOpenAnswer(messages) then WithLast(messages, LastOf(messages).(status := "failed")) else messages
  }

  // ---- Turns ----------------------------------------------------------------------------------

  /** The history a new conversation starts from. */
  function OpeningHistory(req: TurnRequest): seq<Segment> {
    WithoutPrompt(ExactSegments(req.history))
  }

  /** One id for every history message and one for the prompt. */
  predicate IdsFor(req: TurnRequest, ids: seq<string>) {
    |ids| == |OpeningHistory(req)| + 1
  }

  function HistoryMessages(segments: seq<Segment>, ids: seq<string>): seq<Message>
    requires |segments| <= |ids|
  {
    seq(|segments|, i requires 0 <= i < |segments| =>
      Message(ids[i], "", segments[i].role, "", "completed", segments[i].text, None, false, [], ""))
  }

  function OpeningMessages(req: TurnRequest, ids: seq<string>): seq<Message>
    requires IdsFor(req, ids)
  {
    HistoryMessages(OpeningHistory(req), ids)
    + if HasUserTurn(req) then [UserMessage(ids[|ids| - 1], req)] else []
  }

  function Created(req: TurnRequest, ids: seq<string>): Entry
    requires IdsFor(req, ids)
  {
    var messages := OpeningMessages(req, ids);
    Entry(Conversation("running", "", messages, [], map[]), Preview(messages), req.title, "", Trim(req.model), "", "", "", "", "")
  }

  function ContinuedMessages(messages: seq<Message>, req: TurnRequest, id: string): seq<Message> {
    CloseAnswer(messages) + if HasUserTurn(req) then [UserMessage(id, req)] else []
  }

  function Continued(e: Entry, req: TurnRequest, id: string): Entry {
    var messages := ContinuedMessages(e.core.messages, req, id);
    e.(core := e.core.(status := "running", messages := messages), preview := Preview(messages), error := "",
       model := if Trim(req.model) != "" then Trim(req.model) else e.model)
  }

  function DeltaMessages(messages: seq<Message>, delta: string, id: string): seq<Message> {
    var open := WithOpenAnswer(messages, id);
    WithLast(open, LastOf(open).(content := LastOf(open).content + delta, status := "streaming"))
  }

  /** The simple form of a streamed delta: text appended to the open answer and the preview recomputed. */
  function WithDelta(e: Entry, delta: string, id: string): Entry {
    var messages := DeltaMessages(e.core.messages, delta, id);
    e.(core := e.core.(status := "running", messages := messages), preview := Preview(messages))
  }

  /** Records the upstream id of the user step on the last user message. */
  function WithUserStep(messages: seq<Message>, userId: string): (r: seq<Message>)
    ensures |r| == |messages|
    ensures forall i :: 0 <= i < |messages| ==> r[i] == messages[i] || r[i] == messages[i].(upstream := userId)
  {
    if messages == [] then []
    else
      var init, last := messages[..|messages| - 1], messages[|messages| - 1];
      if last.role == "user" then init + [last.(upstream := userId)] else WithUserStep(init, userId) + [last]
  }

  function Answered(m: Message, r: TurnResult, model: string): Message {
    m.(id := FirstNonEmpty(r.messageId, m.id), status := "completed", truncated := r.truncated,
       content := Sanitize(r.text), requestedModel := FirstNonEmpty(r.model, model), attachments := r.attachments)
  }

  function CompletedMessages(messages: seq<Message>, r: TurnResult, model: string, id: string): seq<Message> {
    var stamped := if Trim(r.userMessageId) != "" then WithUserStep(messages, Trim(r.userMessageId)) else messages;
    var open := WithOpenAnswer(stamped, id);
    WithLast(open, Answered(LastOf(open), r, model))
  }

  function Completed(e: Entry, r: TurnResult, id: string): Entry {
    var messages := CompletedMessages(e.core.messages, r, e.model, id);
    e.(core := e.core.(status := "completed", messageId := Trim(r.messageId), messages := messages),
       preview := Preview(messages), error := "", threadId := Trim(r.threadId), accountEmail := Trim(r.accountEmail),
       spaceId := FirstNonEmpty(r.spaceId, e.spaceId))
  }

  function Failed(e: Entry, error: string): Entry {
    var messages := CloseAnswer(e.core.messages);
    e.(core := e.core.(status := "failed", messages := messages), preview := Preview(messages), error := Trim(error))
  }

  // ---- Changes between turns ------------------------------------------------------------------

  function WithStatus(e: Entry, status: string): Entry {
    e.(core := e.core.(status := status))
  }

  function WithEnvelope(e: Entry, responseId: string, completionId: string): Entry {
    Refreshed(e.(responseId := if Trim(responseId) != "" then Trim(responseId) else e.responseId,
                 completionId := if Trim(completionId) != "" then Trim(completionId) else e.completionId))
  }

  function WithTarget(e: Entry, threadId: string, accountEmail: string, spaceId: string): Entry {
    e.(threadId := threadId, accountEmail := accountEmail, spaceId := spaceId)
  }

  /** The first message whose trimmed id is the one given, or -1. */
  function IndexOfEdited(messages: seq<Message>, id: string): (i: int)
    ensures -1 <= i < |messages|
  {
    if messages == [] then -1
    else if Trim(messages[0].id) == id then 0
    else
      var rest := IndexOfEdited(messages[1..], id);
      if rest < 0 then -1 else rest + 1
  }

  method FindEdited(messages: seq<Message>, id: string) returns (index: int)
    ensures index == IndexOfEdited(messages, id)
  {
    hide Trim;
    for i := 0 to |messages|
      invariant IndexOfEdited(messages, id) == if IndexOfEdited(messages[i..], id) < 0 then -1 else i + IndexOfEdited(messages[i..], id)
    {
      assert messages[i..][1..] == messages[i + 1..];
      if Trim(messages[i].id) == id {
        return i;
      }
    }
    return -1;
  }

  function WithContent(e: Entry, i: nat, content: string, at: int): Entry
    requires i < |e.core.messages|
  {
    Refreshed(e.(core := e.core.(messages := e.core.messages[i := e.core.messages[i].(content := content, editedAt := Some(at))])))
  }

  /** A busy or claimed row read back from disk belongs to a process that is gone. */
  function Interrupted(e: Entry): Entry {
    Refreshed(
      if Busy(e.core.status) || e.core.status == "deleting" then
        e.(error := "turn was interrupted by a restart",
           core := e.core.(status := "failed", messages :=
             seq(|e.core.messages|, i requires 0 <= i < |e.core.messages| =>
               var m := e.core.messages[i];
               if m.status == "streaming" || m.status == "running" then m.(status := "failed") else m)))
      else e)
  }
}
