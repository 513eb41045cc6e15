/** Matching the history a client sends against a stored transcript
    (internal/app/conversation_history.go:13-60, internal/app/conversations.go:492-512). */
module ConversationHistory {
  import opened Text
  import opened TranscriptMerge

  datatype Segment = Segment(role: string, text: string)

  /** The role of a segment that counts, with outer space and case removed. */
  function RoleOf(s: Segment): string {
    LowerAscii(Trim(s.role))
  }

  predicate Counts(s: Segment) {
    (RoleOf(s) == "user" || RoleOf(s) == "assistant") && Trim(s.text) != ""
  }

  /** A segment trimmed, if it counts. */
  function Counted(s: Segment): seq<Segment> {
    if Counts(s) then [Segment(RoleOf(s), Trim(s.text))] else []
  }

  /** exactConversationSegments: the user and assistant segments that have text, trimmed. */
  function ExactSegments(segments: seq<Segment>): seq<Segment> {
    if segments == [] then []
    else ExactSegments(segments[..|segments| - 1]) + Counted(segments[|segments| - 1])
  }

  function AsSegments(messages: seq<Message>): seq<Segment> {
    seq(|messages|, i requires 0 <= i < |messages| => Segment(messages[i].role, messages[i].content))
  }

  /** conversationMessageSegments: the stored transcript as segments. */
  function StoredSegments(messages: seq<Message>): seq<Segment> {
    ExactSegments(AsSegments(messages))
  }

  /** exactHistorySuffix: a non-empty history that the stored transcript ends with. */
  predicate IsSuffix(stored: seq<Segment>, incoming: seq<Segment>) {
    incoming != [] && |incoming| <= |stored| && stored[|stored| - |incoming|..] == incoming
  }

  /** A history without the user segment it ends with. */
  function WithoutPrompt(incoming: seq<Segment>): seq<Segment> {
    if incoming != [] && incoming[|incoming| - 1].role == "user" then incoming[..|incoming| - 1] else incoming
  }

  /** conversationHistoryCompatible */
  predicate Compatible(messages: seq<Message>, segments: seq<Segment>, incremental: bool) {
    var incoming := ExactSegments(segments);
    var stored := StoredSegments(messages);
    if incremental && |incoming| <= 1 then true
    else if incoming == [] || stored == [] then false
    else if IsSuffix(stored, WithoutPrompt(incoming)) then true
    else if stored[|stored| - 1].role == "assistant" then IsSuffix(stored[..|stored| - 1], incoming)
    else IsSuffix(stored, incoming)
  }

  // ---- Exact matching -------------------------------------------------------------------------

  predicate Exact(s: Segment) {
    (s.role == "user" || s.role == "assistant") && s.text != "" && Trim(s.text) == s.text
  }

  lemma ExactCounts(s: Segment)
    requires Exact(s)
    ensures Counted(s) == [s]
  {
    hide Trim;
    PlainRole("user");
    PlainRole("assistant");
  }

  lemma PlainRole(role: string)
    requires role == "user" || role == "assistant"
    ensures LowerAscii(Trim(role)) == role
  {
    hide Trim;
    TrimOfTrimmed(role);
    assert forall i :: 0 <= i < |role| ==> !('A' <= role[i] <= 'Z');
  }

  lemma CountedIsExact(s: Segment)
    requires Counts(s)
    ensures Exact(Segment(RoleOf(s), Trim(s.text)))
  {
    hide RoleOf;
    TrimOfTrimmed(Trim(s.text));
  }

  predicate AllExact(segments: seq<Segment>) {
    forall s :: s in segments ==> Exact(s)
  }

  lemma {:induction false} SegmentsAreExact(segments: seq<Segment>)
    ensures AllExact(ExactSegments(segments))
    decreases |segments|
  {
    hide Exact, Counts, RoleOf;
    if segments != [] {
      SegmentsAreExact(segments[..|segments| - 1]);
      var s := segments[|segments| - 1];
      if Counts(s) {
        CountedIsExact(s);
      }
    }
  }

  lemma {:induction false} ExactSegmentsKept(segments: seq<Segment>)
    requires AllExact(segments)
    ensures ExactSegments(segments) == segments
    decreases |segments|
  {
    hide Exact, Counted;
    if segments != [] {
      var init, s := segments[..|segments| - 1], segments[|segments| - 1];
      assert forall x :: x in init ==> x in segments;
      ExactSegmentsKept(init);
      ExactCounts(s);
    }
  }

  /** Normalising twice is normalising once, and the segments normalising leaves alone are exactly those
      with a plain role and trimmed text. */
  lemma ExactSegmentsFixed(segments: seq<Segment>)
    ensures ExactSegments(ExactSegments(segments)) == ExactSegments(segments)
    ensures ExactSegments(segments) == segments <==> AllExact(segments)
  {
    hide ExactSegments, AllExact;
    SegmentsAreExact(segments);
    ExactSegmentsKept(ExactSegments(segments));
    if AllExact(segments) {
      ExactSegmentsKept(segments);
    }
  }

  lemma {:induction false} ExactSegmentsAppend(a: seq<Segment>, b: seq<Segment>)
    ensures ExactSegments(a + b) == ExactSegments(a) + ExactSegments(b)
    decreases |b|
  {
    hide Counted;
    if b == [] {
      assert a + b == a;
    } else {
      ExactSegmentsAppend(a, b[..|b| - 1]);
      assert (a + b)[..|a + b| - 1] == a + b[..|b| - 1];
    }
  }

  /** A request with more segments than the stored transcript is reused exactly when it is the stored
      transcript followed by one user prompt. */
  lemma LongerHistoryMustMatch(messages: seq<Message>, segments: seq<Segment>, incremental: bool)
    requires |ExactSegments(segments)| > |StoredSegments(messages)|
    ensures Compatible(messages, segments, incremental) <==>
      || (incremental && |ExactSegments(segments)| <= 1)
      || (&& StoredSegments(messages) != []
          && WithoutPrompt(ExactSegments(segments)) == StoredSegments(messages)
          && ExactSegments(segments)[|ExactSegments(segments)| - 1].role == "user")
  {
    hide ExactSegments;
    var incoming, stored := ExactSegments(segments), StoredSegments(messages);
    if |WithoutPrompt(incoming)| == |stored| {
      assert stored[0..] == stored;
    }
  }

  /** The transcript ends with the given non-empty history. */
  ghost predicate EndsIn(stored: seq<Segment>, history: seq<Segment>) {
    history != [] && exists before :: stored == before + history
  }

  lemma SuffixEndsIn(stored: seq<Segment>, history: seq<Segment>)
    ensures IsSuffix(stored, history) <==> EndsIn(stored, history)
  {
    if IsSuffix(stored, history) {
      assert stored == stored[..|stored| - |history|] + history;
    }
  }

  /** Which requests are reused: an incremental one of at most one segment; one whose history, but for a prompt at
      its end, is a non-empty end of the stored transcript; and one whose history, prompt included, is a non-empty
      end of it up to its last answer, as when that answer is asked for again. */
  lemma ReusedExactly(messages: seq<Message>, segments: seq<Segment>, incremental: bool)
    ensures var incoming, stored := ExactSegments(segments), StoredSegments(messages);
      Compatible(messages, segments, incremental) <==>
        || (incremental && |incoming| <= 1)
        || (incoming != [] && incoming[|incoming| - 1].role == "user" && EndsIn(stored, incoming[..|incoming| - 1]))
        || (incoming != [] && incoming[|incoming| - 1].role != "user" && EndsIn(stored, incoming))
        || (stored != [] && stored[|stored| - 1].role == "assistant" && EndsIn(stored[..|stored| - 1], incoming))
        || (stored != [] && stored[|stored| - 1].role != "assistant" && EndsIn(stored, incoming))
  {
    hide ExactSegments, StoredSegments, IsSuffix, EndsIn;
    var incoming, stored := ExactSegments(segments), StoredSegments(messages);
    SuffixEndsIn(stored, WithoutPrompt(incoming));
    SuffixEndsIn(stored, incoming);
    NothingEndsIn(WithoutPrompt(incoming));
    EndsInSomething(stored);
    if stored != [] {
      SuffixEndsIn(stored[..|stored| - 1], incoming);
      EndsInSomething(stored[..|stored| - 1]);
    }
  }

  lemma NothingEndsIn(history: seq<Segment>)
    ensures !EndsIn([], history)
  {
  }

  lemma EndsInSomething(stored: seq<Segment>)
    ensures !EndsIn(stored, [])
  {
  }

  /** Asking for the last answer again is recognised. */
  lemma RegenerationIsReused(messages: seq<Message>, segments: seq<Segment>, before: seq<Segment>, q: Segment, a: Segment)
    requires StoredSegments(messages) == before + [q, a] && ExactSegments(segments) == before + [q]
    requires q.role == "user" && a.role == "assistant"
    ensures Compatible(messages, segments, false)
  {
    hide ExactSegments, StoredSegments;
    assert (before + [q, a])[..|before| + 1] == before + [q] && [] + (before + [q]) == before + [q];
    assert EndsIn(StoredSegments(messages)[..|before| + 1], ExactSegments(segments));
    ReusedExactly(messages, segments, false);
  }

  predicate OccursAt(stored: seq<Segment>, history: seq<Segment>, k: nat) {
    |stored| - 2 <= k + |history| <= |stored| && stored[k..k + |history|] == history
  }

  predicate StoredNearEnd(stored: seq<Segment>, history: seq<Segment>) {
    exists k: nat :: k <= |stored| && OccursAt(stored, history, k)
  }

  /** Whatever its length, a reused history is one the stored transcript really contains: its segments,
      but for a prompt at the end, are stored in one piece, at most one question and its answer from the end. */
  lemma ReusedHistoryIsStored(messages: seq<Message>, segments: seq<Segment>, incremental: bool)
    requires Compatible(messages, segments, incremental) && !(incremental && |ExactSegments(segments)| <= 1)
    ensures StoredNearEnd(StoredSegments(messages), WithoutPrompt(ExactSegments(segments)))
  {
    hide ExactSegments, StoredNearEnd, WithoutPrompt, StoredSegments, IsSuffix;
    var incoming, stored := ExactSegments(segments), StoredSegments(messages);
    var history := WithoutPrompt(incoming);
    if IsSuffix(stored, history) {
      SuffixOccurs(stored, history);
    } else if stored[|stored| - 1].role == "assistant" {
      PromptStripped(stored, incoming, |stored| - 1);
    } else {
      assert stored[..|stored|] == stored;
      PromptStripped(stored, incoming, |stored|);
    }
  }

  lemma SuffixOccurs(stored: seq<Segment>, history: seq<Segment>)
    requires IsSuffix(stored, history)
    ensures StoredNearEnd(stored, history)
  {
    assert OccursAt(stored, history, |stored| - |history|);
  }

  lemma PromptStripped(stored: seq<Segment>, incoming: seq<Segment>, end: nat)
    requires |stored| - 1 <= end <= |stored| && IsSuffix(stored[..end], incoming)
    ensures StoredNearEnd(stored, WithoutPrompt(incoming))
  {
    var k := end - |incoming|;
    assert stored[..end][k..] == stored[k..end];
    var history := WithoutPrompt(incoming);
    assert stored[k..k + |history|] == stored[k..end][..|history|];
    assert OccursAt(stored, history, k);
  }
}
