/** The upstream patch-stream decoder: patches and snapshots change the steps of a transcript, and
    only text the client does not hold yet is sent on (internal/app/notion_client.go:2262-2811). */
module StreamDecoder {
  import opened Text
  import opened Sanitizer
  import opened AgentText
  import opened PatchEntries

  // ---- The transcript as plain data -----------------------------------------------------------

  datatype Step = Step(agent: bool, text: string, reasoning: string)

  datatype Role = AgentRole | UserRole | OtherRole

  /** A step as a snapshot or an append operation carries it. */
  datatype RawStep = RawStep(role: Role, parts: seq<Part>)

  datatype PatchOp =
    | AppendStepOp(raw: RawStep)
    | AppendValueOp(step: int, part: Part)
    | ContentFieldOp(step: int, value: nat, how: ContentOp, content: string)
    | TypeFieldOp(step: int, value: nat, kind: Kind)
    | RemoveValueOp(step: int, value: nat)

  datatype Doc = Doc(
    steps: seq<Step>, entries: seq<seq<Entry>>, active: int,
    text: Delivery, reasoning: Delivery, finalText: string, finalReasoning: string)

  /** The trimmed contents of the parts of one kind, run together. */
  function JoinContents(parts: seq<Part>, kind: Kind): string {
    if parts == [] then ""
    else
      var p := parts[|parts| - 1];
      JoinContents(parts[..|parts| - 1], kind) + if p.kind == kind then Trim(p.content) else ""
  }

  lemma {:induction false} JoinedInTurn(a: seq<Part>, b: seq<Part>, p: Part, kind: Kind)
    ensures JoinContents(a + b, kind) == JoinContents(a, kind) + JoinContents(b, kind)
    ensures JoinContents([p], kind) == if p.kind == kind then Trim(p.content) else ""
    decreases |b|
  {
    hide Trim;
    assert [p][..0] == [];
    if b == [] {
      assert a + b == a;
    } else {
      assert (a + b)[..|a + b| - 1] == a + b[..|b| - 1];
      JoinedInTurn(a, b[..|b| - 1], p, kind);
    }
  }

  function AgentStep(parts: seq<Part>): Step {
    Step(true, JoinContents(parts, TextKind), JoinContents(parts, ReasoningKind))
  }

  function JoinParagraphs(parts: seq<string>): string {
    if parts == [] then ""
    else if |parts| == 1 then parts[0]
    else JoinParagraphs(parts[..|parts| - 1]) + "\n\n" + parts[|parts| - 1]
  }

  /** Paragraphs are separated by blank lines. */
  lemma {:induction false} ParagraphsInTurn(a: seq<string>, b: seq<string>)
    requires a != [] && b != []
    ensures JoinParagraphs(a + b) == JoinParagraphs(a) + "\n\n" + JoinParagraphs(b)
    ensures |a| == 1 ==> JoinParagraphs(a) == a[0]
    decreases |b|
  {
    var all, init, last := a + b, b[..|b| - 1], b[|b| - 1];
    assert all[..|all| - 1] == a + init && all[|all| - 1] == last;
    LastParagraph(all);
    if init == [] {
      assert a + init == a;
    } else {
      LastParagraph(b);
      ParagraphsInTurn(a, init);
      hide JoinParagraphs;
      var x, y := JoinParagraphs(a), JoinParagraphs(init);
      assert ((x + "\n\n") + y) + "\n\n" + last == (x + "\n\n") + (y + "\n\n" + last);
    }
  }

  lemma LastParagraph(parts: seq<string>)
    requires |parts| > 1
    ensures JoinParagraphs(parts) == JoinParagraphs(parts[..|parts| - 1]) + "\n\n" + parts[|parts| - 1]
  {
  }

  function ReasoningParts(steps: seq<Step>): seq<string> {
    if steps == [] then []
    else
      var s := steps[|steps| - 1];
      ReasoningParts(steps[..|steps| - 1]) + if Trim(s.reasoning) == "" then [] else [Sanitize(s.reasoning)]
  }

  /** composeReasoningText */
  function ReasoningOf(steps: seq<Step>, finalReasoning: string): string {
    var parts := ReasoningParts(steps);
    if parts != [] then JoinParagraphs(parts) else Sanitize(finalReasoning)
  }

  function EmitText(d: Doc, full: string): Doc {
    d.(text := Deliver(d.text, Sanitize(full)), finalText := Sanitize(full))
  }

  function EmitReasoning(d: Doc): Doc {
    var full := Trim(ReasoningOf(d.steps, d.finalReasoning));
    d.(reasoning := Deliver(d.reasoning, full), finalReasoning := full)
  }

  predicate WellFormed(d: Doc) {
    |d.entries| == |d.steps|
  }

  predicate IsAgent(d: Doc, i: int) {
    0 <= i < |d.steps| && d.steps[i].agent
  }

  function RefreshReasoning(d: Doc, i: nat): (d': Doc)
    requires WellFormed(d) && i < |d.steps|
    ensures WellFormed(d') && |d'.steps| == |d.steps|
  {
    var parts := PartsOf(d.entries[i], ReasoningKind);
    if parts == [] then d
    else EmitReasoning(d.(steps := d.steps[i := d.steps[i].(reasoning := FoldParts(parts))]))
  }

  function RefreshText(d: Doc, i: nat): (d': Doc)
    requires WellFormed(d) && i < |d.steps|
    ensures WellFormed(d') && |d'.steps| == |d.steps|
  {
    var parts := PartsOf(d.entries[i], TextKind);
    if parts == [] then d
    else EmitText(d.(steps := d.steps[i := d.steps[i].(text := FoldParts(parts))]), FoldParts(parts))
  }

  /** refreshAgentStepFromPatchState */
  function Refresh(d: Doc, i: nat): (d': Doc)
    requires WellFormed(d) && i < |d.steps|
    ensures WellFormed(d') && |d'.steps| == |d.steps|
  {
    RefreshText(RefreshReasoning(d, i), i)
  }

  /** Gives step i new entries, makes it the active step and sends what it now shows. */
  function SetEntries(d: Doc, i: nat, es: seq<Entry>): Doc
    requires WellFormed(d) && i < |d.steps|
  {
    Refresh(d.(entries := d.entries[i := es], active := i), i)
  }

  /** applyPatchOperation on the plain data. */
  function ApplyOp(d: Doc, op: PatchOp): (d': Doc)
    requires WellFormed(d)
    ensures WellFormed(d')
  {
    match op
    case AppendStepOp(raw) =>
      var step := if raw.role == AgentRole then AgentStep(raw.parts) else Step(false, "", "");
      var d1 := d.(steps := d.steps + [step], entries := d.entries + [StoredParts(raw.parts)]);
      if raw.role == AgentRole then EmitText(EmitReasoning(d1.(active := |d.steps|)), step.text) else d1
    case AppendValueOp(i, part) =>
      if !(0 <= i < |d.steps|) then d
      else if d.steps[i].agent then SetEntries(d, i, AppendPart(d.entries[i], part))
      else d.(entries := d.entries[i := AppendPart(d.entries[i], part)])
    case ContentFieldOp(i, v, how, content) =>
      if !IsAgent(d, i) then d else SetEntries(d, i, PatchText(d.entries[i], v, how, content))
    case TypeFieldOp(i, v, kind) =>
      if !IsAgent(d, i) then d else SetEntries(d, i, PatchKind(d.entries[i], v, kind))
    case RemoveValueOp(i, v) =>
      if !IsAgent(d, i) then d else SetEntries(d, i, RemoveEntry(d.entries[i], v))
  }

  /** A field patch aimed at or above the number of entries of its step. */
  predicate StrayPatch(d: Doc, op: PatchOp)
    requires WellFormed(d)
  {
    match op
    case ContentFieldOp(i, v, _, content) => IsAgent(d, i) && content != "" && v >= |d.entries[i]|
    case TypeFieldOp(i, v, _) => IsAgent(d, i) && v >= |d.entries[i]|
    case _ => false
  }

  function ApplyOps(d: Doc, ops: seq<PatchOp>): (d': Doc)
    requires WellFormed(d)
    ensures WellFormed(d')
    decreases |ops|
  {
    if ops == [] then d else ApplyOps(ApplyOp(d, ops[0]), ops[1..])
  }

  predicate NoStrayPatch(d: Doc, ops: seq<PatchOp>)
    requires WellFormed(d)
    decreases |ops|
  {
    ops == [] || (!StrayPatch(d, ops[0]) && NoStrayPatch(ApplyOp(d, ops[0]), ops[1..]))
  }

  // ---- Snapshots ------------------------------------------------------------------------------

  function LastUser(raw: seq<RawStep>): (i: int)
    ensures -1 <= i < |raw|
  {
    if raw == [] then -1
    else if raw[|raw| - 1].role == UserRole then |raw| - 1
    else LastUser(raw[..|raw| - 1])
  }

  function SnapshotStep(raw: RawStep, afterUser: bool): Step {
    if raw.role == AgentRole && afterUser then AgentStep(raw.parts) else Step(raw.role == AgentRole, "", "")
  }

  function SnapshotSteps(raw: seq<RawStep>, lastUser: int): (steps: seq<Step>)
    ensures |steps| == |raw|
  {
    seq(|raw|, i requires 0 <= i < |raw| => SnapshotStep(raw[i], i > lastUser))
  }

  function SnapshotEntries(raw: seq<RawStep>): (es: seq<seq<Entry>>)
    ensures |es| == |raw|
  {
    seq(|raw|, i requires 0 <= i < |raw| => StoredParts(raw[i].parts))
  }

  /** The last inference step after the last user step, or -1. */
  function SnapshotActive(raw: seq<RawStep>, lastUser: int): (i: int)
    ensures -1 <= i < |raw|
  {
    if raw == [] then -1
    else if raw[|raw| - 1].role == AgentRole && |raw| - 1 > lastUser then |raw| - 1
    else SnapshotActive(raw[..|raw| - 1], lastUser)
  }

  /** applySnapshot: every step is replaced, what was already sent is remembered. */
  function ApplySnapshot(d: Doc, raw: seq<RawStep>): (d': Doc)
    ensures WellFormed(d')
  {
    var lastUser := LastUser(raw);
    var active := SnapshotActive(raw, lastUser);
    var d1 := d.(steps := SnapshotSteps(raw, lastUser), entries := SnapshotEntries(raw), active := active);
    if active < 0 then d1 else EmitText(EmitReasoning(d1), d1.steps[active].text)
  }

  // ---- The decoder ----------------------------------------------------------------------------

  class TranscriptState {
    var steps: seq<Step>
    var activeAgentIndex: int
    var emittedText: string
    var emittedReasoning: string
    var finalText: string
    var finalReasoning: string
    var patchValueTypes: map<Key, Kind>
    var patchValueText: map<Key, string>
    var patchValueCounts: map<nat, nat>
    /** Everything handed to the sink so far. */
    var sentText: string
    var sentReasoning: string

    constructor ()
      ensures Tracks()
      ensures Plain() == Doc([], [], -1, Delivery("", ""), Delivery("", ""), "", "")
    {
      steps, activeAgentIndex := [], -1;
      emittedText, emittedReasoning, finalText, finalReasoning := "", "", "", "";
      patchValueTypes, patchValueText, patchValueCounts := map[], map[], map[];
      sentText, sentReasoning := "", "";
    }

    function Patches(): Maps
      reads this
    {
      Maps(patchValueTypes, patchValueText, patchValueCounts)
    }

    ghost predicate Tracks()
      reads this
    {
      NoStaleKey(Patches(), |steps|)
    }

    /** The state with its dictionaries read back as sequences. */
    ghost function Plain(): (d: Doc)
      reads this
      ensures WellFormed(d)
    {
      Doc(steps, AllEntries(Patches(), |steps|), activeAgentIndex,
          Delivery(emittedText, sentText), Delivery(emittedReasoning, sentReasoning), finalText, finalReasoning)
    }

    /** Records the content of an entry whose key is new. */
    method StoreFreshContent(key: Key, part: Part)
      requires key !in patchValueText && key !in patchValueTypes && part.kind != NoKind
      modifies this`patchValueTypes, this`patchValueText
      ensures StoredAt(old(Patches()), Patches(), key.0, key.1, part)
    {
      hide Trim;
      patchValueTypes := patchValueTypes[key := part.kind];
      if Trim(part.content) != "" {
        patchValueText := patchValueText[key := MergeCumulative(TextAt(Patches(), key), part.content)];
      }
    }

    method RegisterStepValueTypes(step: nat, parts: seq<Part>)
      requires NoStaleKey(Patches(), step)
      modifies this`patchValueTypes, this`patchValueText, this`patchValueCounts
      ensures NoStaleKey(Patches(), step + 1)
      ensures SameElsewhere(old(Patches()), Patches(), step)
      ensures EntriesAt(Patches(), step) == StoredParts(parts)
    {
      ghost var m := Patches();
      patchValueCounts := patchValueCounts[step := |parts|];
      for i := 0 to |parts|
        invariant patchValueCounts == m.counts[step := |parts|]
        invariant Registered(m, Patches(), step, parts, i)
      {
        ghost var m1 := Patches();
        if parts[i].kind != NoKind {
          StoreFreshContent((step, i), parts[i]);
        }
        RegisteredOneMore(m, m1, Patches(), step, parts, i);
      }
      RegisteredAll(m, Patches(), step, parts);
    }

    /** Counts one more entry and records it under its new key. */
    method StoreNextPart(step: nat, i: nat, part: Part)
      requires i == Count(Patches(), step) && part.kind != NoKind
      requires (step, i) !in patchValueTypes && (step, i) !in patchValueText
      modifies this`patchValueTypes, this`patchValueText, this`patchValueCounts
      ensures patchValueCounts == old(patchValueCounts)[step := i + 1]
      ensures StoredAt(old(Patches()), Patches(), step, i, part)
    {
      hide Trim, Count;
      patchValueCounts := patchValueCounts[step := i + 1];
      StoreFreshContent((step, i), part);
    }

    method RegisterPatchValueAppend(step: nat, part: Part)
      requires Tracks() && step < |steps|
      modifies this`patchValueTypes, this`patchValueText, this`patchValueCounts
      ensures Tracks()
      ensures SameElsewhere(old(Patches()), Patches(), step)
      ensures EntriesAt(Patches(), step) == AppendPart(old(EntriesAt(Patches(), step)), part)
    {
      hide SameElsewhere, EntriesAt, AppendPart, Trim, NoStaleKey, Count, StoredAt;
      ghost var m := Patches();
      if part.kind == NoKind {
        NothingAppended(m, step, part);
        return;
      }
      NextKeyIsFresh(m, |steps|, step);
      StoreNextPart(step, Count(Patches(), step), part);
      AppendStores(m, Patches(), |steps|, step, part);
    }

    method SetEntryText(step: nat, i: nat, how: ContentOp, content: string)
      requires Tracks() && step < |steps|
      modifies this`patchValueText
      ensures Tracks() <==> (content == "" || i < Count(Patches(), step))
      ensures SameElsewhere(old(Patches()), Patches(), step)
      ensures EntriesAt(Patches(), step) == PatchText(old(EntriesAt(Patches(), step)), i, how, content)
    {
      hide ApplyContent, NoStaleKey;
      if content != "" {
        var key := (step, i);
        patchValueText := patchValueText[key := ApplyContent(TextAt(Patches(), key), how, content)];
        TextWritten(old(Patches()), Patches(), |steps|, step, i, patchValueText[key]);
      }
    }

    method SetEntryType(step: nat, i: nat, kind: Kind)
      requires Tracks() && step < |steps|
      modifies this`patchValueTypes
      ensures Tracks() <==> i < Count(Patches(), step)
      ensures SameElsewhere(old(Patches()), Patches(), step)
      ensures EntriesAt(Patches(), step) == PatchKind(old(EntriesAt(Patches(), step)), i, kind)
    {
      hide NoStaleKey, SameElsewhere, EntriesAt;
      patchValueTypes := patchValueTypes[(step, i) := kind];
      TypeWritten(old(Patches()), Patches(), |steps|, step, i, kind);
    }

    /** The key of position idx takes over what the next one has, or goes if that has nothing. */
    method ShiftEntryDown(step: nat, idx: nat)
      modifies this`patchValueTypes, this`patchValueText
      ensures patchValueTypes == ShiftKey(old(patchValueTypes), step, idx)
      ensures patchValueText == ShiftKey(old(patchValueText), step, idx)
    {
      var currentKey, nextKey := (step, idx), (step, idx + 1);
      if nextKey in patchValueTypes {
        patchValueTypes := patchValueTypes[currentKey := patchValueTypes[nextKey]];
      } else {
        patchValueTypes := patchValueTypes - {currentKey};
      }
      if nextKey in patchValueText {
        patchValueText := patchValueText[currentKey := patchValueText[nextKey]];
      } else {
        patchValueText := patchValueText - {currentKey};
      }
    }

    /** Every later entry moves down by one, key by key; the last key is dropped. */
    method RemovePatchValueEntry(step: nat, i: nat)
      requires Tracks() && step < |steps|
      modifies this`patchValueTypes, this`patchValueText, this`patchValueCounts
      ensures Tracks()
      ensures SameElsewhere(old(Patches()), Patches(), step)
      ensures EntriesAt(Patches(), step) == RemoveEntry(old(EntriesAt(Patches(), step)), i)
    {
      var count := Count(Patches(), step);
      if count <= 0 || i >= count {
        return;
      }
      hide SameElsewhere, EntriesAt, RemoveEntry, NoStaleKey, ShiftedTo, ShiftedOut;
      ghost var m := Patches();
      NothingShifted(m.types, step, i);
      NothingShifted(m.texts, step, i);
      var idx := i;
      while idx < count - 1
        invariant i <= idx <= count - 1
        invariant patchValueCounts == m.counts
        invariant ShiftedTo(m.types, patchValueTypes, step, i, idx)
        invariant ShiftedTo(m.texts, patchValueText, step, i, idx)
      {
        ShiftOne(m.types, patchValueTypes, step, i, idx);
        ShiftOne(m.texts, patchValueText, step, i, idx);
        ShiftEntryDown(step, idx);
        idx := idx + 1;
      }
      ShiftLast(m.types, patchValueTypes, step, i, count);
      ShiftLast(m.texts, patchValueText, step, i, count);
      var lastKey := (step, count - 1);
      patchValueTypes := patchValueTypes - {lastKey};
      patchValueText := patchValueText - {lastKey};
      patchValueCounts := patchValueCounts[step := count - 1];
      RemovalShifts(m, Patches(), |steps|, step, i);
    }

    /** composeStepAgentContent: the visible and the reasoning text of a step. */
    method ComposeStepAgentContent(step: nat)
      returns (text: string, hasText: bool, reasoning: string, hasReasoning: bool)
      ensures hasText <==> PartsOf(EntriesAt(Patches(), step), TextKind) != []
      ensures hasReasoning <==> PartsOf(EntriesAt(Patches(), step), ReasoningKind) != []
      ensures text == FoldParts(PartsOf(EntriesAt(Patches(), step), TextKind))
      ensures reasoning == FoldParts(PartsOf(EntriesAt(Patches(), step), ReasoningKind))
    {
      var count := Count(Patches(), step);
      ghost var es := EntriesAt(Patches(), step);
      var textParts: seq<string>, reasoningParts: seq<string> := [], [];
      for i := 0 to count
        invariant textParts == PartsOf(es[..i], TextKind)
        invariant reasoningParts == PartsOf(es[..i], ReasoningKind)
      {
        assert es[..i + 1][..i] == es[..i];
        assert es[i] == EntryAt(Patches(), step, i);
        var entryType, content := TypeAt(Patches(), (step, i)), TextAt(Patches(), (step, i));
        if entryType != NoKind && content != "" {
          match entryType {
            case TextKind => textParts := textParts + [content];
            case ReasoningKind => reasoningParts := reasoningParts + [content];
            case NoKind =>
          }
        }
      }
      assert es[..count] == es;
      text := FoldLoop(textParts);
      reasoning := FoldLoop(reasoningParts);
      hasText, hasReasoning := |textParts| > 0, |reasoningParts| > 0;
    }

    method ComposeReasoningText() returns (text: string)
      ensures text == ReasoningOf(steps, finalReasoning)
    {
      hide Sanitize, Trim, JoinParagraphs;
      var parts: seq<string> := [];
      for i := 0 to |steps|
        invariant parts == ReasoningParts(steps[..i])
      {
        assert steps[..i + 1][..i] == steps[..i];
        if Trim(steps[i].reasoning) != "" {
          var clean := SanitizeText(steps[i].reasoning);
          parts := parts + [clean];
        }
      }
      assert steps[..|steps|] == steps;
      if |parts| > 0 {
        text := JoinParagraphs(parts);
      } else {
        text := SanitizeText(finalReasoning);
      }
    }

    method EmitFullText(raw: string)
      modifies this`emittedText, this`sentText, this`finalText
      ensures Delivery(emittedText, sentText) == Deliver(Delivery(old(emittedText), old(sentText)), Sanitize(raw))
      ensures finalText == Sanitize(raw)
    {
      hide Sanitize, DeltaSuffix;
      var fullText := SanitizeText(raw);
      var delta := TextDeltaSuffix(emittedText, fullText);
      if delta != "" {
        sentText := sentText + delta;
      }
      if fullText != "" || emittedText == "" {
        emittedText := fullText;
      }
      finalText := fullText;
    }

    method EmitFullReasoning(raw: string)
      modifies this`emittedReasoning, this`sentReasoning, this`finalReasoning
      ensures Delivery(emittedReasoning, sentReasoning) ==
              Deliver(Delivery(old(emittedReasoning), old(sentReasoning)), Trim(raw))
      ensures finalReasoning == Trim(raw)
    {
      hide Trim, DeltaSuffix;
      var fullReasoning := Trim(raw);
      var delta := TextDeltaSuffix(emittedReasoning, fullReasoning);
      if delta != "" {
        sentReasoning := sentReasoning + delta;
      }
      if fullReasoning != "" || emittedReasoning == "" {
        emittedReasoning := fullReasoning;
      }
      finalReasoning := fullReasoning;
    }

    method RefreshAgentReasoning(i: nat, reasoning: string, hasReasoning: bool)
      requires i < |steps|
      requires hasReasoning <==> PartsOf(EntriesAt(Patches(), i), ReasoningKind) != []
      requires reasoning == FoldParts(PartsOf(EntriesAt(Patches(), i), ReasoningKind))
      modifies this`steps, this`emittedReasoning, this`sentReasoning, this`finalReasoning
      ensures Plain() == RefreshReasoning(old(Plain()), i)
    {
      assert Plain().entries[i] == EntriesAt(Patches(), i);
      hide FoldParts, PartsOf, AllEntries, EntriesAt, EmitReasoning;
      if hasReasoning {
        steps := steps[i := steps[i].(reasoning := reasoning)];
        EmitAllReasoning();
      }
    }

    method RefreshAgentText(i: nat, text: string, hasText: bool)
      requires i < |steps|
      requires hasText <==> PartsOf(EntriesAt(Patches(), i), TextKind) != []
      requires text == FoldParts(PartsOf(EntriesAt(Patches(), i), TextKind))
      modifies this`steps, this`emittedText, this`sentText, this`finalText
      ensures Plain() == RefreshText(old(Plain()), i)
    {
      hide Sanitize, Deliver, FoldParts, PartsOf;
      if hasText {
        steps := steps[i := steps[i].(text := text)];
        EmitFullText(text);
      }
    }

    method RefreshAgentStep(i: nat)
      requires i < |steps|
      modifies this`steps, this`emittedText, this`sentText, this`finalText,
               this`emittedReasoning, this`sentReasoning, this`finalReasoning
      ensures Plain() == Refresh(old(Plain()), i)
    {
      hide Sanitize, Deliver, FoldParts, PartsOf, ReasoningOf;
      var text, hasText, reasoning, hasReasoning := ComposeStepAgentContent(i);
      if !hasText && !hasReasoning {
        return;
      }
      RefreshAgentReasoning(i, reasoning, hasReasoning);
      RefreshAgentText(i, text, hasText);
    }

    method PatchContent(i: int, v: nat, how: ContentOp, content: string)
      requires Tracks()
      modifies this
      ensures Plain() == ApplyOp(old(Plain()), ContentFieldOp(i, v, how, content))
      ensures StrayPatch(old(Plain()), ContentFieldOp(i, v, how, content)) == !Tracks()
    {
      hide Refresh, PatchText, SameElsewhere, NoStaleKey, EntryAt;
      if i < 0 || i >= |steps| || !steps[i].agent {
        return;
      }
      activeAgentIndex := i;
      SetEntryText(i, v, how, content);
      OnlyOneStepChanges(old(Patches()), Patches(), |steps|, i);
      RefreshAgentStep(i);
    }

    method PatchType(i: int, v: nat, kind: Kind)
      requires Tracks()
      modifies this
      ensures Plain() == ApplyOp(old(Plain()), TypeFieldOp(i, v, kind))
      ensures StrayPatch(old(Plain()), TypeFieldOp(i, v, kind)) == !Tracks()
    {
      hide Refresh, PatchKind, SameElsewhere, NoStaleKey, EntryAt;
      if i < 0 || i >= |steps| || !steps[i].agent {
        return;
      }
      activeAgentIndex := i;
      SetEntryType(i, v, kind);
      OnlyOneStepChanges(old(Patches()), Patches(), |steps|, i);
      RefreshAgentStep(i);
    }

    method RemoveAgentValue(i: int, v: nat)
      requires Tracks()
      modifies this
      ensures Plain() == ApplyOp(old(Plain()), RemoveValueOp(i, v))
      ensures Tracks()
    {
      hide Refresh, RemoveEntry;
      if i < 0 || i >= |steps| || !steps[i].agent {
        return;
      }
      activeAgentIndex := i;
      RemovePatchValueEntry(i, v);
      OnlyOneStepChanges(old(Patches()), Patches(), |steps|, i);
      RefreshAgentStep(i);
    }

    method AppendAgentValue(i: int, part: Part)
      requires Tracks()
      modifies this
      ensures Plain() == ApplyOp(old(Plain()), AppendValueOp(i, part))
      ensures Tracks()
    {
      hide Refresh, AppendPart, Trim;
      if 0 <= i < |steps| {
        RegisterPatchValueAppend(i, part);
        if steps[i].agent {
          activeAgentIndex := i;
          OnlyOneStepChanges(old(Patches()), Patches(), |steps|, i);
          RefreshAgentStep(i);
        } else {
          OnlyOneStepChanges(old(Patches()), Patches(), |steps|, i);
        }
      }
    }

    /** Adds a step and registers its parts. */
    method AddStep(step: Step, parts: seq<Part>)
      requires Tracks()
      modifies this`steps, this`patchValueTypes, this`patchValueText, this`patchValueCounts
      ensures Tracks()
      ensures steps == old(steps) + [step]
      ensures AllEntries(Patches(), |steps|) == old(AllEntries(Patches(), |steps|)) + [StoredParts(parts)]
    {
      hide NoStaleKey, StoredParts, SameElsewhere;
      steps := steps + [step];
      RegisterStepValueTypes(|steps| - 1, parts);
      NewStepEntries(old(Patches()), Patches(), |steps| - 1);
    }

    method AppendRawStep(raw: RawStep)
      requires Tracks()
      modifies this
      ensures Plain() == ApplyOp(old(Plain()), AppendStepOp(raw))
      ensures Tracks()
    {
      hide EmitText, EmitReasoning, StoredParts, AgentStep, AllEntries, NoStaleKey;
      var step := if raw.role == AgentRole then AgentStep(raw.parts) else Step(false, "", "");
      AddStep(step, raw.parts);
      if raw.role == AgentRole {
        activeAgentIndex := |steps| - 1;
        EmitActiveStep();
      }
    }

    method ApplyPatchOperation(op: PatchOp)
      requires Tracks()
      modifies this
      ensures Plain() == ApplyOp(old(Plain()), op)
      ensures StrayPatch(old(Plain()), op) == !Tracks()
    {
      hide ApplyOp;
      match op {
        case AppendStepOp(raw) => AppendRawStep(raw);
        case AppendValueOp(i, part) => AppendAgentValue(i, part);
        case ContentFieldOp(i, v, how, content) => PatchContent(i, v, how, content);
        case TypeFieldOp(i, v, kind) => PatchType(i, v, kind);
        case RemoveValueOp(i, v) => RemoveAgentValue(i, v);
      }
    }

    /** The patch case of handleLine: the operations of one line, in order. */
    method HandlePatchLine(ops: seq<PatchOp>)
      requires Tracks() && NoStrayPatch(Plain(), ops)
      modifies this
      ensures Plain() == ApplyOps(old(Plain()), ops)
      ensures Tracks()
    {
      hide ApplyOp, StrayPatch;
      for i := 0 to |ops|
        invariant Tracks() && NoStrayPatch(Plain(), ops[i..])
        invariant ApplyOps(Plain(), ops[i..]) == ApplyOps(old(Plain()), ops)
      {
        assert ops[i..][1..] == ops[i + 1..];
        ApplyPatchOperation(ops[i]);
      }
    }

    /** The steps of a snapshot take the place of the current ones. */
    method ReplaceSteps(raw: seq<RawStep>, lastUser: int)
      modifies this`steps, this`activeAgentIndex, this`patchValueTypes, this`patchValueText, this`patchValueCounts
      ensures Tracks()
      ensures steps == SnapshotSteps(raw, lastUser)
      ensures AllEntries(Patches(), |steps|) == SnapshotEntries(raw)
      ensures activeAgentIndex == SnapshotActive(raw, lastUser)
    {
      hide StoredParts, AgentStep, AllEntries, Trim, SnapshotActive, SnapshotSteps, SnapshotEntries, NoStaleKey;
      NothingTaken(raw, lastUser);
      steps, activeAgentIndex := [], -1;
      patchValueTypes, patchValueText, patchValueCounts := map[], map[], map[];
      for i := 0 to |raw|
        invariant |steps| == i && Tracks()
        invariant steps == SnapshotSteps(raw, lastUser)[..i]
        invariant AllEntries(Patches(), |steps|) == SnapshotEntries(raw)[..i]
        invariant activeAgentIndex == SnapshotActive(raw[..i], lastUser)
      {
        OneMoreTaken(raw, lastUser, i);
        var step := Step(raw[i].role == AgentRole, "", "");
        if raw[i].role == AgentRole && i > lastUser {
          step := AgentStep(raw[i].parts);
          activeAgentIndex := i;
        }
        AddStep(step, raw[i].parts);
      }
      assert raw[..|raw|] == raw;
    }

    /** Sends what the active step shows: first all reasoning, then its text. */
    method EmitActiveStep()
      requires 0 <= activeAgentIndex < |steps|
      modifies this`emittedText, this`sentText, this`finalText,
               this`emittedReasoning, this`sentReasoning, this`finalReasoning
      ensures Plain() == EmitText(EmitReasoning(old(Plain())), steps[activeAgentIndex].text)
    {
      hide Sanitize, Deliver, EmitReasoning, AllEntries;
      EmitAllReasoning();
      EmitFullText(steps[activeAgentIndex].text);
    }

    method EmitAllReasoning()
      modifies this`emittedReasoning, this`sentReasoning, this`finalReasoning
      ensures Plain() == EmitReasoning(old(Plain()))
    {
      hide Trim, Deliver, ReasoningOf, AllEntries;
      var all := ComposeReasoningText();
      EmitFullReasoning(all);
    }

    method ApplySnapshotFrame(raw: seq<RawStep>)
      modifies this
      ensures Plain() == ApplySnapshot(old(Plain()), raw)
      ensures Tracks()
    {
      hide EmitText, EmitReasoning, SnapshotSteps, SnapshotEntries, SnapshotActive, AllEntries, NoStaleKey, LastUser;
      var lastUser := FindLastUser(raw);
      ReplaceSteps(raw, lastUser);
      if activeAgentIndex < 0 {
        return;
      }
      EmitActiveStep();
    }
  }

  lemma NothingTaken(raw: seq<RawStep>, lastUser: int)
    ensures SnapshotActive(raw[..0], lastUser) == -1
    ensures NoStaleKey(Maps(map[], map[], map[]), 0) && AllEntries(Maps(map[], map[], map[]), 0) == []
  {
  }

  /** What a snapshot takes from its next step. */
  lemma OneMoreTaken(raw: seq<RawStep>, lastUser: int, i: nat)
    requires i < |raw|
    ensures SnapshotSteps(raw, lastUser)[..i + 1] == SnapshotSteps(raw, lastUser)[..i] + [SnapshotStep(raw[i], i > lastUser)]
    ensures SnapshotEntries(raw)[..i + 1] == SnapshotEntries(raw)[..i] + [StoredParts(raw[i].parts)]
    ensures SnapshotActive(raw[..i + 1], lastUser) ==
      if raw[i].role == AgentRole && i > lastUser then i else SnapshotActive(raw[..i], lastUser)
  {
    hide StoredParts, AgentStep;
    assert raw[..i + 1][..i] == raw[..i];
  }

  method FindLastUser(raw: seq<RawStep>) returns (lastUser: int)
    ensures lastUser == LastUser(raw)
  {
    lastUser := -1;
    for i := 0 to |raw|
      invariant lastUser == LastUser(raw[..i])
    {
      assert raw[..i + 1][..i] == raw[..i];
      if raw[i].role == UserRole {
        lastUser := i;
      }
    }
    assert raw[..|raw|] == raw;
  }

  method FoldLoop(parts: seq<string>) returns (text: string)
    ensures text == FoldParts(parts)
  {
    text := "";
    for i := 0 to |parts|
      invariant text == FoldParts(parts[..i])
    {
      assert parts[..i + 1][..i] == parts[..i];
      text := CombineParts(text, parts[i]);
    }
    assert parts[..|parts|] == parts;
  }

  lemma NewStepEntries(m: Maps, m': Maps, n: nat)
    requires SameElsewhere(m, m', n)
    ensures AllEntries(m', n + 1) == AllEntries(m, n) + [EntriesAt(m', n)]
  {
    forall s | 0 <= s < n ensures AllEntries(m', n + 1)[s] == AllEntries(m, n)[s] {
      assert EntriesAt(m', s) == EntriesAt(m, s);
    }
  }
}
