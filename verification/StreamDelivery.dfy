/** What the client holds after a run of patches: when it is exactly the recorded text, and that it is
    the sanitised final answer for the growing streams the upstream sends. */
module StreamDelivery {
  import opened Text
  import opened Sanitizer
  import opened AgentText
  import opened PatchEntries
  import opened StreamDecoder

  // ---- Arbitrary runs -------------------------------------------------------------------------

  /** The text step i shows once its entries are composed. */
  function Composed(es: seq<Entry>): string {
    FoldParts(PartsOf(es, TextKind))
  }

  function EmittedBy(es: seq<Entry>): seq<string> {
    if PartsOf(es, TextKind) == [] then [] else [Sanitize(Composed(es))]
  }

  /** The full texts an operation offers to the sink: one or none. */
  function OffersOf(d: Doc, op: PatchOp): seq<string>
    requires WellFormed(d)
  {
    match op
    case AppendStepOp(raw) => if raw.role == AgentRole then [Sanitize(AgentStep(raw.parts).text)] else []
    case AppendValueOp(i, part) => if IsAgent(d, i) then EmittedBy(AppendPart(d.entries[i], part)) else []
    case ContentFieldOp(i, v, how, c) => if IsAgent(d, i) then EmittedBy(PatchText(d.entries[i], v, how, c)) else []
    case TypeFieldOp(i, v, kind) => if IsAgent(d, i) then EmittedBy(PatchKind(d.entries[i], v, kind)) else []
    case RemoveValueOp(i, v) => if IsAgent(d, i) then EmittedBy(RemoveEntry(d.entries[i], v)) else []
  }

  lemma SetEntriesDelivers(d: Doc, i: nat, es: seq<Entry>)
    requires WellFormed(d) && i < |d.steps|
    ensures SetEntries(d, i, es).text == DeliverAll(d.text, EmittedBy(es))
    ensures SetEntries(d, i, es).entries == d.entries[i := es]
    ensures |SetEntries(d, i, es).steps| == |d.steps|
    ensures forall k :: 0 <= k < |d.steps| ==> SetEntries(d, i, es).steps[k].agent == d.steps[k].agent
    ensures PartsOf(es, TextKind) != [] ==> SetEntries(d, i, es).finalText == Sanitize(Composed(es))
    ensures PartsOf(es, TextKind) == [] ==> SetEntries(d, i, es).finalText == d.finalText
  {
    hide Sanitize, Deliver, FoldParts, PartsOf, ReasoningOf;
    var one := Sanitize(Composed(es));
    assert DeliverAll(Deliver(d.text, one), [one][1..]) == Deliver(d.text, one);
  }

  lemma OpDelivers(d: Doc, op: PatchOp)
    requires WellFormed(d)
    ensures ApplyOp(d, op).text == DeliverAll(d.text, OffersOf(d, op))
  {
    hide Sanitize, Deliver, Refresh, EmittedBy, ReasoningOf, SetEntries, AppendPart, PatchText, PatchKind, RemoveEntry;
    match op {
      case AppendStepOp(raw) =>
        var one := Sanitize(AgentStep(raw.parts).text);
        assert DeliverAll(Deliver(d.text, one), [one][1..]) == Deliver(d.text, one);
      case AppendValueOp(i, part) =>
        if IsAgent(d, i) { SetEntriesDelivers(d, i, AppendPart(d.entries[i], part)); }
      case ContentFieldOp(i, v, how, c) =>
        if IsAgent(d, i) { SetEntriesDelivers(d, i, PatchText(d.entries[i], v, how, c)); }
      case TypeFieldOp(i, v, kind) =>
        if IsAgent(d, i) { SetEntriesDelivers(d, i, PatchKind(d.entries[i], v, kind)); }
      case RemoveValueOp(i, v) =>
        if IsAgent(d, i) { SetEntriesDelivers(d, i, RemoveEntry(d.entries[i], v)); }
    }
  }

  lemma {:induction false} DeliverInTwo(d: Delivery, a: seq<string>, b: seq<string>)
    ensures DeliverAll(d, a + b) == DeliverAll(DeliverAll(d, a), b)
    decreases |a|
  {
    hide Deliver;
    if a == [] {
      assert a + b == b;
    } else {
      assert (a + b)[1..] == a[1..] + b;
      DeliverInTwo(Deliver(d, a[0]), a[1..], b);
    }
  }

  /** What the upstream sends: patch operations and snapshots of the whole transcript. */
  datatype Frame = Patch(op: PatchOp) | Snapshot(raw: seq<RawStep>)

  function ApplyFrame(d: Doc, f: Frame): (d': Doc)
    requires WellFormed(d)
    ensures WellFormed(d')
  {
    match f
    case Patch(op) => ApplyOp(d, op)
    case Snapshot(raw) => ApplySnapshot(d, raw)
  }

  function ApplyFrames(d: Doc, frames: seq<Frame>): (d': Doc)
    requires WellFormed(d)
    ensures WellFormed(d')
    decreases |frames|
  {
    if frames == [] then d else ApplyFrames(ApplyFrame(d, frames[0]), frames[1..])
  }

  /** The text a snapshot shows: that of the last answer after the last question. */
  function SnapshotShows(raw: seq<RawStep>): seq<string> {
    var active := SnapshotActive(raw, LastUser(raw));
    if active < 0 then [] else [Sanitize(SnapshotSteps(raw, LastUser(raw))[active].text)]
  }

  function OffersOfFrame(d: Doc, f: Frame): seq<string>
    requires WellFormed(d)
  {
    match f
    case Patch(op) => OffersOf(d, op)
    case Snapshot(raw) => SnapshotShows(raw)
  }

  function OffersOfRun(d: Doc, frames: seq<Frame>): seq<string>
    requires WellFormed(d)
    decreases |frames|
  {
    if frames == [] then [] else OffersOfFrame(d, frames[0]) + OffersOfRun(ApplyFrame(d, frames[0]), frames[1..])
  }

  lemma SnapshotDelivers(d: Doc, raw: seq<RawStep>)
    requires WellFormed(d)
    ensures ApplySnapshot(d, raw).text == DeliverAll(d.text, SnapshotShows(raw))
  {
    hide Sanitize, Deliver, ReasoningOf, SnapshotSteps, SnapshotEntries, LastUser, SnapshotActive, Trim;
    if SnapshotShows(raw) != [] {
      var one := SnapshotShows(raw)[0];
      assert DeliverAll(Deliver(d.text, one), [one][1..]) == Deliver(d.text, one);
    }
  }

  lemma {:induction false} RunDelivers(d: Doc, frames: seq<Frame>)
    requires WellFormed(d)
    ensures ApplyFrames(d, frames).text == DeliverAll(d.text, OffersOfRun(d, frames))
    decreases |frames|
  {
    hide Deliver, ApplyOp, ApplySnapshot, OffersOf, SnapshotShows;
    if frames != [] {
      match frames[0] {
        case Patch(op) => OpDelivers(d, op);
        case Snapshot(raw) => SnapshotDelivers(d, raw);
      }
      RunDelivers(ApplyFrame(d, frames[0]), frames[1..]);
      DeliverInTwo(d.text, OffersOfFrame(d, frames[0]), OffersOfRun(ApplyFrame(d, frames[0]), frames[1..]));
    }
  }

  /** Over any run of patches and snapshots: the client holds exactly the recorded text if and only if
      every non-empty text offered to the sink extended the one before it. */
  lemma ClientHoldsRecordedText(d: Doc, frames: seq<Frame>)
    requires WellFormed(d) && d.text.received == d.text.emitted
    ensures var t := ApplyFrames(d, frames).text;
      t.received == t.emitted <==> GrowingChain(d.text.emitted, OffersOfRun(d, frames))
  {
    hide ApplyFrames, OffersOfRun, GrowingChain, DeliverAll;
    RunDelivers(d, frames);
    DeliveredExactly(d.text, OffersOfRun(d, frames));
  }

  lemma RedeliveredIsNothing(d: Delivery, full: string)
    ensures Deliver(Deliver(d, full), full) == Deliver(d, full)
    ensures d.emitted <= full ==> Deliver(d, full) == Delivery(full, d.received + full[|d.emitted|..])
  {
  }

  /** A snapshot sends only what is missing: the rest of a text of which a part has been sent, and nothing
      at all when the same snapshot comes again. */
  lemma SnapshotReplaysNothing(d: Doc, raw: seq<RawStep>)
    requires WellFormed(d)
    ensures ApplySnapshot(ApplySnapshot(d, raw), raw).text == ApplySnapshot(d, raw).text
    ensures SnapshotShows(raw) != [] && d.text.emitted <= SnapshotShows(raw)[0] ==>
      ApplySnapshot(d, raw).text ==
        Delivery(SnapshotShows(raw)[0], d.text.received + SnapshotShows(raw)[0][|d.text.emitted|..])
  {
    hide ApplySnapshot, SnapshotShows, Deliver;
    SnapshotDelivers(d, raw);
    SnapshotDelivers(ApplySnapshot(d, raw), raw);
    var shows := SnapshotShows(raw);
    ShowsAtMostOne(raw);
    if shows != [] {
      RedeliveredIsNothing(d.text, shows[0]);
      DeliverOne(d.text, shows[0]);
      DeliverOne(Deliver(d.text, shows[0]), shows[0]);
      assert shows == [shows[0]];
    }
  }

  lemma ShowsAtMostOne(raw: seq<RawStep>)
    ensures |SnapshotShows(raw)| <= 1
  {
    hide Sanitize, LastUser, SnapshotActive, SnapshotSteps;
  }

  lemma DeliverOne(d: Delivery, full: string)
    ensures DeliverAll(d, [full]) == Deliver(d, full)
  {
    hide Deliver;
    assert [full][1..] == [];
  }

  // ---- Growing streams ------------------------------------------------------------------------

  predicate AllTagFree(es: seq<Entry>) {
    forall e :: e in es ==> TagFree(e.text)
  }

  /** Everything step i shows has reached the client, and nothing else has. */
  predicate InSync(d: Doc, i: int) {
    && WellFormed(d) && IsAgent(d, i)
    && var shown := Sanitize(Composed(d.entries[i]));
    && d.text == Delivery(shown, shown)
    && (PartsOf(d.entries[i], TextKind) != [] ==> d.finalText == shown)
  }

  lemma DeliverGrowth(shown: string, grown: string)
    requires shown <= grown
    ensures Deliver(Delivery(shown, shown), grown) == Delivery(grown, grown)
  {
  }

  lemma GrowthKeepsSync(d: Doc, i: int, es: seq<Entry>)
    requires InSync(d, i)
    requires Sanitize(Composed(d.entries[i])) <= Sanitize(Composed(es))
    requires PartsOf(es, TextKind) == [] ==> PartsOf(d.entries[i], TextKind) == []
    ensures InSync(SetEntries(d, i, es), i)
    ensures SetEntries(d, i, es).entries[i] == es
  {
    hide Sanitize, Deliver, SetEntries, PartsOf, FoldParts;
    SetEntriesDelivers(d, i, es);
    if PartsOf(es, TextKind) != [] {
      var shown, grown := Sanitize(Composed(d.entries[i])), Sanitize(Composed(es));
      DeliverGrowth(shown, grown);
      assert DeliverAll(Delivery(grown, grown), [grown][1..]) == Delivery(grown, grown);
    }
  }

  predicate SingleText(d: Doc, i: int) {
    WellFormed(d) && IsAgent(d, i) && |d.entries[i]| == 1 && d.entries[i][0].kind == TextKind && AllTagFree(d.entries[i])
  }

  predicate AppendsTo(i: int, op: PatchOp) {
    op.ContentFieldOp? && op.step == i && op.value == 0 && op.how == Append && TagFree(op.content)
  }

  lemma OneEntry(e: Entry)
    requires e.kind == TextKind
    ensures PartsOf([e], TextKind) == if e.text == "" then [] else [e.text]
    ensures Composed([e]) == e.text
  {
    assert [] + [e] == [e] && [] + [e.text] == [e.text];
    PartsSnoc([], e, TextKind);
    FoldSnoc([], e.text);
  }

  lemma AppendKeepsSync(d: Doc, i: int, op: PatchOp)
    requires InSync(d, i) && SingleText(d, i) && AppendsTo(i, op)
    ensures InSync(ApplyOp(d, op), i) && SingleText(ApplyOp(d, op), i) && !StrayPatch(d, op)
    ensures ApplyOp(d, op).entries[i][0].text == AppendDelta(d.entries[i][0].text, op.content)
  {
    hide Sanitize, AppendDelta, SetEntries, PartsOf, FoldParts, InSync;
    var e := d.entries[i][0];
    var e' := Entry(TextKind, AppendDelta(e.text, op.content));
    assert d.entries[i] == [e] && e in d.entries[i];
    AppendGrowsVisible(e.text, op.content);
    AppendNothing(e.text);
    assert PatchText([e], 0, Append, op.content) == [e'];
    OneEntry(e);
    OneEntry(e');
    AppendKeepsContent(e.text, op.content);
    GrowthKeepsSync(d, i, [e']);
    SetEntriesDelivers(d, i, [e']);
  }

  lemma AppendNothing(existing: string)
    ensures AppendDelta(existing, "") == existing
  {
  }

  lemma AppendKeepsContent(existing: string, delta: string)
    ensures AppendDelta(existing, delta) == "" ==> existing == ""
  {
  }

  function AppendAll(text: string, deltas: seq<string>): string
    decreases |deltas|
  {
    if deltas == [] then text else AppendAll(AppendDelta(text, deltas[0]), deltas[1..])
  }

  /** "x" patches on the first entry of step i, one for each delta. */
  function AppendPatches(i: int, deltas: seq<string>): (ops: seq<PatchOp>)
    ensures |ops| == |deltas|
  {
    seq(|deltas|, k requires 0 <= k < |deltas| => ContentFieldOp(i, 0, Append, deltas[k]))
  }

  /** The entry of step i holds the given text, and the client holds exactly its sanitised form. */
  predicate ClientHolds(d: Doc, i: int, text: string) {
    && SingleText(d, i) && d.entries[i][0].text == text
    && d.text.received == Sanitize(text)
    && (text != "" ==> d.finalText == d.text.received)
  }

  /** One text entry grown by any run of "x" patches over tag-free text: the deltas the client received
      are, run together, the sanitised final entry, which is also the recorded final answer. */
  lemma {:induction false} StreamedTextIsFinalText(d: Doc, i: int, deltas: seq<string>)
    requires InSync(d, i) && SingleText(d, i)
    requires forall delta :: delta in deltas ==> TagFree(delta)
    ensures NoStrayPatch(d, AppendPatches(i, deltas))
    ensures ClientHolds(ApplyOps(d, AppendPatches(i, deltas)), i, AppendAll(d.entries[i][0].text, deltas))
    decreases |deltas|
  {
    hide Sanitize, AppendDelta, ApplyOp, PartsOf, FoldParts, StrayPatch, Composed;
    var ops := AppendPatches(i, deltas);
    if deltas == [] {
      SingleTextShown(d, i);
    } else {
      assert deltas[0] in deltas;
      assert ops[1..] == AppendPatches(i, deltas[1..]);
      AppendKeepsSync(d, i, ops[0]);
      StreamedTextIsFinalText(ApplyOp(d, ops[0]), i, deltas[1..]);
    }
  }

  function Concat(deltas: seq<string>): string
    decreases |deltas|
  {
    if deltas == [] then "" else deltas[0] + Concat(deltas[1..])
  }

  /** No delta of the run is the whole entry again and more. */
  predicate AllFragments(text: string, deltas: seq<string>)
    decreases |deltas|
  {
    deltas == [] || (!GrownSnapshot(text, deltas[0]) && AllFragments(text + deltas[0], deltas[1..]))
  }

  lemma {:induction false} FragmentsAreConcatenated(text: string, deltas: seq<string>)
    requires AllFragments(text, deltas)
    ensures AppendAll(text, deltas) == text + Concat(deltas)
    decreases |deltas|
  {
    hide AppendDelta, GrownSnapshot;
    if deltas == [] {
      assert text + "" == text;
    } else {
      AppendIsConcatenation(text, deltas[0]);
      FragmentsAreConcatenated(text + deltas[0], deltas[1..]);
      assert text + (deltas[0] + Concat(deltas[1..])) == (text + deltas[0]) + Concat(deltas[1..]);
    }
  }

  /** While every delta is a fragment, the final entry is the text at the start followed by all of them,
      white space and repetitions included, and the client has received its sanitised form. */
  lemma StreamedTextIsConcatenation(d: Doc, i: int, deltas: seq<string>)
    requires InSync(d, i) && SingleText(d, i) && AllFragments(d.entries[i][0].text, deltas)
    requires forall delta :: delta in deltas ==> TagFree(delta)
    ensures ClientHolds(ApplyOps(d, AppendPatches(i, deltas)), i, d.entries[i][0].text + Concat(deltas))
  {
    hide InSync, ClientHolds, ApplyOps, AppendAll, AllFragments;
    StreamedTextIsFinalText(d, i, deltas);
    FragmentsAreConcatenated(d.entries[i][0].text, deltas);
  }

  /** In general a grown snapshot starts the text over, and everything after the last one is concatenated. */
  lemma {:induction false} SnapshotStartsOver(text: string, deltas: seq<string>, k: nat)
    requires k < |deltas| && text != "" && deltas[k] != ""
    requires AllFragments(text, deltas[..k]) && GrownSnapshot(text + Concat(deltas[..k]), deltas[k])
    requires AllFragments(deltas[k], deltas[k + 1..])
    ensures AppendAll(text, deltas) == deltas[k] + Concat(deltas[k + 1..])
    decreases k
  {
    hide AppendDelta, GrownSnapshot;
    AppendIsConcatenation(text, deltas[0]);
    if k == 0 {
      assert text + Concat(deltas[..0]) == text;
      FragmentsAreConcatenated(deltas[0], deltas[1..]);
    } else {
      assert deltas[..k][1..] == deltas[1..][..k - 1] && deltas[1..][k..] == deltas[k + 1..];
      assert text + (deltas[0] + Concat(deltas[1..][..k - 1])) == (text + deltas[0]) + Concat(deltas[1..][..k - 1]);
      SnapshotStartsOver(text + deltas[0], deltas[1..], k - 1);
    }
  }

  lemma SingleTextShown(d: Doc, i: int)
    requires InSync(d, i) && SingleText(d, i)
    ensures d.text.received == Sanitize(d.entries[i][0].text)
    ensures d.entries[i][0].text != "" ==> d.finalText == d.text.received
  {
    hide Sanitize, PartsOf, FoldParts, Composed;
    var e := d.entries[i][0];
    OneEntry(e);
    assert d.entries[i] == [e];
  }

  /** A fresh answer step with one text part is in sync from the start. The content of a part is trimmed
      where it is extracted (internal/app/notion_client.go:1896-1906). */
  lemma FreshStepInSync(d: Doc, content: string)
    requires WellFormed(d) && d.text == Delivery("", "") && TagFree(content) && Trim(content) == content
    ensures var op := AppendStepOp(RawStep(AgentRole, [Part(TextKind, content)]));
      InSync(ApplyOp(d, op), |d.steps|) && SingleText(ApplyOp(d, op), |d.steps|)
  {
    hide Sanitize, PartsOf, FoldParts, ReasoningOf, Trim, ApplyOp, StoredPart;
    var stored := StoredPart(Part(TextKind, content));
    FreshStep(d, content);
    StoredIsTrimmed(content);
    OneEntry(stored);
  }

  lemma StoredIsTrimmed(content: string)
    requires Trim(content) == content
    ensures StoredPart(Part(TextKind, content)) == Entry(TextKind, content)
  {
    hide Trim;
  }

  lemma FreshStep(d: Doc, content: string)
    requires WellFormed(d) && Trim(content) == content
    ensures var part := Part(TextKind, content);
      var d' := ApplyOp(d, AppendStepOp(RawStep(AgentRole, [part])));
      && WellFormed(d') && IsAgent(d', |d.steps|) && d'.entries[|d.steps|] == [StoredPart(part)]
      && d'.text == Deliver(d.text, Sanitize(content)) && d'.finalText == Sanitize(content)
  {
    hide Sanitize, ReasoningOf, Trim, Deliver, StoredPart;
    var p := Part(TextKind, content);
    assert StoredParts([p]) == [StoredPart(p)];
    assert [p][..0] == [];
    assert JoinContents([p], TextKind) == content;
  }

  // ---- Several entries ------------------------------------------------------------------------

  /** An operation that adds an entry to step i, or extends the raw text of its last entry. */
  predicate ExtendsStep(d: Doc, i: int, op: PatchOp)
    requires WellFormed(d) && IsAgent(d, i)
  {
    match op
    case AppendValueOp(k, part) => k == i && TagFree(part.content)
    case ContentFieldOp(k, v, how, content) =>
      && k == i && how == Append && TagFree(content) && v + 1 == |d.entries[i]|
      && d.entries[i][v].text <= AppendDelta(d.entries[i][v].text, content)
    case _ => false
  }

  predicate ExtendingRun(d: Doc, i: int, ops: seq<PatchOp>)
    requires WellFormed(d)
    decreases |ops|
  {
    IsAgent(d, i) && (ops == [] || (ExtendsStep(d, i, ops[0]) && ExtendingRun(ApplyOp(d, ops[0]), i, ops[1..])))
  }

  lemma PartsSnoc(es: seq<Entry>, e: Entry, kind: Kind)
    ensures PartsOf(es + [e], kind) == PartsOf(es, kind) + if e.kind == kind && e.text != "" then [e.text] else []
  {
    assert (es + [e])[..|es|] == es;
  }

  lemma LastEntryGrows(es: seq<Entry>, e: Entry, grown: Entry)
    requires e.kind == grown.kind && e.text <= grown.text
    ensures Composed(es + [e]) <= Composed(es + [grown])
    ensures Composed(es) <= Composed(es + [e])
    ensures PartsOf(es + [grown], TextKind) == [] ==> PartsOf(es + [e], TextKind) == []
    ensures PartsOf(es + [e], TextKind) == [] ==> PartsOf(es, TextKind) == []
  {
    hide FoldParts, PartsOf;
    PartsSnoc(es, e, TextKind);
    PartsSnoc(es, grown, TextKind);
    var parts := PartsOf(es, TextKind);
    assert parts + [] == parts;
    FoldMonotone(parts, e.text, grown.text, e.text);
    FoldMonotone(parts, e.text, grown.text, grown.text);
  }

  lemma {:induction false} ComposedTagFree(es: seq<Entry>)
    requires AllTagFree(es)
    ensures TagFree(Composed(es))
    decreases |es|
  {
    if es != [] {
      var init, last := es[..|es| - 1], es[|es| - 1];
      assert es == init + [last] && last in es;
      assert forall e :: e in init ==> e in es;
      ComposedTagFree(init);
      PartsSnoc(init, last, TextKind);
      if last.kind == TextKind && last.text != "" {
        FoldSnoc(PartsOf(init, TextKind), last.text);
      } else {
        assert PartsOf(es, TextKind) == PartsOf(init, TextKind);
      }
    }
  }

  /** The entries after an extending operation: the composed text has only been extended. */
  lemma ExtendingEntries(es: seq<Entry>, es': seq<Entry>)
    requires AllTagFree(es) && AllTagFree(es') && (es' == es || OneMore(es, es') || LastGrown(es, es'))
    ensures Sanitize(Composed(es)) <= Sanitize(Composed(es'))
    ensures PartsOf(es', TextKind) == [] ==> PartsOf(es, TextKind) == []
  {
    hide FoldParts, PartsOf, Sanitize, Composed, AllTagFree, OneMore, LastGrown, TagFree;
    if es' != es {
      ComposedGrows(es, es');
      ComposedTagFree(es');
      SanitizeMonotone(Composed(es), Composed(es'));
    }
  }

  ghost predicate OneMore(es: seq<Entry>, es': seq<Entry>) {
    exists e :: es' == es + [e]
  }

  predicate LastGrown(es: seq<Entry>, es': seq<Entry>) {
    |es'| == |es| > 0 && es'[..|es| - 1] == es[..|es| - 1]
    && es'[|es| - 1].kind == es[|es| - 1].kind && es[|es| - 1].text <= es'[|es| - 1].text
  }

  lemma ComposedGrows(es: seq<Entry>, es': seq<Entry>)
    requires OneMore(es, es') || LastGrown(es, es')
    ensures Composed(es) <= Composed(es')
    ensures PartsOf(es', TextKind) == [] ==> PartsOf(es, TextKind) == []
  {
    hide PartsOf, Composed;
    if e :| es' == es + [e] {
      LastEntryGrows(es, e, e);
    } else {
      var n := |es| - 1;
      assert es == es[..n] + [es[n]] && es' == es[..n] + [es'[n]];
      LastEntryGrows(es[..n], es[n], es'[n]);
    }
  }

  lemma ExtensionKeepsSync(d: Doc, i: int, op: PatchOp)
    requires InSync(d, i) && AllTagFree(d.entries[i]) && ExtendsStep(d, i, op)
    ensures InSync(ApplyOp(d, op), i) && AllTagFree(ApplyOp(d, op).entries[i]) && !StrayPatch(d, op)
  {
    hide Sanitize, AppendDelta, SetEntries, PartsOf, FoldParts, Trim;
    var es := d.entries[i];
    match op {
      case AppendValueOp(_, part) =>
        var es' := AppendPart(es, part);
        ExtendingEntries(es, es');
        GrowthKeepsSync(d, i, es');
      case ContentFieldOp(_, v, how, content) =>
        var es' := PatchText(es, v, how, content);
        assert es[v] in es;
        AppendGrowsVisible(es[v].text, content);
        ExtendingEntries(es, es');
        GrowthKeepsSync(d, i, es');
      case _ =>
    }
  }

  /** The same for a step with any number of entries, while patches only extend it at its end. */
  lemma {:induction false} ExtendingRunStaysInSync(d: Doc, i: int, ops: seq<PatchOp>)
    requires InSync(d, i) && AllTagFree(d.entries[i]) && ExtendingRun(d, i, ops)
    ensures InSync(ApplyOps(d, ops), i) && NoStrayPatch(d, ops)
    decreases |ops|
  {
    hide Sanitize, ApplyOp, PartsOf, FoldParts, StrayPatch, ExtendsStep;
    if ops != [] {
      ExtensionKeepsSync(d, i, ops[0]);
      ExtendingRunStaysInSync(ApplyOp(d, ops[0]), i, ops[1..]);
    }
  }

  /** Without tag-freeness the claim fails: from "a<", the fragment "lang" makes a tag of text already sent. */
  lemma TagMakesClientDiffer(d: Doc, i: int)
    requires InSync(d, i) && WellFormed(d) && IsAgent(d, i) && d.entries[i] == [Entry(TextKind, "a<")]
    ensures var d' := ApplyOps(d, AppendPatches(i, ["lang"]));
      d'.text.received != d'.text.emitted && d'.text.emitted == "a"
  {
    hide Sanitize, PartsOf, FoldParts, SetEntries, Composed;
    TagRetractsText();
    OneEntry(Entry(TextKind, "a<"));
    OneEntry(Entry(TextKind, "a<lang"));
    var op := ContentFieldOp(i, 0, Append, "lang");
    assert AppendPatches(i, ["lang"]) == [op] && [op][1..] == [];
    assert "a<"[0] != "lang"[0] && "a<" + "lang" == "a<lang";
    assert AppendDelta("a<", "lang") == "a<lang";
    assert PatchText(d.entries[i], 0, Append, "lang") == [Entry(TextKind, "a<lang")];
    SetEntriesDelivers(d, i, [Entry(TextKind, "a<lang")]);
    assert ApplyOps(d, [op]) == ApplyOp(d, op);
    assert DeliverAll(d.text, ["a"]) == Deliver(d.text, "a") by { assert ["a"][1..] == []; }
    DeliverGap(d.text, "a");
  }
}
