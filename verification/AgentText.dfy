/** How fragments of an answer are put together, and which suffix is still to be sent
    (internal/app/notion_client.go:2522-2618 and 4331-4351). */
module AgentText {
  import opened Text
  import opened Sanitizer

  // ---- Combining fragments --------------------------------------------------------------------

  /** mergeCumulativeAgentContent: the newer of two snapshots of one entry. */
  function MergeCumulative(existing: string, next: string): string {
    if next == "" then existing
    else if existing == "" || next == existing then next
    else
      var existingClean, nextClean := Sanitize(existing), Sanitize(next);
      if nextClean != "" && nextClean == existingClean then existing
      else if nextClean != "" && (existingClean == "" || existingClean <= nextClean) then next
      else if existingClean != "" && nextClean <= existingClean then existing
      else if existing <= next then next
      else if next <= existing then existing
      else next
  }

  /** combineAgentContentParts: two neighbouring entries of one step as one text. */
  function CombineParts(existing: string, next: string): string {
    if next == "" then existing
    else if existing == "" then next
    else if existing <= next then next
    else if next <= existing then existing
    else existing + next
  }

  /** appendAgentPatchDelta: an "x" patch, either a fragment or a grown snapshot of the entry. */
  function AppendDelta(existing: string, delta: string): string {
    if delta == "" then existing
    else if existing == "" then delta
    else
      var existingClean, deltaClean := Sanitize(existing), Sanitize(delta);
      if |delta| > |existing| && existing <= delta then delta
      else if deltaClean != "" && |deltaClean| > |existingClean| && existingClean <= deltaClean then delta
      else existing + delta
  }

  function LastIndexOf(s: string, pat: string): (i: int)
    ensures i <= |s|
  {
    if s == [] then if pat == [] then 0 else -1
    else
      var rest := LastIndexOf(s[1..], pat);
      if rest >= 0 then rest + 1 else if pat <= s then 0 else -1
  }

  /** handleAgentPatchReplace: a "p" patch. */
  function ReplaceContent(current: string, replacement: string): string {
    if replacement == "" then current
    else if current == "" || replacement == current then replacement
    else
      var idx := LastIndexOf(current, LANG_OPEN);
      if idx >= 0 then current[..idx] + replacement
      else if current <= replacement then replacement
      else if Sanitize(replacement) != "" && Sanitize(current) != "" && Sanitize(current) <= Sanitize(replacement)
      then replacement
      else current + replacement
  }

  datatype ContentOp = Append | Replace | Assign

  /** applyAgentPatchContent */
  function ApplyContent(existing: string, op: ContentOp, patch: string): string {
    match op
    case Append => AppendDelta(existing, patch)
    case Replace => ReplaceContent(existing, patch)
    case Assign => MergeCumulative(existing, patch)
  }

  // ---- What a patch does to the text ----------------------------------------------------------

  predicate EndsWith(s: string, tail: string) {
    |tail| <= |s| && s[|s| - |tail|..] == tail
  }

  /** The patch is the whole entry again and more: it properly extends the text held, raw or as it is shown. */
  predicate GrownSnapshot(existing: string, delta: string) {
    existing < delta || Sanitize(existing) < Sanitize(delta)
  }

  /** An "x" patch is concatenated, white space and repeated tails included, unless it is a grown snapshot
      of the text held, which it then replaces. */
  lemma AppendIsConcatenation(existing: string, delta: string)
    ensures EndsWith(AppendDelta(existing, delta), delta)
    ensures !GrownSnapshot(existing, delta) ==> AppendDelta(existing, delta) == existing + delta
    ensures GrownSnapshot(existing, delta) && existing != "" && delta != "" ==> AppendDelta(existing, delta) == delta
  {
    hide Sanitize;
  }

  /** Of two snapshots the later one is kept, unless it shows no more than a beginning of what the earlier one
      shows, or is a beginning of it that shows something else. */
  lemma NewerSnapshotIsKept(existing: string, next: string)
    ensures MergeCumulative(existing, next) == existing || MergeCumulative(existing, next) == next
    ensures Sanitize(existing) < Sanitize(next) ==> MergeCumulative(existing, next) == next
    ensures Sanitize(next) < Sanitize(existing) && existing != "" ==> MergeCumulative(existing, next) == existing
    ensures Sanitize(next) == Sanitize(existing) != "" ==> MergeCumulative(existing, next) == existing
    ensures Sanitize(next) == Sanitize(existing) == "" ==>
      MergeCumulative(existing, next) == if next <= existing then existing else next
    ensures !(Sanitize(next) <= Sanitize(existing)) && !(next <= existing) ==> MergeCumulative(existing, next) == next
    ensures next == "" ==> MergeCumulative(existing, next) == existing
  {
    hide Sanitize;
    NothingShows();
  }

  lemma NothingShows()
    ensures Sanitize("") == ""
  {
  }

  /** Neighbouring entries are run together, unless one begins with the other; then the longer stands for both. */
  lemma CombinedIsConcatenation(existing: string, next: string)
    ensures !(existing <= next) && !(next <= existing) ==> CombineParts(existing, next) == existing + next
    ensures existing <= next || next <= existing ==>
      existing <= CombineParts(existing, next) && next <= CombineParts(existing, next)
      && (CombineParts(existing, next) == existing || CombineParts(existing, next) == next)
  {
  }

  predicate OccursAt(s: string, pat: string, i: nat) {
    i <= |s| && pat <= s[i..]
  }

  lemma {:induction false} LastIndexIsLast(s: string, pat: string)
    ensures LastIndexOf(s, pat) >= 0 ==> OccursAt(s, pat, LastIndexOf(s, pat))
    ensures forall i: nat :: OccursAt(s, pat, i) ==> i <= LastIndexOf(s, pat)
    decreases |s|
  {
    if s != [] {
      LastIndexIsLast(s[1..], pat);
      forall i: nat | OccursAt(s, pat, i) ensures i <= LastIndexOf(s, pat) {
        if i > 0 {
          assert s[i..] == s[1..][i - 1..];
          assert OccursAt(s[1..], pat, i - 1);
        }
      }
      if LastIndexOf(s[1..], pat) >= 0 {
        assert s[1..][LastIndexOf(s[1..], pat)..] == s[LastIndexOf(s, pat)..];
      }
    }
  }

  ghost predicate IsLastTag(s: string, i: nat) {
    OccursAt(s, LANG_OPEN, i) && forall j: nat :: OccursAt(s, LANG_OPEN, j) ==> j <= i
  }

  /** A "p" patch replaces the text from its last language tag on. Without a tag it is the whole text if it
      extends the text held, raw or as shown, and is concatenated otherwise. */
  lemma ReplacementStands(current: string, replacement: string)
    ensures replacement == "" || replacement == current ==> ReplaceContent(current, replacement) == current
    ensures EndsWith(ReplaceContent(current, replacement), replacement)
    ensures forall i: nat :: IsLastTag(current, i) && replacement != current && replacement != "" ==>
      ReplaceContent(current, replacement) == current[..i] + replacement
    ensures replacement != "" && (forall i: nat :: !OccursAt(current, LANG_OPEN, i)) ==>
      ReplaceContent(current, replacement) ==
        if current <= replacement || (Sanitize(current) != "" && Sanitize(current) <= Sanitize(replacement)) then replacement
        else current + replacement
  {
    hide Sanitize, LastIndexOf;
    LastIndexIsLast(current, LANG_OPEN);
    if LastIndexOf(current, LANG_OPEN) >= 0 {
      assert OccursAt(current, LANG_OPEN, LastIndexOf(current, LANG_OPEN));
    }
  }

  // ---- Growth ---------------------------------------------------------------------------------

  /** An "x" patch on tag-free text never retracts visible text, though it may rewrite the raw text. */
  lemma AppendGrowsVisible(existing: string, delta: string)
    requires TagFree(existing) && TagFree(delta)
    ensures TagFree(AppendDelta(existing, delta))
    ensures Sanitize(existing) <= Sanitize(AppendDelta(existing, delta))
  {
    hide Sanitize;
    var r := AppendDelta(existing, delta);
    assert r == existing || r == delta || r == existing + delta;
    if existing <= r {
      SanitizeMonotone(existing, r);
    }
  }

  lemma CombineGrows(existing: string, next: string)
    ensures existing <= CombineParts(existing, next)
  {
  }

  lemma PrefixesOfOne(a: string, b: string, whole: string)
    requires b <= whole
    ensures a <= whole ==> a <= b || b <= a
  {
    assert |a| <= |b| ==> whole[..|a|] == b[..|a|];
    assert a <= whole && |b| <= |a| ==> whole[..|b|] == a[..|b|];
  }

  /** Extending an entry extends the text it is combined into. */
  lemma CombineMonotone(existing: string, next: string, next': string)
    requires next <= next'
    ensures CombineParts(existing, next) <= CombineParts(existing, next')
  {
    if existing != "" && next != "" && !(existing <= next) && !(next <= existing) {
      PrefixesOfOne(existing, next, next');
      assert existing + next <= existing + next';
    }
  }

  /** The left-to-right fold of the non-empty entries of one kind. */
  function FoldParts(parts: seq<string>): string {
    if parts == [] then "" else CombineParts(FoldParts(parts[..|parts| - 1]), parts[|parts| - 1])
  }

  lemma FoldSnoc(parts: seq<string>, part: string)
    ensures FoldParts(parts + [part]) == CombineParts(FoldParts(parts), part)
  {
    assert (parts + [part])[..|parts|] == parts;
  }

  /** Appending an entry, or extending the last one, only ever extends the composed text. */
  lemma FoldMonotone(parts: seq<string>, last: string, grown: string, extra: string)
    requires last <= grown
    ensures FoldParts(parts + [last]) <= FoldParts(parts + [grown])
    ensures FoldParts(parts) <= FoldParts(parts + [extra])
  {
    FoldSnoc(parts, last);
    FoldSnoc(parts, grown);
    FoldSnoc(parts, extra);
    CombineMonotone(FoldParts(parts), last, grown);
    CombineGrows(FoldParts(parts), extra);
  }

  // ---- The suffix to send ---------------------------------------------------------------------

  function CommonPrefix(a: string, b: string): (n: nat)
    ensures n <= |a| && n <= |b|
    ensures a[..n] == b[..n]
    ensures n < |a| && n < |b| ==> a[n] != b[n]
  {
    if a == [] || b == [] || a[0] != b[0] then 0 else 1 + CommonPrefix(a[1..], b[1..])
  }

  /** textDeltaSuffix */
  function DeltaSuffix(previous: string, current: string): string {
    if current == "" || current == previous then ""
    else if previous == "" then current
    else if previous <= current then current[|previous|..]
    else current[CommonPrefix(previous, current)..]
  }

  lemma PrefixGoesOn(a: string, b: string, i: nat)
    requires i < |a| && i < |b| && a[i] == b[i]
    ensures CommonPrefix(a[i..], b[i..]) == 1 + CommonPrefix(a[i + 1..], b[i + 1..])
  {
    assert a[i..][1..] == a[i + 1..] && b[i..][1..] == b[i + 1..];
  }

  lemma PrefixStops(a: string, b: string, i: nat)
    requires i <= |a| && i <= |b| && (i == |a| || i == |b| || a[i] != b[i])
    ensures CommonPrefix(a[i..], b[i..]) == 0
  {
  }

  lemma CutAfterCommonPrefix(previous: string, current: string)
    requires current != "" && previous != "" && !(previous <= current)
    ensures CommonPrefix(previous, current) <= |current|
    ensures DeltaSuffix(previous, current) == current[CommonPrefix(previous, current)..]
  {
  }

  method TextDeltaSuffix(previous: string, current: string) returns (delta: string)
    ensures delta == DeltaSuffix(previous, current)
  {
    if current == "" || current == previous {
      return "";
    }
    if previous == "" {
      return current;
    }
    if previous <= current {
      return current[|previous|..];
    }
    CutAfterCommonPrefix(previous, current);
    hide CommonPrefix, DeltaSuffix;
    var index := 0;
    assert previous[0..] == previous && current[0..] == current;
    while index < |previous| && index < |current| && previous[index] == current[index]
      invariant index <= |previous| && index <= |current|
      invariant CommonPrefix(previous, current) == index + CommonPrefix(previous[index..], current[index..])
    {
      PrefixGoesOn(previous, current, index);
      index := index + 1;
    }
    PrefixStops(previous, current, index);
    assert index == CommonPrefix(previous, current);
    if index >= |current| {
      return "";
    }
    return current[index..];
  }

  /** What the stream has recorded as sent, and what the client actually holds. */
  datatype Delivery = Delivery(emitted: string, received: string)

  /** emitFullText after sanitizing: send the missing suffix, remember the new full text. */
  function Deliver(d: Delivery, full: string): Delivery {
    Delivery(if full != "" || d.emitted == "" then full else d.emitted,
             d.received + DeltaSuffix(d.emitted, full))
  }

  function DeliverAll(d: Delivery, fulls: seq<string>): Delivery
    decreases |fulls|
  {
    if fulls == [] then d else DeliverAll(Deliver(d, fulls[0]), fulls[1..])
  }

  /** Every non-empty text extends the non-empty one before it. */
  predicate GrowingChain(last: string, fulls: seq<string>)
    decreases |fulls|
  {
    fulls == []
    || (if fulls[0] == "" then GrowingChain(last, fulls[1..])
        else last <= fulls[0] && GrowingChain(fulls[0], fulls[1..]))
  }

  lemma DeliverGap(d: Delivery, full: string)
    ensures var e := Deliver(d, full);
      && |e.received| - |e.emitted| >= |d.received| - |d.emitted|
      && (full != "" && !(d.emitted <= full) ==> |e.received| - |e.emitted| > |d.received| - |d.emitted|)
      && (d.received == d.emitted && (full == "" || d.emitted <= full) ==> e.received == e.emitted)
  {
    if full != "" && !(d.emitted <= full) {
      assert CommonPrefix(d.emitted, full) < |d.emitted|;
    }
  }

  lemma {:induction false} GapNeverCloses(d: Delivery, fulls: seq<string>)
    requires |d.received| > |d.emitted|
    ensures |DeliverAll(d, fulls).received| > |DeliverAll(d, fulls).emitted|
    decreases |fulls|
  {
    if fulls != [] {
      DeliverGap(d, fulls[0]);
      GapNeverCloses(Deliver(d, fulls[0]), fulls[1..]);
    }
  }

  /** The client ends up with exactly the recorded text if and only if no step retracted visible text. */
  lemma {:induction false} DeliveredExactly(d: Delivery, fulls: seq<string>)
    requires d.received == d.emitted
    ensures DeliverAll(d, fulls).received == DeliverAll(d, fulls).emitted <==> GrowingChain(d.emitted, fulls)
    decreases |fulls|
  {
    if fulls != [] {
      DeliverGap(d, fulls[0]);
      if fulls[0] == "" || d.emitted <= fulls[0] {
        DeliveredExactly(Deliver(d, fulls[0]), fulls[1..]);
      } else {
        GapNeverCloses(Deliver(d, fulls[0]), fulls[1..]);
      }
    }
  }
}
