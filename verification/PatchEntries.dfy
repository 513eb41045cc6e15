/** The entries of every step of a streamed transcript, kept in three dictionaries keyed by
    (step, value) as the stream decoder keeps them, and read back as plain sequences
    (internal/app/notion_client.go:2262-2413). */
module PatchEntries {
  import opened Text
  import opened AgentText

  datatype Kind = NoKind | TextKind | ReasoningKind

  datatype Entry = Entry(kind: Kind, text: string)

  /** One element of a step's value list as it arrives: its normalised type and its content. */
  datatype Part = Part(kind: Kind, content: string)

  type Key = (nat, nat)

  datatype Maps = Maps(types: map<Key, Kind>, texts: map<Key, string>, counts: map<nat, nat>)

  function Count(m: Maps, step: nat): nat {
    if step in m.counts then m.counts[step] else 0
  }

  function TypeAt(m: Maps, k: Key): Kind {
    if k in m.types then m.types[k] else NoKind
  }

  function TextAt(m: Maps, k: Key): string {
    if k in m.texts then m.texts[k] else ""
  }

  function EntryAt(m: Maps, step: nat, i: nat): Entry {
    Entry(TypeAt(m, (step, i)), TextAt(m, (step, i)))
  }

  function EntriesAt(m: Maps, step: nat): (es: seq<Entry>)
    ensures |es| == Count(m, step)
    ensures forall i :: 0 <= i < |es| ==> es[i] == EntryAt(m, step, i)
  {
    seq(Count(m, step), i requires 0 <= i => EntryAt(m, step, i))
  }

  function AllEntries(m: Maps, n: nat): (all: seq<seq<Entry>>)
    ensures |all| == n
    ensures forall s :: 0 <= s < n ==> all[s] == EntriesAt(m, s)
  {
    seq(n, s requires 0 <= s => EntriesAt(m, s))
  }

  /** What was never stored reads as nothing. */
  lemma AbsentReadsEmpty(m: Maps, step: nat, i: nat)
    ensures step !in m.counts ==> EntriesAt(m, step) == []
    ensures (step, i) !in m.types ==> EntryAt(m, step, i).kind == NoKind
    ensures (step, i) !in m.texts ==> EntryAt(m, step, i).text == ""
  {
  }

  /** No dictionary holds a key at or above its step's count, or of a step that does not exist. */
  ghost predicate NoStaleKey(m: Maps, n: nat) {
    && (forall k :: k in m.types ==> k.0 < n && k.1 < Count(m, k.0))
    && (forall k :: k in m.texts ==> k.0 < n && k.1 < Count(m, k.0))
    && (forall s :: s in m.counts ==> s < n)
  }

  ghost predicate SameElsewhere(m: Maps, m': Maps, step: nat) {
    && (forall s: nat :: s != step ==> Count(m', s) == Count(m, s))
    && (forall s: nat, i: nat :: s != step ==> EntryAt(m', s, i) == EntryAt(m, s, i))
  }

  lemma OnlyOneStepChanges(m: Maps, m': Maps, n: nat, step: nat)
    requires step < n && SameElsewhere(m, m', step)
    ensures AllEntries(m', n) == AllEntries(m, n)[step := EntriesAt(m', step)]
  {
    var left, right := AllEntries(m', n), AllEntries(m, n)[step := EntriesAt(m', step)];
    forall s | 0 <= s < n ensures left[s] == right[s] {
      if s != step {
        assert EntriesAt(m', s) == EntriesAt(m, s);
      }
    }
  }

  // ---- Operations on the plain sequence -------------------------------------------------------

  /** A part as it is first stored: unknown types hold no text, blank content is not stored. */
  function StoredPart(p: Part): Entry {
    Entry(p.kind, if p.kind == NoKind || Trim(p.content) == "" then "" else p.content)
  }

  function StoredParts(parts: seq<Part>): seq<Entry> {
    seq(|parts|, i requires 0 <= i < |parts| => StoredPart(parts[i]))
  }

  /** An appended part of an unknown type is not counted at all. */
  function AppendPart(es: seq<Entry>, p: Part): seq<Entry> {
    if p.kind == NoKind then es else es + [StoredPart(p)]
  }

  function RemoveEntry(es: seq<Entry>, i: nat): seq<Entry> {
    if i < |es| then es[..i] + es[i + 1..] else es
  }

  function PatchText(es: seq<Entry>, i: nat, op: ContentOp, content: string): seq<Entry> {
    if content == "" || i >= |es| then es else es[i := Entry(es[i].kind, ApplyContent(es[i].text, op, content))]
  }

  function PatchKind(es: seq<Entry>, i: nat, kind: Kind): seq<Entry> {
    if i >= |es| then es else es[i := Entry(kind, es[i].text)]
  }

  /** The non-empty contents of the entries of one kind, in order. */
  function PartsOf(es: seq<Entry>, kind: Kind): seq<string> {
    if es == [] then []
    else
      var e := es[|es| - 1];
      PartsOf(es[..|es| - 1], kind) + if e.kind == kind && e.text != "" then [e.text] else []
  }

  // ---- Shifting the entries of one step -------------------------------------------------------

  predicate SameKey<V(==)>(a: map<Key, V>, b: map<Key, V>, k: Key, l: Key) {
    (k in a <==> l in b) && (k in a ==> a[k] == b[l])
  }

  /** In now, the entries i..idx of a step are those one place further on in before; the rest are as before. */
  ghost predicate ShiftedTo<V>(before: map<Key, V>, now: map<Key, V>, step: nat, i: nat, idx: nat) {
    && (forall k: Key :: k.0 != step || k.1 < i || k.1 >= idx ==> SameKey(now, before, k, k))
    && (forall j :: i <= j < idx ==> SameKey(now, before, (step, j), (step, j + 1)))
  }

  function ShiftKey<V>(m: map<Key, V>, step: nat, idx: nat): map<Key, V> {
    if (step, idx + 1) in m then m[(step, idx) := m[(step, idx + 1)]] else m - {(step, idx)}
  }

  lemma NothingShifted<V>(m: map<Key, V>, step: nat, i: nat)
    ensures ShiftedTo(m, m, step, i, i)
  {
  }

  lemma ShiftOne<V>(before: map<Key, V>, now: map<Key, V>, step: nat, i: nat, idx: nat)
    requires i <= idx && ShiftedTo(before, now, step, i, idx)
    ensures ShiftedTo(before, ShiftKey(now, step, idx), step, i, idx + 1)
  {
    var next := ShiftKey(now, step, idx);
    assert SameKey(now, before, (step, idx + 1), (step, idx + 1));
    forall k: Key | k.0 != step || k.1 < i || k.1 >= idx + 1 ensures SameKey(next, before, k, k) {
      assert SameKey(now, before, k, k);
    }
    forall j | i <= j < idx + 1 ensures SameKey(next, before, (step, j), (step, j + 1)) {
      if j < idx {
        assert SameKey(now, before, (step, j), (step, j + 1));
      }
    }
  }

  /** After the last key is dropped, entry i is gone and the later ones have moved down. */
  ghost predicate ShiftedOut<V>(before: map<Key, V>, now: map<Key, V>, step: nat, i: nat, count: nat) {
    && (forall k: Key :: k.0 != step || k.1 < i || k.1 >= count ==> SameKey(now, before, k, k))
    && (forall j :: i <= j < count - 1 ==> SameKey(now, before, (step, j), (step, j + 1)))
    && (count > 0 ==> (step, count - 1) !in now)
  }

  lemma ShiftLast<V>(before: map<Key, V>, now: map<Key, V>, step: nat, i: nat, count: nat)
    requires i < count && ShiftedTo(before, now, step, i, count - 1)
    ensures ShiftedOut(before, now - {(step, count - 1)}, step, i, count)
  {
    var next := now - {(step, count - 1)};
    forall k: Key | k.0 != step || k.1 < i || k.1 >= count ensures SameKey(next, before, k, k) {
      assert SameKey(now, before, k, k);
    }
    forall j | i <= j < count - 1 ensures SameKey(next, before, (step, j), (step, j + 1)) {
      assert SameKey(now, before, (step, j), (step, j + 1));
    }
  }

  lemma RemovalLeavesNoStaleKey(m: Maps, m': Maps, n: nat, step: nat, i: nat)
    requires NoStaleKey(m, n) && step < n && i < Count(m, step)
    requires m'.counts == m.counts[step := Count(m, step) - 1]
    requires ShiftedOut(m.types, m'.types, step, i, Count(m, step))
    requires ShiftedOut(m.texts, m'.texts, step, i, Count(m, step))
    ensures NoStaleKey(m', n)
  {
    var count := Count(m, step);
    forall k: Key | k in m'.types ensures k.0 < n && k.1 < Count(m', k.0) {
      if k.0 != step || k.1 >= count { assert SameKey(m'.types, m.types, k, k); }
    }
    forall k: Key | k in m'.texts ensures k.0 < n && k.1 < Count(m', k.0) {
      if k.0 != step || k.1 >= count { assert SameKey(m'.texts, m.texts, k, k); }
    }
  }

  /** The dictionaries after a removal read back as the sequence with that entry cut out. */
  lemma RemovalShifts(m: Maps, m': Maps, n: nat, step: nat, i: nat)
    requires NoStaleKey(m, n) && step < n && i < Count(m, step)
    requires m'.counts == m.counts[step := Count(m, step) - 1]
    requires ShiftedOut(m.types, m'.types, step, i, Count(m, step))
    requires ShiftedOut(m.texts, m'.texts, step, i, Count(m, step))
    ensures NoStaleKey(m', n)
    ensures SameElsewhere(m, m', step)
    ensures EntriesAt(m', step) == RemoveEntry(EntriesAt(m, step), i)
  {
    RemovalLeavesNoStaleKey(m, m', n, step, i);
    RemovalMovesEntries(m, m', step, i);
    hide RemoveEntry, NoStaleKey, ShiftedOut, EntryAt;
    EntriesShift(EntriesAt(m, step), EntriesAt(m', step), i);
  }

  lemma RemovalMovesEntries(m: Maps, m': Maps, step: nat, i: nat)
    requires i < Count(m, step)
    requires ShiftedOut(m.types, m'.types, step, i, Count(m, step))
    requires ShiftedOut(m.texts, m'.texts, step, i, Count(m, step))
    ensures forall s: nat, j: nat :: s != step || j < i ==> EntryAt(m', s, j) == EntryAt(m, s, j)
    ensures forall j: nat :: i <= j < Count(m, step) - 1 ==> EntryAt(m', step, j) == EntryAt(m, step, j + 1)
  {
    forall s: nat, j: nat | s != step || j < i ensures EntryAt(m', s, j) == EntryAt(m, s, j) {
      assert SameKey(m'.types, m.types, (s, j), (s, j)) && SameKey(m'.texts, m.texts, (s, j), (s, j));
    }
    forall j: nat | i <= j < Count(m, step) - 1 ensures EntryAt(m', step, j) == EntryAt(m, step, j + 1) {
      assert SameKey(m'.types, m.types, (step, j), (step, j + 1));
      assert SameKey(m'.texts, m.texts, (step, j), (step, j + 1));
    }
  }

  lemma EntriesShift(es: seq<Entry>, es': seq<Entry>, i: nat)
    requires i < |es| && |es'| == |es| - 1
    requires forall j :: 0 <= j < i ==> es'[j] == es[j]
    requires forall j :: i <= j < |es'| ==> es'[j] == es[j + 1]
    ensures es' == RemoveEntry(es, i)
  {
  }

  // ---- Storing new entries --------------------------------------------------------------------

  /** The dictionaries m1 hold one more stored part of a step than m does. */
  ghost predicate StoredAt(m: Maps, m1: Maps, step: nat, i: nat, part: Part) {
    && m1.types == (if part.kind == NoKind then m.types else m.types[(step, i) := part.kind])
    && m1.texts == (if part.kind == NoKind || Trim(part.content) == "" then m.texts
                    else m.texts[(step, i) := part.content])
  }

  lemma StoredAtEffect(m: Maps, m1: Maps, step: nat, i: nat, part: Part)
    requires StoredAt(m, m1, step, i, part)
    requires (step, i) !in m.types && (step, i) !in m.texts
    ensures EntryAt(m1, step, i) == StoredPart(part)
    ensures forall s: nat, j: nat :: s != step || j != i ==> EntryAt(m1, s, j) == EntryAt(m, s, j)
    ensures forall k :: k in m1.types ==> k in m.types || k == (step, i)
    ensures forall k :: k in m1.texts ==> k in m.texts || k == (step, i)
  {
    hide Trim;
    forall s: nat, j: nat | s != step || j != i ensures EntryAt(m1, s, j) == EntryAt(m, s, j) {
      var k := (s, j);
      assert k != (step, i);
    }
  }

  /** The first n parts of a new step have been stored, and nothing else has changed. */
  ghost predicate Registered(m: Maps, m': Maps, step: nat, parts: seq<Part>, n: nat)
    requires n <= |parts|
  {
    && (forall k :: k in m'.types ==> k in m.types || (k.0 == step && k.1 < n))
    && (forall k :: k in m'.texts ==> k in m.texts || (k.0 == step && k.1 < n))
    && (forall s: nat, j: nat :: s != step ==> EntryAt(m', s, j) == EntryAt(m, s, j))
    && (forall j :: 0 <= j < n ==> EntryAt(m', step, j) == StoredPart(parts[j]))
  }

  lemma FreshKeyAt(m: Maps, m1: Maps, step: nat, parts: seq<Part>, n: nat)
    requires n < |parts| && NoStaleKey(m, step) && Registered(m, m1, step, parts, n)
    ensures (step, n) !in m1.types && (step, n) !in m1.texts
  {
    hide Trim, StoredPart, EntryAt;
  }

  lemma RegisteredOneMore(m: Maps, m1: Maps, m2: Maps, step: nat, parts: seq<Part>, n: nat)
    requires n < |parts| && NoStaleKey(m, step)
    requires Registered(m, m1, step, parts, n) && StoredAt(m1, m2, step, n, parts[n])
    ensures Registered(m, m2, step, parts, n + 1)
  {
    hide Trim, StoredPart, StoredAt;
    FreshKeyAt(m, m1, step, parts, n);
    StoredAtEffect(m1, m2, step, n, parts[n]);
  }

  lemma RegisteredAll(m: Maps, m': Maps, step: nat, parts: seq<Part>)
    requires NoStaleKey(m, step) && m'.counts == m.counts[step := |parts|]
    requires Registered(m, m', step, parts, |parts|)
    ensures NoStaleKey(m', step + 1)
    ensures SameElsewhere(m, m', step)
    ensures EntriesAt(m', step) == StoredParts(parts)
  {
  }

  lemma NothingAppended(m: Maps, step: nat, part: Part)
    requires part.kind == NoKind
    ensures SameElsewhere(m, m, step) && EntriesAt(m, step) == AppendPart(EntriesAt(m, step), part)
  {
  }

  lemma NextKeyIsFresh(m: Maps, n: nat, step: nat)
    requires NoStaleKey(m, n) && step < n
    ensures (step, Count(m, step)) !in m.types && (step, Count(m, step)) !in m.texts
  {
  }

  lemma AppendStores(m: Maps, m': Maps, n: nat, step: nat, part: Part)
    requires NoStaleKey(m, n) && step < n && part.kind != NoKind
    requires StoredAt(m, m', step, Count(m, step), part)
    requires m'.counts == m.counts[step := Count(m, step) + 1]
    ensures NoStaleKey(m', n)
    ensures SameElsewhere(m, m', step)
    ensures EntriesAt(m', step) == AppendPart(EntriesAt(m, step), part)
  {
    hide Trim, EntryAt, StoredAt;
    StoredAtEffect(m, m', step, Count(m, step), part);
    var left, right := EntriesAt(m', step), AppendPart(EntriesAt(m, step), part);
    forall j | 0 <= j < |left| ensures left[j] == right[j] {
      if j < Count(m, step) {
        assert EntryAt(m', step, j) == EntryAt(m, step, j);
      }
    }
  }

  // ---- Patching one entry in place ------------------------------------------------------------

  /** Writing the text of one key; a key at or above the count is stale from then on. */
  lemma TextWritten(m: Maps, m': Maps, n: nat, step: nat, i: nat, text: string)
    requires NoStaleKey(m, n) && step < n && m' == m.(texts := m.texts[(step, i) := text])
    ensures NoStaleKey(m', n) <==> i < Count(m, step)
    ensures SameElsewhere(m, m', step)
    ensures EntriesAt(m', step) ==
      if i < Count(m, step) then EntriesAt(m, step)[i := Entry(EntriesAt(m, step)[i].kind, text)] else EntriesAt(m, step)
  {
    var k := (step, i);
    assert k in m'.texts;
    forall s: nat, j: nat | s != step || j != i ensures EntryAt(m', s, j) == EntryAt(m, s, j) {
      assert (s, j) != k;
    }
  }

  lemma TypeWritten(m: Maps, m': Maps, n: nat, step: nat, i: nat, kind: Kind)
    requires NoStaleKey(m, n) && step < n && m' == m.(types := m.types[(step, i) := kind])
    ensures NoStaleKey(m', n) <==> i < Count(m, step)
    ensures SameElsewhere(m, m', step)
    ensures EntriesAt(m', step) ==
      if i < Count(m, step) then EntriesAt(m, step)[i := Entry(kind, EntriesAt(m, step)[i].text)] else EntriesAt(m, step)
  {
    var k := (step, i);
    assert k in m'.types;
    forall s: nat, j: nat | s != step || j != i ensures EntryAt(m', s, j) == EntryAt(m, s, j) {
      assert (s, j) != k;
    }
  }
}
