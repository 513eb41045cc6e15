/** The bounded walk that turns the block graph of a note into text (internal/app/admin_notes.go:103-179). */
module NoteWalk {
  import opened Orders

  const MAX_BLOCKS := 200
  const MAX_DEPTH := 12
  const MAX_CHARS := 12000

  /** A readable block; title is its plain text. */
  datatype Block = Block(kind: string, title: string, content: seq<string>)

  type Records = map<string, Block>

  datatype Progress = Progress(visited: set<string>, lines: seq<string>, chars: nat, partial: bool)

  predicate IsPlainKind(kind: string) {
    kind in ["header", "sub_header", "sub_sub_header", "bulleted_list", "numbered_list", "to_do",
             "text", "quote", "callout", "toggle", "code", "column", "column_list", "divider"]
  }

  /** The line a block gives. */
  function LineText(b: Block): string {
    if b.kind == "header" then "# " + b.title
    else if b.kind == "sub_header" then "## " + b.title
    else if b.kind == "sub_sub_header" then "### " + b.title
    else if b.kind in ["bulleted_list", "numbered_list", "to_do"] then "- " + b.title
    else if b.kind == "page" then "[\U{5B50}\U{9875}\U{9762}] " + b.title
    else b.title
  }

  lemma KindsWithPrefix()
    ensures IsPlainKind("header") && IsPlainKind("sub_header") && IsPlainKind("sub_sub_header")
    ensures IsPlainKind("bulleted_list") && IsPlainKind("numbered_list") && IsPlainKind("to_do")
    ensures !IsPlainKind("page")
  {
    assert |"page"| == 4 && "page"[0] == 'p';
    assert |"text"| == 4 && "text"[0] == 't' && |"code"| == 4 && "code"[0] == 'c';
  }

  lemma PlainKinds(kind: string)
    ensures IsPlainKind(kind) <==>
      || kind in ["header", "sub_header", "sub_sub_header", "bulleted_list", "numbered_list", "to_do"]
      || kind in ["text", "quote", "callout", "toggle", "code", "column", "column_list", "divider"]
  {
  }

  function CharsOf(lines: seq<string>): nat {
    if lines == [] then 0 else CharsOf(lines[..|lines| - 1]) + |lines[|lines| - 1]|
  }

  // ---- The walk -------------------------------------------------------------------------------

  function WithLine(lines: seq<string>, text: string): seq<string> {
    if text != "" then lines + [text] else lines
  }

  /** The block itself: marked as visited, its line added as far as the character limit allows. */
  function Visit(records: Records, root: string, id: string, w: Progress): Progress
    requires id in records && w.chars <= MAX_CHARS
  {
    if id == root then w.(visited := w.visited + {id})
    else
      var text := LineText(records[id]);
      var fits := |text| <= MAX_CHARS - w.chars;
      var shown := if fits then text else text[..MAX_CHARS - w.chars];
      Progress(w.visited + {id}, WithLine(w.lines, shown), w.chars + |shown|, w.partial || !IsPlainKind(records[id].kind) || !fits)
  }

  predicate Turned(id: string, depth: nat, w: Progress) {
    id in w.visited || |w.visited| >= MAX_BLOCKS || depth > MAX_DEPTH || w.chars >= MAX_CHARS
  }

  function WalkBlock(records: Records, root: string, id: string, depth: nat, w: Progress): Progress
    requires depth <= MAX_DEPTH + 1
    decreases MAX_DEPTH + 1 - depth, 0
  {
    if Turned(id, depth, w) then w.(partial := true)
    else if id !in records then w.(visited := w.visited + {id}, partial := true)
    else
      var v := Visit(records, root, id, w);
      if records[id].kind == "page" && id != root then v
      else WalkChildren(records, root, records[id].content, depth + 1, v)
  }

  function WalkChildren(records: Records, root: string, children: seq<string>, depth: nat, w: Progress): Progress
    requires depth <= MAX_DEPTH + 1
    decreases MAX_DEPTH + 1 - depth, 1 + |children|
  {
    if children == [] then w
    else WalkChildren(records, root, children[1..], depth, WalkBlock(records, root, children[0], depth, w))
  }

  function Start(): Progress {
    Progress({}, [], 0, false)
  }

  function ReadNote(records: Records, root: string): Progress {
    WalkBlock(records, root, root, 0, Start())
  }

  /** The walk as the source runs it: a recursive closure over what has been visited and collected. */
  class NoteReader {
    const records: Records
    const root: string
    var visited: set<string>
    var lines: seq<string>
    var chars: nat
    var partial: bool

    ghost function State(): Progress
      reads this
    {
      Progress(visited, lines, chars, partial)
    }

    constructor (records: Records, root: string)
      ensures this.records == records && this.root == root && State() == Start()
    {
      this.records, this.root := records, root;
      visited, lines, chars, partial := {}, [], 0, false;
    }

    method Walk(id: string, depth: nat)
      requires depth <= MAX_DEPTH + 1
      modifies this
      ensures State() == WalkBlock(records, root, id, depth, old(State()))
      decreases MAX_DEPTH + 1 - depth, 0
    {
      hide Visit, WalkChildren;
      if id in visited {
        partial := true;
        return;
      }
      if |visited| >= MAX_BLOCKS || depth > MAX_DEPTH || chars >= MAX_CHARS {
        partial := true;
        return;
      }
      if id !in records {
        visited := visited + {id};
        partial := true;
        return;
      }
      VisitBlock(id);
      var block := records[id];
      if block.kind == "page" && id != root {
        return;
      }
      WalkContent(block.content, depth + 1);
    }

    method VisitBlock(id: string)
      requires id in records && chars <= MAX_CHARS
      modifies this
      ensures State() == Visit(records, root, id, old(State()))
    {
      hide LineText, IsPlainKind;
      visited := visited + {id};
      if id != root {
        AddLine(records[id]);
      }
    }

    method WalkContent(content: seq<string>, depth: nat)
      requires depth <= MAX_DEPTH + 1
      modifies this
      ensures State() == WalkChildren(records, root, content, depth, old(State()))
      decreases MAX_DEPTH + 1 - depth, 1
    {
      hide WalkBlock;
      for i := 0 to |content|
        invariant WalkChildren(records, root, content, depth, old(State()))
          == WalkChildren(records, root, content[i..], depth, State())
      {
        assert content[i..][1..] == content[i + 1..];
        Walk(content[i], depth);
      }
    }

    /** The switch over block kinds: the line, and whether the kind is one whose text says it all. */
    static method Prefixed(block: Block) returns (text: string, plain: bool)
      ensures text == LineText(block) && plain == IsPlainKind(block.kind)
    {
      hide IsPlainKind;
      KindsWithPrefix();
      PlainKinds(block.kind);
      text, plain := block.title, true;
      if block.kind == "header" {
        text := "# " + text;
      } else if block.kind == "sub_header" {
        text := "## " + text;
      } else if block.kind == "sub_sub_header" {
        text := "### " + text;
      } else if block.kind in ["bulleted_list", "numbered_list", "to_do"] {
        text := "- " + text;
      } else if block.kind == "page" {
        text, plain := "[\U{5B50}\U{9875}\U{9762}] " + text, false;
      } else if block.kind !in ["text", "quote", "callout", "toggle", "code", "column", "column_list", "divider"] {
        plain := false;
      }
    }

    method AddLine(block: Block)
      requires chars <= MAX_CHARS
      modifies this
      ensures visited == old(visited)
      ensures var text := LineText(block);
        var fits := |text| <= MAX_CHARS - old(chars);
        var shown := if fits then text else text[..MAX_CHARS - old(chars)];
        && lines == WithLine(old(lines), shown) && chars == old(chars) + |shown|
        && partial == (old(partial) || !IsPlainKind(block.kind) || !fits)
    {
      hide LineText, IsPlainKind;
      var text, plain := Prefixed(block);
      if !plain {
        partial := true;
      }
      if |text| > MAX_CHARS - chars {
        text := text[..MAX_CHARS - chars];
        partial := true;
      }
      if text != "" {
        lines := lines + [text];
        chars := chars + |text|;
      }
    }
  }

  // ---- The bounds -----------------------------------------------------------------------------

  predicate Bounded(w: Progress) {
    |w.visited| <= 200 && w.chars <= 12000 && w.chars == CharsOf(w.lines)
  }

  lemma VisitBounded(records: Records, root: string, id: string, w: Progress)
    requires Bounded(w) && id in records && |w.visited| < MAX_BLOCKS
    ensures Bounded(Visit(records, root, id, w))
  {
    hide LineText, IsPlainKind;
    var v := Visit(records, root, id, w);
    if v.lines != w.lines {
      assert v.lines[..|v.lines| - 1] == w.lines;
    }
  }

  /** On any block graph, cycles included, the walk ends having visited at most 200 blocks and collected
      at most 12000 characters. */
  lemma {:induction false} WalkIsBounded(records: Records, root: string, id: string, depth: nat, w: Progress)
    requires depth <= MAX_DEPTH + 1 && Bounded(w)
    ensures Bounded(WalkBlock(records, root, id, depth, w))
    decreases MAX_DEPTH + 1 - depth, 0
  {
    hide LineText, IsPlainKind, Visit, CharsOf;
    if !Turned(id, depth, w) && id in records {
      VisitBounded(records, root, id, w);
      if records[id].kind != "page" || id == root {
        ChildrenBounded(records, root, records[id].content, depth + 1, Visit(records, root, id, w));
      }
    }
  }

  lemma {:induction false} ChildrenBounded(records: Records, root: string, children: seq<string>, depth: nat, w: Progress)
    requires depth <= MAX_DEPTH + 1 && Bounded(w)
    ensures Bounded(WalkChildren(records, root, children, depth, w))
    decreases MAX_DEPTH + 1 - depth, 1 + |children|
  {
    if children != [] {
      WalkIsBounded(records, root, children[0], depth, w);
      ChildrenBounded(records, root, children[1..], depth, WalkBlock(records, root, children[0], depth, w));
    }
  }

  // ---- The full rendering ---------------------------------------------------------------------

  /** A finite unfolding of the block graph. */
  datatype Tree = Node(id: string, children: seq<Tree>)

  /** The tree has, below every block, exactly the blocks of its content in order, all of them readable. */
  predicate Unfolds(records: Records, t: Tree) {
    t.id in records && UnfoldsAll(records, t.children, records[t.id].content)
  }

  predicate UnfoldsAll(records: Records, ts: seq<Tree>, ids: seq<string>) {
    |ts| == |ids|
    && (ts == [] || (ts[0].id == ids[0] && Unfolds(records, ts[0]) && UnfoldsAll(records, ts[1..], ids[1..])))
  }

  /** The blocks of a tree in preorder. */
  function Preorder(t: Tree): seq<string> {
    [t.id] + PreorderAll(t.children)
  }

  function PreorderAll(ts: seq<Tree>): seq<string> {
    if ts == [] then [] else Preorder(ts[0]) + PreorderAll(ts[1..])
  }

  /** No block of the tree lies more than n levels below its root. */
  predicate Within(t: Tree, n: int) {
    0 <= n && WithinAll(t.children, n - 1)
  }

  predicate WithinAll(ts: seq<Tree>, n: int) {
    ts == [] || (Within(ts[0], n) && WithinAll(ts[1..], n))
  }

  /** The line of a block in the full rendering: none for the note itself. */
  function FullLine(records: Records, root: string, id: string): string {
    if id == root || id !in records then "" else LineText(records[id])
  }

  /** The blocks rendered one after another, nothing cut. */
  function FullLines(records: Records, root: string, ids: seq<string>): seq<string> {
    if ids == [] then []
    else WithLine(FullLines(records, root, ids[..|ids| - 1]), FullLine(records, root, ids[|ids| - 1]))
  }

  /** The note's own block may be of any kind; others must be of a plain kind, so no child pages. */
  predicate Renderable(records: Records, root: string, id: string) {
    id in records && (id == root || IsPlainKind(records[id].kind))
  }

  /** There is room to visit the block and its whole line. */
  predicate Fits(records: Records, root: string, w: Progress, id: string) {
    && id !in w.visited && |w.visited| < MAX_BLOCKS && w.chars < MAX_CHARS
    && Renderable(records, root, id)
    && |FullLine(records, root, id)| <= MAX_CHARS - w.chars
  }

  function After(records: Records, root: string, w: Progress, id: string): Progress {
    var text := FullLine(records, root, id);
    Progress(w.visited + {id}, WithLine(w.lines, text), w.chars + |text|, w.partial)
  }

  predicate AllFit(records: Records, root: string, w: Progress, ids: seq<string>)
    decreases |ids|
  {
    ids == [] || (Fits(records, root, w, ids[0]) && AllFit(records, root, After(records, root, w, ids[0]), ids[1..]))
  }

  function AfterAll(records: Records, root: string, w: Progress, ids: seq<string>): Progress
    decreases |ids|
  {
    if ids == [] then w else AfterAll(records, root, After(records, root, w, ids[0]), ids[1..])
  }

  lemma {:induction false} AllFitAppend(records: Records, root: string, w: Progress, a: seq<string>, b: seq<string>)
    ensures AllFit(records, root, w, a + b) <==> AllFit(records, root, w, a) && AllFit(records, root, AfterAll(records, root, w, a), b)
    ensures AfterAll(records, root, w, a + b) == AfterAll(records, root, AfterAll(records, root, w, a), b)
    decreases |a|
  {
    hide Fits, After;
    if a == [] {
      assert a + b == b;
    } else {
      assert (a + b)[1..] == a[1..] + b;
      AllFitAppend(records, root, After(records, root, w, a[0]), a[1..], b);
    }
  }

  // ---- One block ------------------------------------------------------------------------------

  /** A block that fits is visited in full; one that does not makes the result partial. */
  lemma VisitIsAfter(records: Records, root: string, id: string, depth: nat, w: Progress)
    requires !w.partial && depth <= MAX_DEPTH
    ensures Fits(records, root, w, id) ==>
      !Turned(id, depth, w) && id in records && Visit(records, root, id, w) == After(records, root, w, id)
    ensures !Turned(id, depth, w) && id in records && !Visit(records, root, id, w).partial ==> Fits(records, root, w, id)
  {
    hide LineText, IsPlainKind;
  }

  lemma PageIsNotPlain(records: Records, root: string, id: string, w: Progress)
    requires Fits(records, root, w, id)
    ensures id == root || records[id].kind != "page"
  {
    KindsWithPrefix();
    hide IsPlainKind, LineText;
  }

  /** Partial is never taken back. */
  lemma {:induction false} PartialSticks(records: Records, root: string, id: string, depth: nat, w: Progress)
    requires depth <= MAX_DEPTH + 1 && w.partial
    ensures WalkBlock(records, root, id, depth, w).partial
    decreases MAX_DEPTH + 1 - depth, 0
  {
    hide LineText, IsPlainKind;
    if !Turned(id, depth, w) && id in records && (records[id].kind != "page" || id == root) {
      PartialSticksAll(records, root, records[id].content, depth + 1, Visit(records, root, id, w));
    }
  }

  lemma {:induction false} PartialSticksAll(records: Records, root: string, children: seq<string>, depth: nat,
        w: Progress)
    requires depth <= MAX_DEPTH + 1 && w.partial
    ensures WalkChildren(records, root, children, depth, w).partial
    decreases MAX_DEPTH + 1 - depth, 1 + |children|
  {
    hide Turned, Visit;
    if children != [] {
      PartialSticks(records, root, children[0], depth, w);
      PartialSticksAll(records, root, children[1..], depth, WalkBlock(records, root, children[0], depth, w));
    }
  }

  // ---- A walk that is not partial is a full preorder rendering --------------------------------

  lemma {:induction false} FullWalk(records: Records, root: string, id: string, depth: nat, w: Progress) returns (t: Tree)
    requires depth <= MAX_DEPTH + 1 && !WalkBlock(records, root, id, depth, w).partial
    ensures t.id == id && Unfolds(records, t) && Within(t, MAX_DEPTH - depth)
    ensures AllFit(records, root, w, Preorder(t))
    ensures WalkBlock(records, root, id, depth, w) == AfterAll(records, root, w, Preorder(t))
    decreases MAX_DEPTH + 1 - depth, 0
  {
    hide Visit, After, Fits;
    if w.partial {
      PartialSticks(records, root, id, depth, w);
    }
    var v := Visit(records, root, id, w);
    if v.partial && (records[id].kind != "page" || id == root) {
      PartialSticksAll(records, root, records[id].content, depth + 1, v);
    }
    VisitIsAfter(records, root, id, depth, w);
    PageIsNotPlain(records, root, id, w);
    var ts := FullWalkAll(records, root, records[id].content, depth + 1, v);
    t := Node(id, ts);
    assert Preorder(t)[1..] == PreorderAll(ts);
  }

  lemma {:induction false} FullWalkAll(records: Records, root: string, children: seq<string>, depth: nat,
        w: Progress) returns (ts: seq<Tree>)
    requires depth <= MAX_DEPTH + 1 && !WalkChildren(records, root, children, depth, w).partial
    ensures UnfoldsAll(records, ts, children) && WithinAll(ts, MAX_DEPTH - depth)
    ensures AllFit(records, root, w, PreorderAll(ts))
    ensures WalkChildren(records, root, children, depth, w) == AfterAll(records, root, w, PreorderAll(ts))
    decreases MAX_DEPTH + 1 - depth, 1 + |children|
  {
    hide WalkBlock, Fits, After, Preorder, Unfolds, Within;
    if children == [] {
      ts := [];
    } else {
      var next := WalkBlock(records, root, children[0], depth, w);
      if next.partial {
        PartialSticksAll(records, root, children[1..], depth, next);
      }
      var first := FullWalk(records, root, children[0], depth, w);
      var rest := FullWalkAll(records, root, children[1..], depth, next);
      ts := [first] + rest;
      assert ts[1..] == rest;
      AllFitAppend(records, root, w, Preorder(first), PreorderAll(rest));
    }
  }

  // ---- And a rendering that fits is walked in full --------------------------------------------

  lemma {:induction false} FittingWalk(records: Records, root: string, t: Tree, depth: nat, w: Progress)
    requires depth <= MAX_DEPTH + 1 && !w.partial && Unfolds(records, t) && Within(t, MAX_DEPTH - depth)
    requires AllFit(records, root, w, Preorder(t))
    ensures WalkBlock(records, root, t.id, depth, w) == AfterAll(records, root, w, Preorder(t))
    decreases MAX_DEPTH + 1 - depth, 0
  {
    hide Visit, After, Fits;
    assert Preorder(t)[1..] == PreorderAll(t.children) && Preorder(t)[0] == t.id;
    VisitIsAfter(records, root, t.id, depth, w);
    PageIsNotPlain(records, root, t.id, w);
    AfterKeepsPartial(records, root, w, t.id);
    FittingWalkAll(records, root, t.children, records[t.id].content, depth + 1, After(records, root, w, t.id));
  }

  lemma AfterKeepsPartial(records: Records, root: string, w: Progress, id: string)
    ensures After(records, root, w, id).partial == w.partial
  {
  }

  lemma {:induction false} AfterAllKeepsPartial(records: Records, root: string, w: Progress, ids: seq<string>)
    ensures AfterAll(records, root, w, ids).partial == w.partial
    decreases |ids|
  {
    if ids != [] {
      AfterAllKeepsPartial(records, root, After(records, root, w, ids[0]), ids[1..]);
    }
  }

  lemma {:induction false} FittingWalkAll(records: Records, root: string, ts: seq<Tree>, children: seq<string>,
        depth: nat, w: Progress)
    requires depth <= MAX_DEPTH + 1 && !w.partial && UnfoldsAll(records, ts, children) && WithinAll(ts, MAX_DEPTH - depth)
    requires AllFit(records, root, w, PreorderAll(ts))
    ensures WalkChildren(records, root, children, depth, w) == AfterAll(records, root, w, PreorderAll(ts))
    decreases MAX_DEPTH + 1 - depth, 1 + |ts|
  {
    hide WalkBlock, Fits, After, Preorder, Unfolds, Within;
    if ts != [] {
      AllFitAppend(records, root, w, Preorder(ts[0]), PreorderAll(ts[1..]));
      FittingWalk(records, root, ts[0], depth, w);
      AfterAllKeepsPartial(records, root, w, Preorder(ts[0]));
      FittingWalkAll(records, root, ts[1..], children[1..], depth, WalkBlock(records, root, children[0], depth, w));
    }
  }

  // ---- Main results ---------------------------------------------------------------------------

  /** A rendering within the limits: each block once, at most 200, none below another that filled the text. */
  predicate WithinLimits(records: Records, root: string, ids: seq<string>) {
    && Distinct(ids) && |ids| <= 200
    && (forall id :: id in ids ==> Renderable(records, root, id))
    && CharsOf(FullLines(records, root, ids)) <= 12000
    && (ids != [] ==> CharsOf(FullLines(records, root, ids[..|ids| - 1])) < 12000)
  }

  lemma WithLineChars(lines: seq<string>, text: string)
    ensures CharsOf(WithLine(lines, text)) == CharsOf(lines) + |text|
  {
    if text != "" {
      assert (lines + [text])[..|lines|] == lines;
    }
  }

  function Collected(records: Records, root: string, ids: seq<string>): Progress {
    Progress((set id | id in ids), FullLines(records, root, ids), CharsOf(FullLines(records, root, ids)), false)
  }

  lemma {:induction false} AfterAllCollects(records: Records, root: string, ids: seq<string>)
    ensures AfterAll(records, root, Start(), ids) == Collected(records, root, ids)
    decreases |ids|
  {
    hide FullLine, CharsOf;
    if ids != [] {
      var init, last := ids[..|ids| - 1], ids[|ids| - 1];
      assert ids == init + [last];
      AfterAllCollects(records, root, init);
      AllFitAppend(records, root, Start(), init, [last]);
      WithLineChars(FullLines(records, root, init), FullLine(records, root, last));
      assert [last][1..] == [];
      assert (set id | id in ids) == (set id | id in init) + {last};
    } else {
      NoChars();
    }
  }

  lemma NoChars()
    ensures CharsOf([]) == 0
  {
  }

  lemma {:induction false} DistinctCount(ids: seq<string>)
    requires Distinct(ids)
    ensures |set id | id in ids| == |ids|
    decreases |ids|
  {
    if ids != [] {
      var init, last := ids[..|ids| - 1], ids[|ids| - 1];
      DistinctCount(init);
      assert (set id | id in ids) == (set id | id in init) + {last};
      assert last !in init;
    }
  }

  lemma FitsAfter(records: Records, root: string, init: seq<string>, last: string)
    requires Distinct(init)
    ensures Fits(records, root, Collected(records, root, init), last) <==>
      && last !in init && |init| < MAX_BLOCKS && Renderable(records, root, last)
      && CharsOf(FullLines(records, root, init)) < MAX_CHARS
      && CharsOf(FullLines(records, root, init + [last])) <= MAX_CHARS
  {
    hide Renderable, FullLine, CharsOf;
    DistinctCount(init);
    assert (init + [last])[..|init|] == init;
    WithLineChars(FullLines(records, root, init), FullLine(records, root, last));
  }

  lemma GrowingChars(records: Records, root: string, ids: seq<string>)
    requires ids != []
    ensures CharsOf(FullLines(records, root, ids[..|ids| - 1])) <= CharsOf(FullLines(records, root, ids))
  {
    hide FullLine, CharsOf;
    WithLineChars(FullLines(records, root, ids[..|ids| - 1]), FullLine(records, root, ids[|ids| - 1]));
  }

  lemma AllFitSnoc(records: Records, root: string, init: seq<string>, last: string)
    ensures AllFit(records, root, Start(), init + [last]) <==>
      AllFit(records, root, Start(), init) && Fits(records, root, Collected(records, root, init), last)
  {
    hide Fits, Collected, AllFit;
    AllFitAppend(records, root, Start(), init, [last]);
    AfterAllCollects(records, root, init);
    OneFits(records, root, Collected(records, root, init), last);
  }

  lemma WithinLimitsSnoc(records: Records, root: string, init: seq<string>, last: string)
    ensures WithinLimits(records, root, init + [last]) <==>
      WithinLimits(records, root, init) && Fits(records, root, Collected(records, root, init), last)
  {
    hide Fits, Renderable, FullLines, CharsOf, Distinct, Collected;
    assert (init + [last])[..|init|] == init;
    DistinctSnoc(init, last);
    if init != [] {
      GrowingChars(records, root, init);
    } else {
      NothingCollected(records, root);
    }
    if Distinct(init) {
      FitsAfter(records, root, init, last);
    }
  }

  /** Fitting one after the other from the start is being within the limits. */
  lemma {:induction false} AllFitIsWithinLimits(records: Records, root: string, ids: seq<string>)
    ensures AllFit(records, root, Start(), ids) <==> WithinLimits(records, root, ids)
    decreases |ids|
  {
    hide Fits, Collected;
    if ids == [] {
      NothingCollected(records, root);
    } else {
      hide AllFit, WithinLimits;
      var init, last := ids[..|ids| - 1], ids[|ids| - 1];
      assert ids == init + [last];
      AllFitIsWithinLimits(records, root, init);
      AllFitSnoc(records, root, init, last);
      WithinLimitsSnoc(records, root, init, last);
    }
  }

  lemma OneFits(records: Records, root: string, w: Progress, id: string)
    ensures AllFit(records, root, w, [id]) <==> Fits(records, root, w, id)
  {
    hide Fits, After;
    assert [id][1..] == [];
  }

  lemma NothingCollected(records: Records, root: string)
    ensures FullLines(records, root, []) == [] && CharsOf([]) == 0 && Distinct([])
  {
  }

  /** The note is not partial exactly when the blocks below it form a finite tree of plain blocks that
      stays within the depth, block and character limits. */
  lemma PartialExactly(records: Records, root: string)
    ensures !ReadNote(records, root).partial <==>
      exists t: Tree :: t.id == root && Unfolds(records, t) && Within(t, 12) && WithinLimits(records, root, Preorder(t))
  {
    hide WalkBlock, Unfolds, Within, WithinLimits, AllFit, Preorder;
    if !ReadNote(records, root).partial {
      var t := FullWalk(records, root, root, 0, Start());
      AllFitIsWithinLimits(records, root, Preorder(t));
    }
    forall t: Tree | t.id == root && Unfolds(records, t) && Within(t, MAX_DEPTH) && WithinLimits(records, root, Preorder(t))
      ensures !ReadNote(records, root).partial
    {
      AllFitIsWithinLimits(records, root, Preorder(t));
      FittingWalk(records, root, t, 0, Start());
      AfterAllKeepsPartial(records, root, Start(), Preorder(t));
    }
  }

  /** And then its text is the full preorder rendering of everything reachable from it, each block once. */
  lemma WholeNoteIsFullRendering(records: Records, root: string, t: Tree)
    requires !ReadNote(records, root).partial && t.id == root && Unfolds(records, t)
    ensures ReadNote(records, root).lines == FullLines(records, root, Preorder(t))
    ensures Distinct(Preorder(t))
    ensures forall id :: id in ReadNote(records, root).visited <==> id in Preorder(t)
  {
    hide WalkBlock, Unfolds, Within, WithinLimits, AllFit, Preorder, FullLines, CharsOf;
    var full := FullWalk(records, root, root, 0, Start());
    UnfoldingIsUnique(records, full, t);
    AllFitIsWithinLimits(records, root, Preorder(t));
    AfterAllCollects(records, root, Preorder(t));
    LimitsAreDistinct(records, root, Preorder(t));
  }

  lemma LimitsAreDistinct(records: Records, root: string, ids: seq<string>)
    requires WithinLimits(records, root, ids)
    ensures Distinct(ids)
  {
    hide FullLines, CharsOf, Distinct;
  }

  lemma {:induction false} UnfoldingIsUnique(records: Records, s: Tree, t: Tree)
    requires s.id == t.id && Unfolds(records, s) && Unfolds(records, t)
    ensures s == t
    decreases s, 0
  {
    UnfoldingsAreUnique(records, s.children, t.children, records[s.id].content);
  }

  lemma {:induction false} UnfoldingsAreUnique(records: Records, ss: seq<Tree>, ts: seq<Tree>, ids: seq<string>)
    requires UnfoldsAll(records, ss, ids) && UnfoldsAll(records, ts, ids)
    ensures ss == ts
    decreases ss, 1
  {
    if ss != [] {
      UnfoldingIsUnique(records, ss[0], ts[0]);
      UnfoldingsAreUnique(records, ss[1..], ts[1..], ids[1..]);
      assert ss == [ss[0]] + ss[1..] && ts == [ts[0]] + ts[1..];
    }
  }

  // ---- Reachability ---------------------------------------------------------------------------

  /** A chain of blocks, each in the content of the one before. */
  predicate IsPath(records: Records, path: seq<string>) {
    forall i :: 0 <= i < |path| - 1 ==> path[i] in records && path[i + 1] in records[path[i]].content
  }

  ghost predicate Reachable(records: Records, root: string, id: string) {
    exists path :: |path| > 0 && path[0] == root && path[|path| - 1] == id && IsPath(records, path)
  }

  predicate Closed(records: Records, ids: seq<string>, id: string) {
    id in records && forall c :: c in records[id].content ==> c in ids
  }

  lemma {:induction false} PreorderIsClosed(records: Records, t: Tree, id: string)
    requires Unfolds(records, t) && id in Preorder(t)
    ensures Closed(records, Preorder(t), id)
    decreases t, 0
  {
    PreorderAllIsClosed(records, t.children, records[t.id].content, if id in PreorderAll(t.children) then id else "");
  }

  lemma {:induction false} PreorderAllIsClosed(records: Records, ts: seq<Tree>, ids: seq<string>, id: string)
    requires UnfoldsAll(records, ts, ids)
    ensures forall c :: c in ids ==> c in PreorderAll(ts)
    ensures id in PreorderAll(ts) ==> Closed(records, PreorderAll(ts), id)
    decreases ts, 1
  {
    if ts != [] {
      assert ids == [ids[0]] + ids[1..];
      assert ids[0] == Preorder(ts[0])[0];
      PreorderAllIsClosed(records, ts[1..], ids[1..], id);
      if id in Preorder(ts[0]) {
        PreorderIsClosed(records, ts[0], id);
      }
    }
  }

  lemma PathExtends(records: Records, root: string, via: string, id: string)
    requires Reachable(records, root, via) && via in records && id in records[via].content
    ensures Reachable(records, root, id)
  {
    var path :| |path| > 0 && path[0] == root && path[|path| - 1] == via && IsPath(records, path);
    var longer := path + [id];
    assert longer[0] == root && longer[|longer| - 1] == id;
    assert IsPath(records, longer);
  }

  lemma {:induction false} PreorderIsReachable(records: Records, root: string, t: Tree, id: string)
    requires Unfolds(records, t) && Reachable(records, root, t.id) && id in Preorder(t)
    ensures Reachable(records, root, id)
    decreases t, 0
  {
    hide Reachable;
    if id != t.id {
      PreorderAllIsReachable(records, root, t.id, t.children, records[t.id].content, id);
    }
  }

  lemma {:induction false} PreorderAllIsReachable(records: Records, root: string, via: string, ts: seq<Tree>,
        ids: seq<string>, id: string)
    requires UnfoldsAll(records, ts, ids) && Reachable(records, root, via) && via in records
    requires (forall c :: c in ids ==> c in records[via].content) && id in PreorderAll(ts)
    ensures Reachable(records, root, id)
    decreases ts, 1
  {
    hide Reachable;
    if id in Preorder(ts[0]) {
      assert ids[0] in ids;
      PathExtends(records, root, via, ids[0]);
      PreorderIsReachable(records, root, ts[0], id);
    } else {
      PreorderAllIsReachable(records, root, via, ts[1..], ids[1..], id);
    }
  }

  lemma {:induction false} PathStaysInside(records: Records, t: Tree, path: seq<string>)
    requires Unfolds(records, t) && |path| > 0 && path[0] == t.id && IsPath(records, path)
    ensures path[|path| - 1] in Preorder(t)
    decreases |path|
  {
    hide Unfolds;
    var n := |path| - 1;
    if n > 0 {
      assert IsPath(records, path[..n]);
      PathStaysInside(records, t, path[..n]);
      PreorderIsClosed(records, t, path[n - 1]);
      assert path[n - 1 + 1] in records[path[n - 1]].content;
    }
  }

  /** The blocks of an unfolding are exactly those that can be reached from its root. */
  lemma UnfoldingIsReachability(records: Records, t: Tree, id: string)
    requires Unfolds(records, t)
    ensures id in Preorder(t) <==> Reachable(records, t.id, id)
  {
    hide Unfolds, Preorder;
    assert [t.id][0] == t.id && IsPath(records, [t.id]);
    if id in Preorder(t) {
      PreorderIsReachable(records, t.id, t, id);
    }
    if Reachable(records, t.id, id) {
      var path :| |path| > 0 && path[0] == t.id && path[|path| - 1] == id && IsPath(records, path);
      PathStaysInside(records, t, path);
    }
  }
}
