/** What the client may see of an upstream answer: byte-order mark, <lang> tags and a trailing
    unfinished citation removed (internal/app/notion_client.go:149-218). */
module Sanitizer {
  import opened Text

  const LANG_OPEN := "<lang"
  const LANG_CLOSE := "</lang>"

  // ---- <lang> tags ----------------------------------------------------------------------------

  /** strings.ReplaceAll(s, pat, "") */
  function RemoveAll(s: string, pat: string): string
    requires pat != []
  {
    if s == [] then []
    else if pat <= s then RemoveAll(s[|pat|..], pat)
    else [s[0]] + RemoveAll(s[1..], pat)
  }

  /** One turn of the tag-removing loop: the text without its first "<lang" tag, and whether to go on. */
  function DropFirstLangTag(text: string): (r: (string, bool))
    ensures r.1 ==> |r.0| < |text|
  {
    var start := IndexOf(text, LANG_OPEN);
    if start < 0 then (text, false)
    else
      var rest := text[start..];
      var selfClosingEnd := IndexOf(rest, "/>");
      var openTagEnd := IndexOf(rest, ">");
      if selfClosingEnd >= 0 && (openTagEnd < 0 || selfClosingEnd <= openTagEnd) then
        (text[..start] + rest[selfClosingEnd + 2..], true)
      else if openTagEnd >= 0 then
        (text[..start] + rest[openTagEnd + 1..], true)
      else
        (text[..start], false)
  }

  function CleanAllLangTags(text: string): string
    decreases |text|
  {
    var (next, more) := DropFirstLangTag(text);
    if more then CleanAllLangTags(next) else RemoveAll(next, LANG_CLOSE)
  }

  method CleanLangTags(text: string) returns (clean: string)
    ensures clean == CleanAllLangTags(text)
  {
    clean := text;
    var more := true;
    while more
      invariant more ==> CleanAllLangTags(clean) == CleanAllLangTags(text)
      invariant !more ==> RemoveAll(clean, LANG_CLOSE) == CleanAllLangTags(text)
      decreases more, |clean|
    {
      var (next, again) := DropFirstLangTag(clean);
      clean, more := next, again;
    }
    clean := RemoveAll(clean, LANG_CLOSE);
  }

  predicate IsRegexpSpace(c: char) {
    c == '\t' || c == '\n' || c == '\U{000C}' || c == '\r' || c == ' '
  }

  predicate IsWordRune(c: char) {
    '0' <= c <= '9' || 'A' <= c <= 'Z' || 'a' <= c <= 'z' || c == '_'
  }

  function RegexpSpaces(s: string): (n: nat)
    ensures n <= |s|
  {
    if s != [] && IsRegexpSpace(s[0]) then 1 + RegexpSpaces(s[1..]) else 0
  }

  /** How many runes the tag alternative of the leading-tag pattern matches at the start of s; 0 for no match. */
  function LeadingTagLength(s: string): (n: nat)
    ensures n <= |s|
    ensures n > 0 ==> s[0] == '<'
  {
    if |s| >= 7 && LowerAscii(s[..7]) == LANG_CLOSE then 7
    else if |s| >= 6 && LowerAscii(s[..5]) == LANG_OPEN && !IsWordRune(s[5]) then
      var close := IndexOf(s, ">");
      if close < 0 then 0 else close + 1
    else 0
  }

  /** leadingLangTagPattern.ReplaceAllString(s, ""): the pattern is anchored, so it matches at most once. */
  function DropLeadingLangTag(s: string): (r: string)
    ensures r == s || |r| < |s|
  {
    var t := s[RegexpSpaces(s)..];
    var n := LeadingTagLength(t);
    if n == 0 then s
    else
      var u := t[n..];
      u[RegexpSpaces(u)..]
  }

  function StripLeadingLangTags(clean: string): string
    decreases |clean|
  {
    var next := Trim(DropLeadingLangTag(clean));
    if clean == [] || next == clean then clean else StripLeadingLangTags(next)
  }

  // ---- Unfinished citations -------------------------------------------------------------------

  /** Where the scan for "[^...]" stands: outside, right after a '[', or inside an open citation. */
  datatype Scan = Outside | AfterBracket(start: nat) | InCitation(start: nat)

  function ScanStep(st: Scan, i: nat, ch: char): Scan {
    match st
    case Outside => if ch == '[' then AfterBracket(i) else Outside
    case AfterBracket(k) =>
      if ch == '^' then InCitation(k) else if ch == '[' then AfterBracket(i) else Outside
    case InCitation(k) => if ch == ']' then Outside else st
  }

  function ScanText(text: string): (st: Scan)
    ensures !st.Outside? ==> st.start < |text|
  {
    if text == [] then Outside
    else ScanStep(ScanText(text[..|text| - 1]), |text| - 1, text[|text| - 1])
  }

  /** How much of a text is safe to show: all of it, or the part before the open citation. */
  function Kept(text: string): (n: nat)
    ensures n <= |text|
  {
    var st := ScanText(text);
    if st.Outside? then |text| else st.start
  }

  function TrimTrailingIncompleteCitation(text: string): string {
    text[..Kept(text)]
  }

  method TrimCitation(text: string) returns (r: string)
    ensures r == TrimTrailingIncompleteCitation(text)
  {
    var state, start := 0, -1;
    for i := 0 to |text|
      invariant 0 <= state <= 2
      invariant state == 0 ==> ScanText(text[..i]) == Outside
      invariant state == 1 ==> start >= 0 && ScanText(text[..i]) == AfterBracket(start)
      invariant state == 2 ==> start >= 0 && ScanText(text[..i]) == InCitation(start)
    {
      assert text[..i + 1][..i] == text[..i];
      var ch := text[i];
      if state == 0 {
        if ch == '[' {
          state, start := 1, i;
        }
      } else if state == 1 {
        if ch == '^' {
          state := 2;
        } else if ch == '[' {
          start := i;
        } else {
          state, start := 0, -1;
        }
      } else {
        if ch == ']' {
          state, start := 0, -1;
        }
      }
    }
    assert text[..|text|] == text;
    if state != 0 && start >= 0 {
      return text[..start];
    }
    return text;
  }

  // ---- The sanitizer --------------------------------------------------------------------------

  function StripByteOrderMark(text: string): string {
    if text != [] && text[0] == '\U{FEFF}' then text[1..] else text
  }

  function BeforeTags(text: string): string {
    Trim(StripByteOrderMark(text))
  }

  function DropLeadingTags(c: string): string {
    if LANG_OPEN <= LowerAscii(c) && '>' !in c then [] else StripLeadingLangTags(c)
  }

  function SanitizeCleaned(clean: string): string {
    DropLeadingTags(Trim(TrimTrailingIncompleteCitation(clean)))
  }

  /** sanitizeAssistantVisibleText */
  function Sanitize(text: string): string {
    SanitizeCleaned(CleanAllLangTags(BeforeTags(text)))
  }

  method SanitizeText(text: string) returns (clean: string)
    ensures clean == Sanitize(text)
  {
    hide BeforeTags, Trim, TrimTrailingIncompleteCitation, CleanAllLangTags, DropLeadingTags;
    clean := BeforeTags(text);
    clean := CleanLangTags(clean);
    clean := TrimCitation(clean);
    clean := Trim(clean);
    clean := StripTags(clean);
  }

  /** The last loop: leading tags, or all of an unfinished one, are dropped. */
  method StripTags(text: string) returns (clean: string)
    ensures clean == DropLeadingTags(text)
  {
    hide Trim, DropLeadingLangTag;
    clean := text;
    if LANG_OPEN <= LowerAscii(clean) && '>' !in clean {
      return "";
    }
    while clean != ""
      invariant StripLeadingLangTags(clean) == StripLeadingLangTags(text)
      decreases |clean|
    {
      var next := Trim(DropLeadingLangTag(clean));
      if next == clean {
        break;
      }
      clean := next;
    }
  }

  // ---- Growth of tag-free text ----------------------------------------------------------------

  predicate TagFree(s: string) {
    '<' !in s
  }

  lemma {:induction false} RemoveAllTagFree(s: string)
    requires TagFree(s)
    ensures RemoveAll(s, LANG_CLOSE) == s
  {
    if s != [] {
      assert s[0] in s && LANG_CLOSE[0] == '<';
      assert forall c :: c in s[1..] ==> c in s;
      RemoveAllTagFree(s[1..]);
    }
  }

  lemma NoLeadingTag(s: string)
    requires TagFree(s)
    ensures DropLeadingLangTag(s) == s
  {
    var t := s[RegexpSpaces(s)..];
    assert t != [] ==> t[0] in s;
  }


  lemma NoLangOpen(s: string)
    requires TagFree(s)
    ensures !(LANG_OPEN <= LowerAscii(s))
    ensures CleanAllLangTags(s) == s
  {
    assert s != [] ==> s[0] in s && LANG_OPEN[0] == '<';
    RemoveAllTagFree(s);
  }

  lemma NothingLeading(s: string)
    requires TagFree(s)
    requires s == [] || (!IsSpace(s[0]) && !IsSpace(s[|s| - 1]))
    ensures DropLeadingTags(s) == s
  {
    NoLangOpen(s);
    NoLeadingTag(s);
    TrimOfTrimmed(s);
  }

  lemma CutIsTagFree(b: string)
    requires TagFree(b)
    ensures TagFree(Trim(TrimTrailingIncompleteCitation(b)))
  {
    assert TagFree(b[..Kept(b)]);
  }

  lemma SanitizeCleanedTagFree(b: string)
    requires TagFree(b)
    ensures SanitizeCleaned(b) == Trim(TrimTrailingIncompleteCitation(b))
  {
    CutIsTagFree(b);
    NothingLeading(Trim(TrimTrailingIncompleteCitation(b)));
  }

  /** On tag-free text the sanitizer only trims: byte-order mark, outer space, unfinished citation. */
  lemma SanitizeTagFree(text: string)
    requires TagFree(text)
    ensures Sanitize(text) == Trim(TrimTrailingIncompleteCitation(BeforeTags(text)))
  {
    var b := BeforeTags(text);
    assert TagFree(b);
    NoLangOpen(b);
    SanitizeCleanedTagFree(b);
  }

  lemma KeptStep(a: string, c: char)
    ensures Kept(a) <= Kept(a + [c])
  {
    assert (a + [c])[..|a|] == a;
  }

  lemma {:induction false} KeptGrows(a: string, b: string)
    requires a <= b
    ensures Kept(a) <= Kept(b)
    decreases |b|
  {
    if a == b {
    } else {
      var b' := b[..|b| - 1];
      assert b == b' + [b[|b| - 1]];
      KeptGrows(a, b');
      KeptStep(b', b[|b| - 1]);
    }
  }

  /** The open citation, if any, only ever hides a tail that later text either reveals or keeps hiding. */
  lemma TrimCitationMonotone(a: string, b: string)
    requires a <= b
    ensures TrimTrailingIncompleteCitation(a) <= TrimTrailingIncompleteCitation(b)
  {
    KeptGrows(a, b);
  }

  lemma BeforeTagsMonotone(a: string, b: string)
    requires a <= b
    ensures BeforeTags(a) <= BeforeTags(b)
  {
    assert StripByteOrderMark(a) <= StripByteOrderMark(b);
    TrimMonotone(StripByteOrderMark(a), StripByteOrderMark(b));
  }

  /** Growing a tag-free text never retracts anything the sanitizer already let through. */
  lemma SanitizeMonotone(a: string, b: string)
    requires a <= b && TagFree(b)
    ensures Sanitize(a) <= Sanitize(b)
  {
    assert forall i :: 0 <= i < |a| ==> a[i] == b[i];
    SanitizeTagFree(a);
    SanitizeTagFree(b);
    BeforeTagsMonotone(a, b);
    TrimCitationMonotone(BeforeTags(a), BeforeTags(b));
    TrimMonotone(TrimTrailingIncompleteCitation(BeforeTags(a)), TrimTrailingIncompleteCitation(BeforeTags(b)));
  }

  // ---- Where growth fails ---------------------------------------------------------------------

  lemma {:induction false} NoBracketScan(s: string)
    requires '[' !in s
    ensures ScanText(s) == Outside
  {
    if s != [] {
      var t := s[..|s| - 1];
      assert forall c :: c in t ==> c in s;
      assert s[|s| - 1] in s;
      NoBracketScan(t);
    }
  }

  lemma OpenTagAlone()
    ensures CleanAllLangTags("a<") == "a<"
  {
    assert IndexOf("a<"[1..][1..], LANG_OPEN) == -1;
    assert IndexOf("a<"[1..], LANG_OPEN) == -1;
    assert DropFirstLangTag("a<").0 == "a<";
  }

  lemma NothingToDrop(t: string)
    requires |t| < 5 && Trim(t) == t && (t == [] || !IsRegexpSpace(t[0]))
    ensures DropLeadingTags(t) == t
  {
    hide Trim;
    assert DropLeadingLangTag(t) == t;
  }

  lemma OpenTagCut()
    ensures CleanAllLangTags("a<lang") == "a"
  {
    var t := "a<lang";
    var u := t[1..];
    assert u == LANG_OPEN;
    assert IndexOf(u, LANG_OPEN) == 0;
    assert IndexOf(t, LANG_OPEN) == 1;
    assert t[1..] == u;
    assert IndexOf(u, "/>") < 0;
    assert IndexOf(u, ">") < 0;
    assert DropFirstLangTag(t) == (t[..1], false);
    assert t[..1] == "a";
    RemoveAllTagFree("a");
  }

  /** With a '<' growth can retract text: what looked like text turns out to be the start of a tag. */
  lemma TagRetractsText()
    ensures Sanitize("a<") == "a<"
    ensures Sanitize("a<lang") == "a"
    ensures Sanitize("lang") == "lang"
  {
    hide CleanAllLangTags, DropLeadingTags, Trim, TrimTrailingIncompleteCitation;
    TrimOfTrimmed("a<");
    TrimOfTrimmed("a<lang");
    TrimOfTrimmed("a");
    TrimOfTrimmed("lang");
    OpenTagAlone();
    OpenTagCut();
    NothingToDrop("a<");
    SanitizeTagFree("lang");
    NothingCut("lang");
    NothingCut("a<");
    NothingCut("a");
    NothingLeading("a");
  }

  lemma NothingCut(s: string)
    requires '[' !in s
    ensures TrimTrailingIncompleteCitation(s) == s
  {
    NoBracketScan(s);
  }
}
