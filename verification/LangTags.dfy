/** What the tag and mark removal of the sanitizer cuts out of a text, said of the text around it
    (internal/app/notion_client.go:40, 149-187). */
module LangTags {
  import opened Text
  import opened Sanitizer

  /** An opening language tag: everything from "<lang" to the first '>'. */
  predicate IsOpeningTag(tag: string) {
    |tag| > 5 && tag[..5] == "<lang" && tag[|tag| - 1] == '>' && '>' !in tag[..|tag| - 1]
  }

  lemma OpeningTagEnds(tag: string, b: string)
    requires IsOpeningTag(tag)
    ensures IndexOf(tag + b, ">") == |tag| - 1
    ensures var slash := IndexOf(tag + b, "/>"); slash < 0 || slash == |tag| - 2 || slash > |tag| - 1
  {
    IndexIsFirst(tag + b, ">");
    assert Occurs(tag + b, ">", |tag| - 1);
    forall i | Occurs(tag + b, ">", i) ensures i >= |tag| - 1 {
      assert (tag + b)[i] == '>';
    }
    var slash := IndexOf(tag + b, "/>");
    if slash >= 0 {
      assert (tag + b)[slash..slash + 2] == "/>";
      assert (tag + b)[slash + 1] == '>' && (tag + b)[slash] == '/';
      assert slash + 1 >= |tag| - 1 by {
        assert Occurs(tag + b, ">", slash + 1);
      }
    }
  }

  /** The first opening tag is cut out, up to its first '>', and the loop goes on. */
  lemma FirstTagIsCut(a: string, tag: string, b: string)
    requires IsOpeningTag(tag) && forall i :: Occurs(a + tag + b, "<lang", i) ==> i >= |a|
    ensures DropFirstLangTag(a + tag + b) == (a + b, true)
    ensures CleanAllLangTags(a + tag + b) == CleanAllLangTags(a + b)
  {
    var text := a + tag + b;
    assert text[|a|..] == tag + b;
    assert Occurs(text, "<lang", |a|);
    IndexIsFirst(text, LANG_OPEN);
    OpeningTagEnds(tag, b);
    assert text[..|a|] == a && (tag + b)[|tag|..] == b;
  }

  /** A tag that never ends takes the rest of the text with it. */
  lemma UnfinishedTagIsCut(a: string, tag: string)
    requires |tag| >= 5 && tag[..5] == "<lang" && '>' !in tag && forall i :: Occurs(a + tag, "<lang", i) ==> i >= |a|
    ensures DropFirstLangTag(a + tag) == (a, false)
    ensures CleanAllLangTags(a + tag) == RemoveAll(a, "</lang>")
  {
    var text := a + tag;
    assert text[|a|..] == tag && text[..|a|] == a;
    assert Occurs(text, "<lang", |a|);
    IndexIsFirst(text, LANG_OPEN);
    NoEndNoSlash(tag);
  }

  lemma NoEndNoSlash(tag: string)
    requires '>' !in tag
    ensures IndexOf(tag, ">") < 0 && IndexOf(tag, "/>") < 0
  {
  }

  /** Without an opening tag only closing tags are cut. */
  lemma OnlyClosingTags(text: string)
    requires forall i :: !Occurs(text, "<lang", i)
    ensures DropFirstLangTag(text) == (text, false)
    ensures CleanAllLangTags(text) == RemoveAll(text, "</lang>")
  {
    IndexIsFirst(text, LANG_OPEN);
  }

  /** Removing a pattern cuts out its first occurrence and goes on behind it. */
  lemma {:induction false} FirstIsRemoved(a: string, pat: string, b: string)
    requires pat != [] && forall i :: Occurs(a + pat + b, pat, i) ==> i >= |a|
    ensures RemoveAll(a + pat + b, pat) == a + RemoveAll(b, pat)
    decreases |a|
  {
    var s := a + pat + b;
    if a == [] {
      assert s[|pat|..] == b && pat <= s;
    } else {
      assert !(pat <= s) by {
        if pat <= s {
          assert Occurs(s, pat, 0);
        }
      }
      assert s[1..] == a[1..] + pat + b;
      forall i | Occurs(s[1..], pat, i) ensures i >= |a| - 1 {
        assert s[1..][i..i + |pat|] == s[i + 1..i + 1 + |pat|];
        assert Occurs(s, pat, i + 1);
      }
      FirstIsRemoved(a[1..], pat, b);
      assert a == [a[0]] + a[1..];
    }
  }

  lemma {:induction false} NothingIsRemoved(s: string, pat: string)
    requires pat != [] && forall i :: !Occurs(s, pat, i)
    ensures RemoveAll(s, pat) == s
    decreases |s|
  {
    if s != [] {
      assert !(pat <= s) by {
        if pat <= s {
          assert Occurs(s, pat, 0);
        }
      }
      forall i ensures !Occurs(s[1..], pat, i) {
        if Occurs(s[1..], pat, i) {
          assert s[1..][i..i + |pat|] == s[i + 1..i + 1 + |pat|];
          assert Occurs(s, pat, i + 1);
        }
      }
      NothingIsRemoved(s[1..], pat);
    }
  }

  // ---- Leading tags ---------------------------------------------------------------------------

  predicate AllBlank(s: string) {
    forall c :: c in s ==> c == '\t' || c == '\n' || c == '\U{000C}' || c == '\r' || c == ' '
  }

  /** A closing tag, or an opening one whose name ends after "<lang", in upper or lower case. */
  predicate IsLeadingTag(tag: string) {
    || LowerAscii(tag) == "</lang>"
    || (&& |tag| > 5 && LowerAscii(tag[..5]) == "<lang"
        && !('0' <= tag[5] <= '9' || 'A' <= tag[5] <= 'Z' || 'a' <= tag[5] <= 'z' || tag[5] == '_')
        && tag[|tag| - 1] == '>' && '>' !in tag[..|tag| - 1])
  }

  lemma {:induction false} BlanksCounted(blank: string, rest: string)
    requires AllBlank(blank) && (rest != [] ==> !AllBlank([rest[0]]))
    ensures RegexpSpaces(blank + rest) == |blank|
    decreases |blank|
  {
    if blank == [] {
      assert blank + rest == rest;
      if rest != [] {
        assert rest[0] in [rest[0]];
      }
    } else {
      assert (blank + rest)[1..] == blank[1..] + rest && blank[0] in blank;
      assert forall c :: c in blank[1..] ==> c in blank;
      BlanksCounted(blank[1..], rest);
    }
  }

  lemma LeadingTagMeasured(tag: string, b: string)
    requires IsLeadingTag(tag)
    ensures LeadingTagLength(tag + b) == |tag| && tag[0] == '<'
  {
    var s := tag + b;
    assert |LowerAscii(tag)| == |tag|;
    if LowerAscii(tag) == "</lang>" {
      assert s[..7] == tag;
      assert ToLowerAscii(tag[0]) == LowerAscii(tag)[0] == '<';
    } else {
      assert s[..5] == tag[..5];
      assert ToLowerAscii(tag[0]) == LowerAscii(tag[..5])[0] == '<';
      assert ToLowerAscii(tag[1]) == LowerAscii(tag[..5])[1] == 'l';
      assert |s| >= 7 ==> LowerAscii(s[..7])[1] == ToLowerAscii(s[1]);
      assert LANG_CLOSE[1] == '/';
      IndexIsFirst(s, ">");
      assert Occurs(s, ">", |tag| - 1);
      forall i | Occurs(s, ">", i) ensures i >= |tag| - 1 {
        assert s[i] == '>';
      }
    }
  }

  /** A leading tag goes, with the blanks around it. */
  lemma LeadingTagIsCut(before: string, tag: string, after: string, rest: string)
    requires AllBlank(before) && IsLeadingTag(tag) && AllBlank(after) && (rest != [] ==> !AllBlank([rest[0]]))
    ensures DropLeadingLangTag(before + tag + after + rest) == rest
  {
    var s := before + tag + after + rest;
    assert s == before + (tag + (after + rest));
    LeadingTagMeasured(tag, after + rest);
    assert !AllBlank([tag[0]]) by {
      assert tag[0] in [tag[0]];
    }
    BlanksCounted(before, tag + (after + rest));
    assert s[|before|..] == tag + (after + rest);
    assert (tag + (after + rest))[|tag|..] == after + rest;
    BlanksCounted(after, rest);
    assert (after + rest)[|after|..] == rest;
  }

  lemma {:induction false} CountedAreBlank(s: string)
    ensures AllBlank(s[..RegexpSpaces(s)])
    decreases |s|
  {
    if s != [] && IsRegexpSpace(s[0]) {
      CountedAreBlank(s[1..]);
      assert s[..RegexpSpaces(s)] == [s[0]] + s[1..][..RegexpSpaces(s[1..])];
    }
  }

  lemma MeasuredIsLeadingTag(s: string)
    ensures LeadingTagLength(s) > 0 ==> IsLeadingTag(s[..LeadingTagLength(s)])
  {
    var n := LeadingTagLength(s);
    if n > 0 && !(|s| >= 7 && LowerAscii(s[..7]) == LANG_CLOSE) {
      var tag := s[..n];
      IndexIsFirst(s, ">");
      assert s[n - 1..n] == ">";
      assert forall k :: 0 <= k < 5 ==> ToLowerAscii(s[k]) == LowerAscii(s[..5])[k] == LANG_OPEN[k];
      assert n > 5;
      assert tag[..5] == s[..5];
      forall i | 0 <= i < n - 1 ensures tag[i] != '>' {
        assert s[i..i + 1] == [s[i]];
        assert s[i] == '>' ==> Occurs(s, ">", i);
      }
    }
  }

  /** And nothing else goes: what was cut, if anything, was such a tag with blanks around it. */
  lemma OnlyLeadingTagsAreCut(s: string) returns (before: string, tag: string, after: string)
    ensures DropLeadingLangTag(s) != s ==>
      s == before + tag + after + DropLeadingLangTag(s) && AllBlank(before) && IsLeadingTag(tag) && AllBlank(after)
  {
    hide AllBlank, IsLeadingTag, LeadingTagLength, RegexpSpaces;
    var t := s[RegexpSpaces(s)..];
    var n := LeadingTagLength(t);
    var u := t[n..];
    before, tag, after := s[..RegexpSpaces(s)], t[..n], u[..RegexpSpaces(u)];
    CountedAreBlank(s);
    MeasuredIsLeadingTag(t);
    CountedAreBlank(u);
    assert s == before + tag + after + u[RegexpSpaces(u)..];
  }

  /** One byte-order mark in front is dropped before anything is trimmed. */
  lemma MarkIsDropped(t: string)
    ensures Sanitize(['\U{FEFF}'] + t) == SanitizeCleaned(CleanAllLangTags(Trim(t)))
    ensures t == [] || t[0] != '\U{FEFF}' ==> Sanitize(t) == SanitizeCleaned(CleanAllLangTags(Trim(t)))
  {
    hide SanitizeCleaned, CleanAllLangTags, Trim;
    assert (['\U{FEFF}'] + t)[1..] == t;
  }
}
