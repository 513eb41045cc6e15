/** Rune-level text helpers shared by the stream decoder, the conversation store and the history
    matcher: white-space trimming, splitting into words, truncation. A string is a sequence of runes. */
module Text {

  /** The runes Go's unicode.IsSpace accepts; strings.TrimSpace and strings.Fields both use it. */
  predicate IsSpace(c: char) {
    || '\t' <= c <= '\r'
    || c == ' ' || c == '\U{0085}' || c == '\U{00A0}' || c == '\U{1680}'
    || '\U{2000}' <= c <= '\U{200A}'
    || c == '\U{2028}' || c == '\U{2029}' || c == '\U{202F}' || c == '\U{205F}' || c == '\U{3000}'
  }

  function TrimLeft(s: string): (r: string)
    ensures |r| <= |s|
    ensures r == [] || !IsSpace(r[0])
    ensures r == s[|s| - |r|..]
  {
    if s != [] && IsSpace(s[0]) then TrimLeft(s[1..]) else s
  }

  function TrimRight(s: string): (r: string)
    ensures r <= s
    ensures r == [] || !IsSpace(r[|r| - 1])
    ensures forall i :: |r| <= i < |s| ==> IsSpace(s[i])
  {
    if s != [] && IsSpace(s[|s| - 1]) then TrimRight(s[..|s| - 1]) else s
  }

  /** strings.TrimSpace */
  function Trim(s: string): (r: string)
    ensures r == s || |r| < |s|
    ensures forall c :: c in r ==> c in s
    ensures r == [] || (!IsSpace(r[0]) && !IsSpace(r[|r| - 1]))
  {
    TrimRight(TrimLeft(s))
  }

  lemma {:induction false} TrimLeftMonotone(a: string, b: string)
    requires a <= b
    ensures TrimLeft(a) <= TrimLeft(b)
  {
    if a != [] && IsSpace(a[0]) {
      TrimLeftMonotone(a[1..], b[1..]);
    }
  }

  lemma TrimRightMonotone(a: string, b: string)
    requires a <= b
    ensures TrimRight(a) <= TrimRight(b)
  {
    var p, q := TrimRight(a), TrimRight(b);
    assert p == [] || !IsSpace(b[|p| - 1]);
  }

  /** Trimming a longer text never takes back what trimming a prefix of it kept. */
  lemma TrimMonotone(a: string, b: string)
    requires a <= b
    ensures Trim(a) <= Trim(b)
  {
    TrimLeftMonotone(a, b);
    TrimRightMonotone(TrimLeft(a), TrimLeft(b));
  }

  lemma TrimOfTrimmed(s: string)
    requires s == [] || (!IsSpace(s[0]) && !IsSpace(s[|s| - 1]))
    ensures Trim(s) == s
  {
  }

  /** Length of the run of non-space runes that starts s. */
  function WordLength(s: string): (n: nat)
    ensures n <= |s|
    ensures forall i :: 0 <= i < n ==> !IsSpace(s[i])
    ensures n < |s| ==> IsSpace(s[n])
  {
    if s == [] || IsSpace(s[0]) then 0 else 1 + WordLength(s[1..])
  }

  /** The first word of a text that starts with one, and what follows it. */
  function FirstWord(t: string): string {
    t[..WordLength(t)]
  }

  function AfterFirstWord(t: string): string {
    t[WordLength(t)..]
  }

  function Spaced(word: string, rest: string): string {
    if rest == [] then word else word + [' '] + rest
  }

  lemma SpacedMonotone(word: string, word': string, rest: string, rest': string)
    requires (word == word' && rest <= rest') || (word <= word' && rest == [])
    ensures Spaced(word, rest) <= Spaced(word', rest')
  {
    assert rest != [] ==> word + [' '] + rest <= word + [' '] + rest';
  }

  /** strings.Join(strings.Fields(s), " "): the words of s separated by single spaces. */
  function Words(s: string): (r: string)
    decreases |s|
  {
    var t := TrimLeft(s);
    if t == [] then []
    else
      Spaced(FirstWord(t), Words(AfterFirstWord(t)))
  }

  lemma FirstWordStable(a: string, b: string)
    requires a <= b
    ensures AfterFirstWord(a) != [] ==> FirstWord(a) == FirstWord(b) && AfterFirstWord(a) <= AfterFirstWord(b)
    ensures AfterFirstWord(a) == [] ==> FirstWord(a) <= FirstWord(b)
  {
    var n, m := WordLength(a), WordLength(b);
    assert forall i :: 0 <= i < n ==> !IsSpace(b[i]);
    assert n < |a| ==> IsSpace(b[n]);
    assert n < |a| ==> n == m;
    assert n == |a| ==> n <= m;
  }

  lemma {:induction false} WordsMonotone(a: string, b: string)
    requires a <= b
    ensures Words(a) <= Words(b)
    decreases |a|
  {
    TrimLeftMonotone(a, b);
    var ta, tb := TrimLeft(a), TrimLeft(b);
    if ta != [] {
      FirstWordStable(ta, tb);
      var ra, rb := AfterFirstWord(ta), AfterFirstWord(tb);
      if ra != [] {
        WordsMonotone(ra, rb);
      }
      SpacedMonotone(FirstWord(ta), FirstWord(tb), Words(ra), Words(rb));
    }
  }

  function CollapseWhitespace(text: string): string {
    Words(Trim(text))
  }

  /** Appending text never changes the collapsed form already computed for what came before. */
  lemma CollapsePrefixStable(a: string, b: string)
    requires a <= b
    ensures CollapseWhitespace(a) <= CollapseWhitespace(b)
  {
    TrimMonotone(a, b);
    WordsMonotone(Trim(a), Trim(b));
  }

  function TruncateRunes(text: string, limit: int): string {
    if limit <= 0 then []
    else
      var runes := Trim(text);
      if |runes| <= limit then runes
      else if limit <= 1 then runes[..limit]
      else runes[..limit - 1] + ['\U{2026}']
  }

  function ToLowerAscii(c: char): char {
    if 'A' <= c <= 'Z' then ((c as int) + 32) as char else c
  }

  function LowerAscii(s: string): (r: string)
    ensures |r| == |s|
    ensures forall i :: 0 <= i < |s| ==> r[i] == ToLowerAscii(s[i])
  {
    seq(|s|, i requires 0 <= i < |s| => ToLowerAscii(s[i]))
  }

  /** strings.TrimRight(s, "\r") */
  function TrimRightCarriage(s: string): (r: string)
    ensures r <= s
    ensures r == [] || r[|r| - 1] != '\r'
    ensures forall i :: |r| <= i < |s| ==> s[i] == '\r'
  {
    if s != [] && s[|s| - 1] == '\r' then TrimRightCarriage(s[..|s| - 1]) else s
  }

  /** strings.Index(s, pat), or -1. */
  function IndexOf(s: string, pat: string): (i: int)
    ensures i >= 0 && pat != [] ==> i < |s| && s[i] == pat[0]
    ensures i == -1 || (0 <= i && i + |pat| <= |s| && s[i..i + |pat|] == pat)
  {
    if pat <= s then 0
    else if s == [] then -1
    else
      var rest := IndexOf(s[1..], pat);
      if rest < 0 then -1 else rest + 1
  }

  function FirstNonEmpty(a: string, b: string): string {
    if Trim(a) != [] then Trim(a) else Trim(b)
  }

  // ---- What the helpers compute ---------------------------------------------------------------

  lemma SpaceRunes(c: char)
    ensures IsSpace(c) <==> c as int in {
      9, 10, 11, 12, 13, 32, 0x85, 0xA0, 0x1680, 0x2000, 0x2001, 0x2002, 0x2003, 0x2004, 0x2005, 0x2006, 0x2007,
      0x2008, 0x2009, 0x200A, 0x2028, 0x2029, 0x202F, 0x205F, 0x3000}
  {
  }

  predicate AllSpace(s: string) {
    forall i :: 0 <= i < |s| ==> IsSpace(s[i])
  }

  lemma MoreSpace(c: char, rest: string)
    requires IsSpace(c) && AllSpace(rest)
    ensures AllSpace([c] + rest)
  {
    hide IsSpace;
  }

  lemma {:induction false} TrimLeftCutsSpace(s: string)
    ensures AllSpace(s[..|s| - |TrimLeft(s)|])
    decreases |s|
  {
    hide IsSpace;
    if s != [] && IsSpace(s[0]) {
      var n := |s| - |TrimLeft(s)|;
      TrimLeftCutsSpace(s[1..]);
      assert s[..n] == [s[0]] + s[1..][..n - 1];
      MoreSpace(s[0], s[1..][..n - 1]);
    }
  }

  lemma TrimRightCutsSpace(t: string)
    ensures t == TrimRight(t) + t[|TrimRight(t)|..] && AllSpace(t[|TrimRight(t)|..])
  {
    hide IsSpace;
  }

  /** Trimming takes away outer white space and nothing else. */
  lemma TrimCutsSpace(s: string) returns (a: string, b: string)
    ensures s == a + Trim(s) + b && AllSpace(a) && AllSpace(b)
  {
    var t := TrimLeft(s);
    TrimLeftCutsSpace(s);
    TrimRightCutsSpace(t);
    hide IsSpace, AllSpace, TrimLeft, TrimRight;
    a, b := s[..|s| - |t|], t[|TrimRight(t)|..];
    assert s == a + t;
  }

  lemma {:induction false} LeadingSpaceGoes(a: string, s: string)
    requires AllSpace(a)
    ensures TrimLeft(a + s) == TrimLeft(s)
    decreases |a|
  {
    hide IsSpace;
    if a == [] {
      assert a + s == s;
    } else {
      assert (a + s)[1..] == a[1..] + s;
      LeadingSpaceGoes(a[1..], s);
    }
  }

  lemma LowerCase(c: char)
    ensures 'A' <= c <= 'Z' ==> 'a' <= LowerAscii([c])[0] <= 'z' && LowerAscii([c])[0] - 'a' == c - 'A'
    ensures !('A' <= c <= 'Z') ==> LowerAscii([c]) == [c]
  {
  }

  predicate Solid(s: string) {
    s != [] && forall i :: 0 <= i < |s| ==> !IsSpace(s[i])
  }

  lemma SolidIsOneWord(word: string, rest: string)
    requires Solid(word) && (rest == [] || IsSpace(rest[0]))
    ensures TrimLeft(word + rest) == word + rest
    ensures FirstWord(word + rest) == word && AfterFirstWord(word + rest) == rest
  {
    hide IsSpace;
    var s := word + rest;
    assert !IsSpace(s[0]) && TrimLeft(s) == s;
    var n := WordLength(s);
    assert forall i :: 0 <= i < |word| ==> s[i] == word[i];
    assert rest != [] ==> s[|word|] == rest[0];
    assert n == |word|;
  }

  lemma SpacedJoins(word: string, rest: string)
    ensures Spaced(word, rest) == word + if rest == "" then "" else " " + rest
  {
    assert word + (" " + rest) == word + [' '] + rest && word + "" == word;
  }

  /** Collapsing leaves the words and puts one space between them. */
  lemma WordsAreJoined(space: string, word: string, rest: string)
    requires AllSpace(space) && Solid(word) && (rest == [] || IsSpace(rest[0]))
    ensures Words(space + (word + rest)) == word + if Words(rest) == "" then "" else " " + Words(rest)
  {
    assert word != [];
    hide IsSpace, AllSpace, TrimLeft, FirstWord, AfterFirstWord, Words, Solid, Spaced;
    LeadingSpaceGoes(space, word + rest);
    SolidIsOneWord(word, rest);
    OneMoreWord(space + (word + rest), word, rest);
    SpacedJoins(word, Words(rest));
  }

  lemma OneMoreWord(s: string, word: string, rest: string)
    requires TrimLeft(s) == word + rest && word != [] && FirstWord(word + rest) == word && AfterFirstWord(word + rest) == rest
    ensures Words(s) == Spaced(word, Words(rest))
  {
    hide TrimLeft, FirstWord, AfterFirstWord, Spaced;
  }

  lemma SpaceHasNoWords(space: string)
    requires AllSpace(space)
    ensures Words(space) == ""
  {
    hide IsSpace;
    assert space + [] == space;
    LeadingSpaceGoes(space, []);
  }

  /** A text too long for the limit is cut to one rune less, and an ellipsis says so. */
  lemma TruncationFits(text: string, limit: int)
    ensures |TruncateRunes(text, limit)| <= if limit < 0 then 0 else limit
    ensures limit > 0 && |Trim(text)| <= limit ==> TruncateRunes(text, limit) == Trim(text)
    ensures 1 < limit < |Trim(text)| ==>
      TruncateRunes(text, limit)[..limit - 1] == Trim(text)[..limit - 1] && TruncateRunes(text, limit)[limit - 1..] == "\U{2026}"
    ensures limit == 1 && Trim(text) != "" ==> TruncateRunes(text, limit) == Trim(text)[..1]
  {
    hide Trim;
  }

  predicate Occurs(s: string, pat: string, i: int) {
    0 <= i && i + |pat| <= |s| && s[i..i + |pat|] == pat
  }

  lemma {:induction false} IndexIsFirst(s: string, pat: string)
    ensures IndexOf(s, pat) >= 0 ==> Occurs(s, pat, IndexOf(s, pat))
    ensures forall i :: Occurs(s, pat, i) ==> 0 <= IndexOf(s, pat) <= i
    decreases |s|
  {
    if !(pat <= s) && s != [] {
      IndexIsFirst(s[1..], pat);
      assert !Occurs(s, pat, 0);
      forall i | Occurs(s, pat, i) ensures 0 <= IndexOf(s, pat) <= i {
        assert s[1..][i - 1..i - 1 + |pat|] == s[i..i + |pat|];
        assert Occurs(s[1..], pat, i - 1);
      }
    }
  }

  lemma FirstNonBlank(a: string, b: string)
    ensures FirstNonEmpty(a, b) == if Trim(a) == "" then Trim(b) else Trim(a)
  {
    hide Trim;
  }
}
