/** `highlightText`: wrap every occurrence of every query word of two or more
    characters in `<mark>`..`</mark>`, longest word first, matching accent
    variants (`createAccentRegex`) and letter case, and skipping occurrences that
    the lookahead `(?![^<]*>)` rejects, those followed by a `>` before any `<`.
    Each word's global `replace` is modelled as a left-to-right scan over the
    text, which is what the regular expression engine does for a pattern made of
    single-character classes. */
module Highlighter {
  import opened Text
  import opened Sorting

  const Open: string := "<mark>"
  const Close: string := "</mark>"

  lemma MarkerShapes()
    ensures Open == "<" + "mark" + ">" && Close == "<" + "/mark" + ">"
    ensures |Open| == 6 && |Close| == 7 && Open[0] == '<' && Close[0] == '<'
    ensures Open[1] == 'm' && Close[1] == '/'
    ensures Open[1..] == "mark>" && Close[1..] == "/mark>"
  {
  }

  // ---------------------------------------------------------------------------
  // createAccentRegex and the case-insensitive flag

  predicate IsA(c: char) { c == 'a' || c == 'á' || c == 'à' || c == 'â' || c == 'ã' }
  predicate IsE(c: char) { c == 'e' || c == 'é' || c == 'è' || c == 'ê' }
  predicate IsI(c: char) { c == 'i' || c == 'í' || c == 'ì' || c == 'î' }
  predicate IsO(c: char) { c == 'o' || c == 'ó' || c == 'ò' || c == 'ô' || c == 'õ' }
  predicate IsU(c: char) { c == 'u' || c == 'ú' || c == 'ù' || c == 'û' }
  predicate IsC(c: char) { c == 'c' || c == 'ç' }

  /** The characters one word character stands for in the pattern built by
      `createAccentRegex`: the five a's, the four e's, i's and u's, the five o's,
      c and ç each become a bracket class; every other character stands for
      itself. The replacement is case-sensitive, so an upper-case vowel stays a
      literal. */
  function AccentClass(c: char): string {
    if IsA(c) then "aáàâã"
    else if IsE(c) then "eéèê"
    else if IsI(c) then "iíìî"
    else if IsO(c) then "oóòôõ"
    else if IsU(c) then "uúùû"
    else if IsC(c) then "cç"
    else [c]
  }

  /** A character belongs to its own class, and every member of a class
      normalizes like the character itself. */
  lemma AccentClassSpec(c: char)
    ensures c in AccentClass(c)
    ensures forall i :: 0 <= i < |AccentClass(c)| ==> FoldChar(AccentClass(c)[i]) == FoldChar(c)
  {
    var r := AccentClass(c);
    if |r| > 1 {
      ClassIsLower(c);
      assert Lower(c) == c;
      forall i | 0 <= i < |r| ensures Base(r[i]) == Base(c) {
      }
    } else {
      assert r == [c];
    }
  }

  /** The text character `t` matches the pattern character built from `p`,
      under the `i` flag. */
  predicate CharMatches(p: char, t: char) {
    var l := Lower(t);
    if IsA(p) then IsA(l)
    else if IsE(p) then IsE(l)
    else if IsI(p) then IsI(l)
    else if IsO(p) then IsO(l)
    else if IsU(p) then IsU(l)
    else if IsC(p) then IsC(l)
    else l == Lower(p)
  }

  /** `CharMatches` is the regular expression's reading of the class: some member
      of `p`'s accent class equals `t` up to letter case. */
  lemma CharMatchesClass(p: char, t: char)
    ensures CharMatches(p, t) <==>
      exists i :: 0 <= i < |AccentClass(p)| && Lower(AccentClass(p)[i]) == Lower(t)
  {
    var cls := AccentClass(p);
    if !(IsA(p) || IsE(p) || IsI(p) || IsO(p) || IsU(p) || IsC(p)) {
      assert cls == [p] && cls[0] == p;
    } else {
      assert |cls| > 1;
      ClassIsLower(p);
      ClassMembers(p, Lower(t));
    }
  }

  /** The members of a bracket class are all lower-case already. */
  lemma ClassIsLower(p: char)
    ensures |AccentClass(p)| > 1 ==> forall i :: 0 <= i < |AccentClass(p)| ==> Lower(AccentClass(p)[i]) == AccentClass(p)[i]
  {
    var cls := AccentClass(p);
    if |cls| > 1 {
      forall i | 0 <= i < |cls| ensures 'a' <= cls[i] <= 'z' || cls[i] > 'Þ' {
      }
    }
  }

  /** Membership in a bracket class is the test `CharMatches` makes of the
      lower-cased text character. */
  lemma ClassMembers(p: char, l: char)
    ensures |AccentClass(p)| > 1 && l == Lower(l) ==> (CharMatches(p, l) <==> l in AccentClass(p))
  {
  }

  /** How the pattern character `p` is tested against the text character `t`;
      for `highlightText` this is `CharMatches`. The scanning lemmas below hold
      for every such test that keeps angle brackets literal. */
  type CharTest = (char, char) -> bool

  /** The pattern for `w` matches at the start of `s`, character by character. */
  predicate MatchesAt(m: CharTest, w: string, s: string) {
    w == [] || (s != [] && m(w[0], s[0]) && MatchesAt(m, w[1..], s[1..]))
  }

  /** A match is a prefix of the text whose every character matches the
      pattern character at the same place. */
  lemma {:induction false} MatchesAtSpec(m: CharTest, w: string, s: string)
    ensures MatchesAt(m, w, s) <==> |w| <= |s| && forall i :: 0 <= i < |w| ==> m(w[i], s[i])
  {
    if w != [] && s != [] {
      MatchesAtSpec(m, w[1..], s[1..]);
      if |w| <= |s| && forall i :: 0 <= i < |w| ==> m(w[i], s[i]) {
        forall i | 0 <= i < |w| - 1 ensures m(w[1..][i], s[1..][i]) {
          assert m(w[i + 1], s[i + 1]);
        }
      }
    }
  }

  /** A pattern character only matches accent and case variants of itself: both
      normalize to the same character, and neither is a combining mark. */
  lemma CharMatchesSameFold(p: char, t: char)
    requires CharMatches(p, t)
    ensures FoldChar(t) == FoldChar(p)
    ensures IsCombining(t) ==> IsCombining(p)
  {
  }

  /** Angle brackets only match themselves, so a word without them never matches
      across the boundary of a tag. */
  lemma AngleOnlyMatchesItself(p: char)
    ensures CharMatches(p, '<') <==> p == '<'
    ensures CharMatches(p, '>') <==> p == '>'
  {
  }

  // ---------------------------------------------------------------------------
  // The lookahead and one word's global replace

  /** `(?![^<]*>)` fails on `rest`: reading `rest` from the left, a `>` comes
      before any `<`. */
  predicate ClosesFirst(rest: string) {
    rest != [] && (rest[0] == '>' || (rest[0] != '<' && ClosesFirst(rest[1..])))
  }

  /** An occurrence of `w` at the start of `s` that the replace wraps. */
  predicate Wraps(m: CharTest, w: string, s: string) {
    MatchesAt(m, w, s) && |w| <= |s| && !ClosesFirst(s[|w|..])
  }

  /** A global replace of the pattern for `w` by `<mark>$1</mark>` with the
      lookahead: scanning from the left, an occurrence that the lookahead accepts
      is wrapped, with the matched text kept as it is, and the scan resumes after
      it; anywhere else one character is copied and the scan moves on by one. */
  function Replace(m: CharTest, w: string, s: string): string
    requires w != []
    decreases |s|
  {
    if |s| < |w| then s
    else if Wraps(m, w, s) then Open + s[..|w|] + Close + Replace(m, w, s[|w|..])
    else [s[0]] + Replace(m, w, s[1..])
  }

  /** `s.replace(new RegExp('(' + createAccentRegex(w) + ')(?![^<]*>)', 'gi'),
      '<mark>$1</mark>')`. */
  function MarkWord(w: string, s: string): string
    requires w != []
  {
    Replace(CharMatches, w, s)
  }

  /** The test leaves angle brackets literal: only `<` matches `<` and only `>`
      matches `>`. */
  predicate KeepsAngles(m: CharTest) {
    forall p :: (m(p, '<') ==> p == '<') && (m(p, '>') ==> p == '>')
  }

  lemma CharMatchesKeepsAngles()
    ensures KeepsAngles(CharMatches)
  {
    forall p {
      AngleOnlyMatchesItself(p);
    }
  }

  predicate NoAngles(s: string) {
    forall i :: 0 <= i < |s| ==> s[i] != '<' && s[i] != '>'
  }

  /** The first angle bracket of `s` is the `>` at index `k`. */
  predicate GtFirst(s: string, k: nat) {
    k < |s| && s[k] == '>' && NoAngles(s[..k])
  }

  /** Where no occurrence is wrapped, the scan copies one character and moves on. */
  lemma CopyFirst(m: CharTest, w: string, s: string)
    requires w != [] && s != [] && !Wraps(m, w, s)
    ensures Replace(m, w, s) == [s[0]] + Replace(m, w, s[1..])
  {
    if |s| < |w| {
      assert s == [s[0]] + s[1..];
    }
  }

  /** Nothing inside a tag is ever wrapped: the inside of a tag and its `>`
      (such as the `mark>` of an inserted `<mark>` or the `/mark>` of `</mark>`)
      are copied unchanged by a word's replace, because any occurrence there
      is followed by `>` before any `<`; the scan then goes on after the `>`. */
  lemma {:induction false} TagUntouchedAppend(m: CharTest, w: string, u: string, rest: string)
    requires KeepsAngles(m) && w != [] && NoAngles(w) && NoAngles(u)
    ensures Replace(m, w, u + ">" + rest) == u + ">" + Replace(m, w, rest)
    decreases |u|
  {
    StepInTag(m, w, u, rest);
    if u != [] {
      TagUntouchedAppend(m, w, u[1..], rest);
      assert u == [u[0]] + u[1..];
    }
  }

  /** One step of the scan inside a tag: the first character is copied. */
  lemma StepInTag(m: CharTest, w: string, u: string, rest: string)
    requires KeepsAngles(m) && w != [] && NoAngles(w) && NoAngles(u)
    ensures Replace(m, w, u + ">" + rest) == [(u + ">")[0]] + Replace(m, w, (u + ">" + rest)[1..])
    ensures u == [] ==> (u + ">" + rest)[1..] == rest
    ensures u != [] ==> (u + ">" + rest)[1..] == u[1..] + ">" + rest && NoAngles(u[1..])
  {
    var s := u + ">" + rest;
    assert s[..|u|] == u && s[|u|] == '>';
    NoWrapBeforeGt(m, w, s, |u|);
    CopyFirst(m, w, s);
  }

  /** An occurrence that starts before a `>` with no angle bracket in between is
      never wrapped: either it would have to match the `>` itself, or the
      lookahead sees that `>` first. */
  lemma NoWrapBeforeGt(m: CharTest, w: string, s: string, k: nat)
    requires KeepsAngles(m) && NoAngles(w)
    requires GtFirst(s, k)
    ensures !Wraps(m, w, s)
  {
    MatchesAtSpec(m, w, s);
    if |w| > k {
      assert !m(w[k], s[k]);
    } else if |w| <= |s| {
      ClosesFirstAt(s[|w|..], k - |w|);
    }
  }

  /** Text whose first angle bracket is a `>` closes first. */
  lemma {:induction false} ClosesFirstAt(r: string, k: nat)
    requires k < |r| && r[k] == '>' && NoAngles(r[..k])
    ensures ClosesFirst(r)
    decreases k
  {
    if k > 0 {
      assert r[0] == r[..k][0];
      assert r[1..][..k - 1] == r[..k][1..];
      ClosesFirstAt(r[1..], k - 1);
    }
  }

  // ---------------------------------------------------------------------------
  // Removing the markers again

  /** Deletes every `<mark>` and `</mark>` from the text, scanning from the left. */
  function Strip(s: string): string
    decreases |s|
  {
    if s == [] then []
    else if Open <= s then Strip(s[|Open|..])
    else if Close <= s then Strip(s[|Close|..])
    else [s[0]] + Strip(s[1..])
  }

  /** Text without `<` passes through `Strip` unchanged. */
  lemma {:induction false} StripNoLt(x: string, y: string)
    requires forall i :: 0 <= i < |x| ==> x[i] != '<'
    ensures Strip(x + y) == x + Strip(y)
  {
    if x == [] {
      assert x + y == y;
    } else {
      MarkerShapes();
      assert (x + y)[0] == x[0] && (x + y)[1..] == x[1..] + y;
      StripNoLt(x[1..], y);
    }
  }

  /** A prefix of the output that has no `<` comes before any inserted marker,
      so it is a prefix of the input. */
  lemma {:induction false} PrefixBeforeMarker(m: CharTest, w: string, s: string, x: string)
    requires w != []
    requires forall i :: 0 <= i < |x| ==> x[i] != '<'
    ensures x <= Replace(m, w, s) ==> x <= s
    decreases |s|
  {
    MarkerShapes();
    if |s| < |w| || x == [] {
    } else if Wraps(m, w, s) {
      assert Replace(m, w, s)[0] == '<';
    } else {
      PrefixBeforeMarker(m, w, s[1..], x[1..]);
    }
  }

  /** The matched text of a word without angle brackets has no `<` in it. */
  lemma MatchNoLt(m: CharTest, w: string, s: string)
    requires KeepsAngles(m) && NoAngles(w) && MatchesAt(m, w, s)
    ensures |w| <= |s| && forall i :: 0 <= i < |w| ==> s[..|w|][i] != '<'
  {
    MatchesAtSpec(m, w, s);
    forall i | 0 <= i < |w| ensures s[i] != '<' {
      assert m(w[i], s[i]);
    }
  }

  /** Round trip for one word: deleting the markers from the output gives what
      deleting them from the input gives. Each wrap inserts `<mark>` and `</mark>`
      around the matched text, which is kept as it is, and never splits a marker
      that was already there. */
  lemma {:induction false} ReplaceStrip(m: CharTest, w: string, s: string)
    requires KeepsAngles(m) && w != [] && NoAngles(w)
    ensures Strip(Replace(m, w, s)) == Strip(s)
    decreases |s|
  {
    if s == [] {
    } else if Wraps(m, w, s) {
      WrapStrip(m, w, s);
    } else if s[0] != '<' {
      CopyStrip(m, w, s);
    } else if Open <= s {
      MarkerStrip(m, w, s, "mark");
    } else if Close <= s {
      MarkerStrip(m, w, s, "/mark");
    } else {
      LtStrip(m, w, s);
    }
  }

  /** `ReplaceStrip` where the scan wraps an occurrence. */
  lemma {:induction false} WrapStrip(m: CharTest, w: string, s: string)
    requires KeepsAngles(m) && w != [] && NoAngles(w) && Wraps(m, w, s)
    ensures Strip(Replace(m, w, s)) == Strip(s)
    decreases |s|, 0
  {
    MarkerShapes();
    var n := |w|;
    var r := Replace(m, w, s[n..]);
    MatchNoLt(m, w, s);
    calc {
      Strip(Replace(m, w, s));
      Strip(Open + s[..n] + Close + r);
      { assert (Open + s[..n] + Close + r)[|Open|..] == s[..n] + (Close + r); }
      Strip(s[..n] + (Close + r));
      { StripNoLt(s[..n], Close + r); }
      s[..n] + Strip(Close + r);
      { assert (Close + r)[|Close|..] == r; }
      s[..n] + Strip(r);
      { ReplaceStrip(m, w, s[n..]); }
      s[..n] + Strip(s[n..]);
      { StripNoLt(s[..n], s[n..]); assert s[..n] + s[n..] == s; }
      Strip(s);
    }
  }

  /** `ReplaceStrip` where the scan copies a character other than `<`. */
  lemma {:induction false} CopyStrip(m: CharTest, w: string, s: string)
    requires KeepsAngles(m) && w != [] && NoAngles(w)
    requires s != [] && !Wraps(m, w, s) && s[0] != '<'
    ensures Strip(Replace(m, w, s)) == Strip(s)
    decreases |s|, 0
  {
    MarkerShapes();
    CopyFirst(m, w, s);
    ReplaceStrip(m, w, s[1..]);
    assert ([s[0]] + Replace(m, w, s[1..]))[1..] == Replace(m, w, s[1..]);
  }

  /** `ReplaceStrip` where the text starts with a marker: the marker is copied
      whole and deleted again. */
  lemma {:induction false} MarkerStrip(m: CharTest, w: string, s: string, u: string)
    requires KeepsAngles(m) && w != [] && NoAngles(w)
    requires u == "mark" || u == "/mark"
    requires "<" + u + ">" <= s && !Wraps(m, w, s)
    ensures Strip(Replace(m, w, s)) == Strip(s)
    decreases |s|, 0
  {
    MarkerShapes();
    var tag := "<" + u + ">";
    var rest := s[|tag|..];
    assert s[1..] == u + ">" + rest;
    CopyFirst(m, w, s);
    TagUntouchedAppend(m, w, u, rest);
    assert Replace(m, w, s) == tag + Replace(m, w, rest);
    assert (tag + Replace(m, w, rest))[|tag|..] == Replace(m, w, rest);
    ReplaceStrip(m, w, rest);
  }

  /** `ReplaceStrip` where the scan copies a `<` that starts no marker: the
      output cannot start a marker there either. */
  lemma {:induction false} LtStrip(m: CharTest, w: string, s: string)
    requires KeepsAngles(m) && w != [] && NoAngles(w)
    requires s != [] && s[0] == '<' && !Wraps(m, w, s) && !(Open <= s) && !(Close <= s)
    ensures Strip(Replace(m, w, s)) == Strip(s)
    decreases |s|, 0
  {
    MarkerShapes();
    CopyFirst(m, w, s);
    var r := Replace(m, w, s[1..]);
    var out := [s[0]] + r;
    PrefixBeforeMarker(m, w, s[1..], "mark>");
    PrefixBeforeMarker(m, w, s[1..], "/mark>");
    assert Open == ['<'] + "mark>" && Close == ['<'] + "/mark>";
    assert s == ['<'] + s[1..];
    ConsPrefix('<', "mark>", r);
    ConsPrefix('<', "/mark>", r);
    ConsPrefix('<', "mark>", s[1..]);
    ConsPrefix('<', "/mark>", s[1..]);
    assert out[1..] == r;
    ReplaceStrip(m, w, s[1..]);
  }

  lemma ConsPrefix(c: char, x: string, r: string)
    ensures [c] + x <= [c] + r <==> x <= r
  {
    if [c] + x <= [c] + r {
      assert x == ([c] + x)[1..] && r == ([c] + r)[1..];
    }
  }

  // ---------------------------------------------------------------------------
  // Ordering the words

  /** The comparator `(a, b) => b.length - a.length`: `a` may come before `b`
      when it is not shorter. */
  predicate ByLength(a: string, b: string) {
    |a| >= |b|
  }

  /** `[...words].sort((a, b) => b.length - a.length)`. */
  function SortByLength(ws: seq<string>): seq<string> {
    SortBy(ByLength, ws)
  }

  /** Comparing lengths is a total preorder. */
  lemma ByLengthTotal()
    ensures TotalPreorder(ByLength)
  {
  }

  /** The words come out longest first, and they are the same words. */
  lemma SortByLengthSpec(ws: seq<string>)
    ensures forall i, j :: 0 <= i < j < |SortByLength(ws)| ==> |SortByLength(ws)[i]| >= |SortByLength(ws)[j]|
    ensures multiset(SortByLength(ws)) == multiset(ws)
  {
    ByLengthTotal();
    SortBySpec(ByLength, ws);
  }

  // ---------------------------------------------------------------------------
  // highlightText

  /** The `forEach` over the sorted words: each word of two or more characters
      replaces the text with its wrapped version; shorter words are skipped. */
  function ApplyWords(t: string, ws: seq<string>): string
    decreases |ws|
  {
    if ws == [] then t
    else ApplyWords(if |ws[0]| < 2 then t else MarkWord(ws[0], t), ws[1..])
  }

  /** `highlightText(text, words)`. An absent word list is the empty list here. */
  function Highlight(text: string, words: seq<string>): string {
    if words == [] then text else ApplyWords(text, SortByLength(words))
  }

  /** `highlightText` as written: a loop over the words sorted longest first. */
  method HighlightText(text: string, words: seq<string>) returns (result: string)
    ensures result == Highlight(text, words)
  {
    if |words| == 0 {
      return text;
    }
    result := text;
    var sorted := SortByLength(words);
    var i := 0;
    while i < |sorted|
      invariant 0 <= i <= |sorted|
      invariant ApplyWords(result, sorted[i..]) == Highlight(text, words)
    {
      var word := sorted[i];
      assert sorted[i..][1..] == sorted[i + 1..];
      if |word| >= 2 {
        result := MarkWord(word, result);
      }
      i := i + 1;
    }
  }

  lemma {:induction false} ApplyShortWords(t: string, ws: seq<string>)
    requires forall k :: 0 <= k < |ws| ==> |ws[k]| < 2
    ensures ApplyWords(t, ws) == t
  {
    if ws != [] {
      ApplyShortWords(t, ws[1..]);
    }
  }

  /** Words shorter than two characters never cause any wrapping. */
  lemma ShortWordsNoOp(text: string, words: seq<string>)
    requires forall k :: 0 <= k < |words| ==> |words[k]| < 2
    ensures Highlight(text, words) == text
  {
    var sorted := SortByLength(words);
    SortByLengthSpec(words);
    forall k | 0 <= k < |sorted| ensures |sorted[k]| < 2 {
      assert sorted[k] in multiset(words);
    }
    ApplyShortWords(text, sorted);
  }

  lemma {:induction false} ApplyWordsStrip(t: string, ws: seq<string>)
    requires forall k :: 0 <= k < |ws| ==> NoAngles(ws[k])
    ensures Strip(ApplyWords(t, ws)) == Strip(t)
    decreases |ws|
  {
    if ws != [] {
      var next := if |ws[0]| < 2 then t else MarkWord(ws[0], t);
      if |ws[0]| >= 2 {
        CharMatchesKeepsAngles();
        ReplaceStrip(CharMatches, ws[0], t);
      }
      ApplyWordsStrip(next, ws[1..]);
    }
  }

  /** Round trip: deleting the inserted marker pairs from the highlighted text
      gives back the text, for words without angle brackets. */
  lemma HighlightStrip(text: string, words: seq<string>)
    requires forall k :: 0 <= k < |words| ==> NoAngles(words[k])
    ensures Strip(Highlight(text, words)) == Strip(text)
  {
    if words != [] {
      var sorted := SortByLength(words);
      SortByLengthSpec(words);
      forall k | 0 <= k < |sorted| ensures NoAngles(sorted[k]) {
        assert sorted[k] in multiset(words);
      }
      ApplyWordsStrip(text, sorted);
    }
  }

  /** For transcript text, which has no `<`, stripping the markers from the
      highlighted text gives back exactly the text. */
  lemma HighlightRoundTrip(text: string, words: seq<string>)
    requires forall k :: 0 <= k < |words| ==> NoAngles(words[k])
    requires forall i :: 0 <= i < |text| ==> text[i] != '<'
    ensures Strip(Highlight(text, words)) == text
  {
    HighlightStrip(text, words);
    StripNoLt(text, []);
    assert text + [] == text;
  }

  lemma {:induction false} ApplyWordsTag(u: string, rest: string, ws: seq<string>)
    requires NoAngles(u)
    requires forall k :: 0 <= k < |ws| ==> NoAngles(ws[k])
    ensures ApplyWords(u + ">" + rest, ws) == u + ">" + ApplyWords(rest, ws)
    decreases |ws|
  {
    if ws != [] {
      if |ws[0]| >= 2 {
        CharMatchesKeepsAngles();
        TagUntouchedAppend(CharMatches, ws[0], u, rest);
      }
      ApplyWordsTag(u, if |ws[0]| < 2 then rest else MarkWord(ws[0], rest), ws[1..]);
    }
  }

  /** The lookahead at work over a whole highlight: text that reaches a `>`
      without an angle bracket, such as the inside of a tag, is never wrapped by
      any word. */
  lemma HighlightSkipsTagText(u: string, rest: string, words: seq<string>)
    requires NoAngles(u)
    requires forall k :: 0 <= k < |words| ==> NoAngles(words[k])
    ensures Highlight(u + ">" + rest, words) == u + ">" + Highlight(rest, words)
  {
    if words != [] {
      var sorted := SortByLength(words);
      SortByLengthSpec(words);
      forall k | 0 <= k < |sorted| ensures NoAngles(sorted[k]) {
        assert sorted[k] in multiset(words);
      }
      ApplyWordsTag(u, rest, sorted);
    }
  }

  // ---------------------------------------------------------------------------
  // What a wrapped span is

  /** A wrapped span is an occurrence of the word as search sees it: when the
      word is normalized, the matched text normalizes to the word. */
  lemma MatchNormalizesToWord(w: string, s: string)
    requires IsNormal(w) && MatchesAt(CharMatches, w, s)
    ensures |w| <= |s| && Normalize(s[..|w|]) == w
  {
    MatchesAtSpec(CharMatches, w, s);
    var x := s[..|w|];
    forall i | 0 <= i < |x| ensures !IsCombining(x[i]) && FoldChar(x[i]) == w[i] {
      CharMatchesSameFold(w[i], s[i]);
    }
    NormalizeNoCombining(x);
  }

  /** The Portuguese letters the accent classes cover: plain letters and digits,
      and the accented vowels and ç used in the language, in either case. */
  predicate Covered(t: char) {
    var l := Lower(t);
    ('a' <= l <= 'z') || ('0' <= l <= '9') || IsA(l) || IsE(l) || IsI(l) || IsO(l) || IsU(l) || IsC(l)
  }

  /** A covered character matches the pattern character of its normal form. */
  lemma CoveredMatches(t: char)
    requires Covered(t)
    ensures CharMatches(FoldChar(t), t)
  {
  }

  /** Accent-insensitive highlighting: a word typed without accents (the
      normalized form of a word of Portuguese text) wraps that word, keeping its
      accents and case. `highlightText("café", ["cafe"])` is `<mark>café</mark>`. */
  lemma {:induction false} HighlightNormalizedWord(t: string)
    requires |t| >= 2 && forall i :: 0 <= i < |t| ==> Covered(t[i])
    ensures Highlight(t, [Normalize(t)]) == Open + t + Close
  {
    var w := Normalize(t);
    NormalizeNoCombining(t);
    forall i | 0 <= i < |w| ensures CharMatches(w[i], t[i]) {
      CoveredMatches(t[i]);
    }
    MatchesAtSpec(CharMatches, w, t);
    assert t[|w|..] == [];
    assert Wraps(CharMatches, w, t);
    assert t[..|w|] == t;
    calc {
      Highlight(t, [w]);
      { assert [w][1..] == [] && SortBy(ByLength, [w]) == Insert(ByLength, w, []); }
      ApplyWords(t, [w]);
      ApplyWords(MarkWord(w, t), []);
      MarkWord(w, t);
      Open + t + Close + MarkWord(w, []);
      Open + t + Close;
    }
  }

  /** The accent classes are narrower than the normalizer: `ü` normalizes to `u`,
      so a search for "linguica" finds "lingüiça", but the class of `u` does not
      contain `ü`, so that word is not highlighted. */
  lemma DiaeresisNotHighlighted()
    ensures FoldChar('ü') == 'u'
    ensures !CharMatches('u', 'ü')
  {
  }

  /** Words are applied longest first, so a shorter word inside a longer one is
      applied to the already wrapped text; the lookahead does not stop it, since
      after it the text reaches the `<` of `</mark>` first. Highlighting "sql" with
      ["sq", "sql"] gives nested markers. */
  lemma NestedMarks()
    ensures Highlight("sql", ["sq", "sql"]) == "<mark><mark>sq</mark>l</mark>"
  {
    assert SortByLength(["sq", "sql"]) == ["sql", "sq"];
    WrapWholeWord();
    var once := Open + "sql" + Close;
    assert ApplyWords("sql", ["sql", "sq"]) == ApplyWords(once, ["sq"]);
    assert ApplyWords(once, ["sq"]) == MarkWord("sq", once);
    WrapInsideMark();
  }

  /** The longer word is wrapped first. */
  lemma WrapWholeWord()
    ensures MarkWord("sql", "sql") == Open + "sql" + Close
  {
    MatchesAtSpec(CharMatches, "sql", "sql");
    assert Wraps(CharMatches, "sql", "sql");
    assert "sql"[..3] == "sql" && "sql"[3..] == [];
  }

  /** The shorter word is then wrapped inside the marker pair. */
  lemma WrapInsideMark()
    ensures MarkWord("sq", Open + "sql" + Close) == "<mark><mark>sq</mark>l</mark>"
  {
    var s := Open + "sql" + Close;
    var rest := "sql</mark>";
    assert s == "<" + ("mark" + ">" + rest);
    CharMatchesKeepsAngles();
    LtNotWrapped(CharMatches, "sq", "mark" + ">" + rest);
    CopyFirst(CharMatches, "sq", s);
    TagUntouchedAppend(CharMatches, "sq", "mark", rest);
    WrapBeforeClose();
    NestedText();
  }

  lemma NestedText()
    ensures "<" + ("mark" + ">" + (Open + "sq" + Close + "l</mark>")) == "<mark><mark>sq</mark>l</mark>"
  {
    assert "<" + ("mark" + ">") == Open;
    assert Open + "sq" == "<mark>sq" && Close + "l</mark>" == "</mark>l</mark>";
    assert "<mark>sq" + "</mark>l</mark>" == "<mark>sq</mark>l</mark>";
  }

  /** A word without angle brackets is never wrapped at a `<`. */
  lemma LtNotWrapped(m: CharTest, w: string, r: string)
    requires KeepsAngles(m) && w != [] && NoAngles(w)
    ensures !Wraps(m, w, "<" + r)
  {
    assert ("<" + r)[0] == '<';
  }

  /** "sq" followed by "l</mark>" is wrapped: the lookahead meets `<` first. */
  lemma WrapBeforeClose()
    ensures Replace(CharMatches, "sq", "sql</mark>") == Open + "sq" + Close + "l</mark>"
  {
    var s := "sql</mark>";
    MatchesAtSpec(CharMatches, "sq", s);
    assert s[2..] == "l</mark>" && s[..2] == "sq";
    assert "l</mark>"[1..] == "</mark>";
    assert !ClosesFirst("l</mark>");
    assert Wraps(CharMatches, "sq", s);
    CopyTail();
  }

  /** What follows the inner pair is copied. */
  lemma CopyTail()
    ensures Replace(CharMatches, "sq", "l</mark>") == "l</mark>"
  {
    CharMatchesKeepsAngles();
    assert "l</mark>"[1..] == "</mark>" && "</mark>"[1..] == "/mark>";
    assert !CharMatches('s', 'l') && !CharMatches('s', '<');
    TagUntouchedAppend(CharMatches, "sq", "/mark", []);
    assert "/mark" + ">" + [] == "/mark>";
  }
}
