/** Text canonicalisation used for matching: `normalizeString` (decompose, drop
    combining accents, lower-case), the `trim` applied to typed queries, and the
    whitespace tokenizer `split(/\s+/).filter(w => w.length > 0)`.
    Unicode decomposition and case mapping are modelled by a fixed table over
    the Latin-1 letters; every other character is left as it is. */
module Text {

  /** A combining diacritical mark, U+0300..U+036F: the range the normalizer deletes. */
  predicate IsCombining(c: char) {
    '\U{0300}' <= c <= '\U{036F}'
  }

  /** Upper-case to lower-case for A-Z and the Latin-1 capitals À..Þ (× is not a letter). */
  function Lower(c: char): char {
    if 'A' <= c <= 'Z' || ('À' <= c <= 'Þ' && c != '×') then (c as int + 32) as char else c
  }

  /** Lower-casing shifts an ASCII capital by 32, leaves everything that is not
      a capital alone, and never yields a capital. */
  lemma LowerSpec(c: char)
    ensures 'A' <= c <= 'Z' ==> Lower(c) as int == c as int + 32
    ensures !('A' <= c <= 'Z') && !('À' <= c <= 'Þ') ==> Lower(c) == c
    ensures !('A' <= Lower(c) <= 'Z') && !('À' <= Lower(c) <= 'Þ' && Lower(c) != '×')
  {
  }

  /** The base letter of a lower-case Latin-1 letter that decomposes canonically
      (a grave, acute, circumflex, tilde, diaeresis or ring over a vowel, the
      cedilla of ç, the tilde of ñ, y with acute or diaeresis). */
  function Base(c: char): char {
    if 'à' <= c <= 'å' then 'a'
    else if c == 'ç' then 'c'
    else if 'è' <= c <= 'ë' then 'e'
    else if 'ì' <= c <= 'ï' then 'i'
    else if c == 'ñ' then 'n'
    else if 'ò' <= c <= 'ö' then 'o'
    else if 'ù' <= c <= 'ü' then 'u'
    else if c == 'ý' || c == 'ÿ' then 'y'
    else c
  }

  /** What `normalizeString` makes of one non-combining character. */
  function FoldChar(c: char): char {
    Base(Lower(c))
  }

  /** A character the normalizer leaves as it is. */
  predicate IsNormalChar(c: char) {
    !IsCombining(c) && FoldChar(c) == c
  }

  /** The folded character is itself normal. */
  lemma FoldCharNormal(c: char)
    requires !IsCombining(c)
    ensures IsNormalChar(FoldChar(c))
  {
  }

  /** `normalizeString`: combining marks are dropped, every other character folded. */
  function Normalize(s: string): (r: string)
    ensures |r| <= |s|
  {
    if s == [] then []
    else (if IsCombining(s[0]) then [] else [FoldChar(s[0])]) + Normalize(s[1..])
  }

  predicate IsNormal(s: string) {
    forall i :: 0 <= i < |s| ==> IsNormalChar(s[i])
  }

  lemma {:induction false} NormalizeAppend(a: string, b: string)
    ensures Normalize(a + b) == Normalize(a) + Normalize(b)
  {
    if a == [] {
      assert a + b == b;
    } else {
      assert (a + b)[0] == a[0] && (a + b)[1..] == a[1..] + b;
      NormalizeAppend(a[1..], b);
    }
  }

  /** The result of normalizing contains only normal characters. */
  lemma {:induction false} NormalizeIsNormal(s: string)
    ensures IsNormal(Normalize(s))
  {
    if s != [] {
      NormalizeIsNormal(s[1..]);
      if !IsCombining(s[0]) {
        FoldCharNormal(s[0]);
      }
    }
  }

  /** Normal text is a fixed point of the normalizer. */
  lemma {:induction false} NormalizeNormal(s: string)
    requires IsNormal(s)
    ensures Normalize(s) == s
  {
    if s != [] {
      NormalizeNormal(s[1..]);
    }
  }

  /** Text without combining marks is normalized character by character. */
  lemma {:induction false} NormalizeNoCombining(s: string)
    requires forall i :: 0 <= i < |s| ==> !IsCombining(s[i])
    ensures |Normalize(s)| == |s|
    ensures forall i :: 0 <= i < |s| ==> Normalize(s)[i] == FoldChar(s[i])
  {
    if s != [] {
      NormalizeNoCombining(s[1..]);
    }
  }

  /** The normalizer is idempotent. */
  lemma NormalizeIdempotent(s: string)
    ensures Normalize(Normalize(s)) == Normalize(s)
  {
    NormalizeIsNormal(s);
    NormalizeNormal(Normalize(s));
  }

  /** Accent and case folding: "Ação" and "acao" normalize to the same text. */
  lemma NormalizeFoldsAccentsAndCase()
    ensures Normalize("Ação") == Normalize("acao") == "acao"
  {
  }

  // ---------------------------------------------------------------------------
  // Whitespace, trimming and tokenizing

  /** The characters of the JavaScript `\s` class, which are also the ones
      `String.prototype.trim` removes. */
  predicate IsSpace(c: char) {
    c == '\t' || c == '\n' || c == '\U{000B}' || c == '\U{000C}' || c == '\r' || c == ' '
    || c == '\U{00A0}' || c == '\U{1680}' || ('\U{2000}' <= c <= '\U{200A}')
    || c == '\U{2028}' || c == '\U{2029}' || c == '\U{202F}' || c == '\U{205F}'
    || c == '\U{3000}' || c == '\U{FEFF}'
  }

  predicate NoSpace(s: string) {
    forall i :: 0 <= i < |s| ==> !IsSpace(s[i])
  }

  /** Leading whitespace removed: what is left is a suffix that does not start
      with whitespace, and everything cut off is whitespace. */
  function TrimStart(s: string): (r: string)
    ensures |r| <= |s| && r == s[|s| - |r|..]
    ensures forall i :: 0 <= i < |s| - |r| ==> IsSpace(s[i])
    ensures r != [] ==> !IsSpace(r[0])
  {
    if s != [] && IsSpace(s[0]) then TrimStart(s[1..]) else s
  }

  /** Trailing whitespace removed: a prefix that does not end with whitespace,
      and everything cut off is whitespace. */
  function TrimEnd(s: string): (r: string)
    ensures |r| <= |s| && r == s[..|r|]
    ensures forall i :: |r| <= i < |s| ==> IsSpace(s[i])
    ensures r != [] ==> !IsSpace(r[|r| - 1])
  {
    if s != [] && IsSpace(s[|s| - 1]) then TrimEnd(s[..|s| - 1]) else s
  }

  /** `String.prototype.trim`. */
  function Trim(s: string): string {
    TrimEnd(TrimStart(s))
  }

  /** A trimmed input is empty exactly when the input is all whitespace. */
  lemma TrimEmpty(s: string)
    ensures Trim(s) == [] <==> forall i :: 0 <= i < |s| ==> IsSpace(s[i])
  {
    var t := TrimStart(s);
    var k := |s| - |t|;
    assert Trim(s) == [] ==> t == [];
    assert t != [] ==> t[0] == s[k];
  }

  /** The query tokenizer, scanning left to right with the word being built in
      `cur`: a whitespace character ends the current word, if there is one. */
  function Split(s: string, cur: string): seq<string>
  {
    if s == [] then (if cur == [] then [] else [cur])
    else if IsSpace(s[0]) then (if cur == [] then [] else [cur]) + Split(s[1..], [])
    else Split(s[1..], cur + [s[0]])
  }

  /** `s.split(/\s+/).filter(w => w.length > 0)`: the maximal runs of
      non-whitespace characters of `s`, in order. */
  function Words(s: string): seq<string> {
    Split(s, [])
  }

  /** A well-formed word list: every word is non-empty and free of whitespace. */
  predicate WellFormed(ws: seq<string>) {
    forall k :: 0 <= k < |ws| ==> ws[k] != [] && NoSpace(ws[k])
  }

  lemma {:induction false} SplitWellFormed(s: string, cur: string)
    requires NoSpace(cur)
    ensures WellFormed(Split(s, cur))
  {
    if s != [] {
      if IsSpace(s[0]) {
        SplitWellFormed(s[1..], []);
      } else {
        SplitWellFormed(s[1..], cur + [s[0]]);
      }
    }
  }

  /** Query words are never empty and never contain whitespace. */
  lemma WordsWellFormed(s: string)
    ensures WellFormed(Words(s))
  {
    SplitWellFormed(s, []);
  }

  function Concat(ws: seq<string>): string {
    if ws == [] then [] else ws[0] + Concat(ws[1..])
  }

  /** The characters of `s` that are not whitespace, in order. */
  function NonSpace(s: string): string {
    if s == [] then [] else (if IsSpace(s[0]) then [] else [s[0]]) + NonSpace(s[1..])
  }

  lemma {:induction false} SplitConcat(s: string, cur: string)
    ensures Concat(Split(s, cur)) == cur + NonSpace(s)
  {
    if s == [] {
    } else if IsSpace(s[0]) {
      SplitConcat(s[1..], []);
      var rest := Split(s[1..], []);
      if cur == [] {
        assert [] + rest == rest;
      } else {
        assert ([cur] + rest)[1..] == rest;
      }
    } else {
      SplitConcat(s[1..], cur + [s[0]]);
    }
  }

  /** Tokenizing loses only whitespace: the words, put back to back, are the
      non-whitespace characters of the input in their order. */
  lemma WordsConcat(s: string)
    ensures Concat(Words(s)) == NonSpace(s)
  {
    SplitConcat(s, []);
  }

  /** `words.join(' ')`. */
  function Join(ws: seq<string>): string {
    if ws == [] then [] else if |ws| == 1 then ws[0] else ws[0] + " " + Join(ws[1..])
  }

  lemma {:induction false} SplitAcrossWord(u: string, t: string, cur: string)
    requires NoSpace(u)
    ensures Split(u + t, cur) == Split(t, cur + u)
  {
    if u == [] {
      assert u + t == t;
      assert cur + u == cur;
    } else {
      assert (u + t)[0] == u[0] && (u + t)[1..] == u[1..] + t;
      SplitAcrossWord(u[1..], t, cur + [u[0]]);
      assert cur + [u[0]] + u[1..] == cur + u;
    }
  }

  /** Joining well-formed words with single spaces and tokenizing again gives
      back the same words: this is how the modal's search box is prefilled with
      the global query and re-read on input. */
  lemma {:induction false} WordsJoin(ws: seq<string>)
    requires WellFormed(ws)
    ensures Words(Join(ws)) == ws
  {
    if ws == [] {
    } else if |ws| == 1 {
      SplitAcrossWord(ws[0], [], []);
      assert ws[0] + [] == ws[0] && [] + ws[0] == ws[0];
      assert ws == [ws[0]];
    } else {
      var rest := " " + Join(ws[1..]);
      assert Join(ws) == ws[0] + rest;
      SplitAcrossWord(ws[0], rest, []);
      assert [] + ws[0] == ws[0];
      assert rest[1..] == Join(ws[1..]);
      WordsJoin(ws[1..]);
      assert ws == [ws[0]] + ws[1..];
    }
  }

  /** `normalizeString(raw.trim()).split(/\s+/).filter(w => w.length > 0)`: the
      words of a typed query. */
  function QueryWords(raw: string): seq<string> {
    Words(Normalize(Trim(raw)))
  }

  /** Query words are well formed and already normalized. */
  lemma {:induction false} QueryWordsNormal(raw: string)
    ensures WellFormed(QueryWords(raw))
    ensures forall k :: 0 <= k < |QueryWords(raw)| ==> IsNormal(QueryWords(raw)[k])
  {
    var n := Normalize(Trim(raw));
    WordsWellFormed(n);
    NormalizeIsNormal(Trim(raw));
    SplitSubstrings(n, []);
  }

  lemma {:induction false} SplitSubstrings(s: string, cur: string)
    requires IsNormal(s) && IsNormal(cur)
    ensures forall k :: 0 <= k < |Split(s, cur)| ==> IsNormal(Split(s, cur)[k])
  {
    if s != [] {
      if IsSpace(s[0]) {
        SplitSubstrings(s[1..], []);
      } else {
        SplitSubstrings(s[1..], cur + [s[0]]);
      }
    }
  }

  /** Folding neither creates nor removes whitespace. */
  lemma FoldCharSpace(c: char)
    ensures IsSpace(FoldChar(c)) <==> IsSpace(c)
  {
  }

  predicate AllSpace(s: string) {
    forall i :: 0 <= i < |s| ==> IsSpace(s[i])
  }

  /** No character survives both tokenizing and normalizing: each one is
      whitespace or a combining mark. */
  predicate NoWordChar(s: string) {
    forall i :: 0 <= i < |s| ==> IsSpace(s[i]) || IsCombining(s[i])
  }

  /** Normalized text is all whitespace exactly when every character of the
      input is whitespace or a combining mark. */
  lemma {:induction false} NormalizeAllSpace(s: string)
    ensures AllSpace(Normalize(s)) <==> NoWordChar(s)
  {
    if s != [] {
      NormalizeAllSpace(s[1..]);
      FoldCharSpace(s[0]);
      var head := if IsCombining(s[0]) then [] else [FoldChar(s[0])];
      var tail := Normalize(s[1..]);
      assert Normalize(s) == head + tail;
      assert AllSpace(head + tail) <==> AllSpace(head) && AllSpace(tail) by {
        assert forall i :: 0 <= i < |head| ==> (head + tail)[i] == head[i];
        assert forall i :: 0 <= i < |tail| ==> (head + tail)[|head| + i] == tail[i];
      }
      assert NoWordChar(s) <==> (IsSpace(s[0]) || IsCombining(s[0])) && NoWordChar(s[1..]) by {
        assert forall i :: 1 <= i < |s| ==> s[i] == s[1..][i - 1];
      }
    }
  }

  /** The tokenizer yields no word exactly when there is no word being built
      and the rest is all whitespace. */
  lemma {:induction false} SplitEmpty(s: string, cur: string)
    ensures Split(s, cur) == [] <==> cur == [] && AllSpace(s)
  {
    if s != [] {
      if IsSpace(s[0]) {
        SplitEmpty(s[1..], []);
      } else {
        SplitEmpty(s[1..], cur + [s[0]]);
      }
      assert forall i :: 1 <= i < |s| ==> s[i] == s[1..][i - 1];
    }
  }

  /** Trimming only removes whitespace, so it keeps every character that is
      neither whitespace nor a combining mark. */
  lemma TrimKeepsWordChars(s: string)
    ensures NoWordChar(Trim(s)) <==> NoWordChar(s)
  {
    TrimStartKeeps(s);
    TrimEndKeeps(TrimStart(s));
  }

  /** Cutting leading whitespace keeps every word character. */
  lemma TrimStartKeeps(s: string)
    ensures NoWordChar(TrimStart(s)) <==> NoWordChar(s)
  {
    var t := TrimStart(s);
    var k := |s| - |t|;
    assert forall i :: 0 <= i < |t| ==> t[i] == s[k + i];
  }

  /** Cutting trailing whitespace keeps every word character. */
  lemma TrimEndKeeps(s: string)
    ensures NoWordChar(TrimEnd(s)) <==> NoWordChar(s)
  {
    var t := TrimEnd(s);
    assert forall i :: 0 <= i < |t| ==> t[i] == s[i];
  }

  /** A query has no words exactly when every character typed is whitespace or
      a combining mark. */
  lemma QueryWordsEmpty(raw: string)
    ensures QueryWords(raw) == [] <==> forall i :: 0 <= i < |raw| ==> IsSpace(raw[i]) || IsCombining(raw[i])
  {
    SplitEmpty(Normalize(Trim(raw)), []);
    NormalizeAllSpace(Trim(raw));
    TrimKeepsWordChars(raw);
    assert NoWordChar(raw) <==> forall i :: 0 <= i < |raw| ==> IsSpace(raw[i]) || IsCombining(raw[i]);
  }
}
