/** The global search (`performSearch`): tokenize the typed query, gate on the
    first word, keep every segment whose normalized text contains every query
    word, in database order, and cap the list at 100. */
module GlobalSearch {
  import opened Transcripts
  import opened Text

  /** Results beyond this many are not rendered. */
  const MaxResults: nat := 100

  /** `word` occurs in `text` starting at index `i`. */
  predicate OccursAt(text: string, word: string, i: int) {
    0 <= i <= |text| - |word| && text[i..i + |word|] == word
  }

  /** `text.includes(word)`: `word` occurs somewhere in `text`. */
  function Contains(text: string, word: string): (r: bool)
    ensures r <==> exists i :: OccursAt(text, word, i)
  {
    if word <= text then
      assert OccursAt(text, word, 0);
      true
    else if text == [] then false
    else
      var r := Contains(text[1..], word);
      forall i | OccursAt(text, word, i)
        ensures i > 0 && OccursAt(text[1..], word, i - 1)
      {
        assert text[1..][i - 1..i - 1 + |word|] == text[i..i + |word|];
      }
      forall i | 0 < i && OccursAt(text[1..], word, i - 1)
        ensures OccursAt(text, word, i)
      {
        assert text[1..][i - 1..i - 1 + |word|] == text[i..i + |word|];
      }
      assert r ==> OccursAt(text, word, 1 + (var i :| OccursAt(text[1..], word, i); i));
      r
  }

  /** `searchWords.every(word => normalizeString(text).includes(word))`. */
  predicate HasAllWords(words: seq<string>, text: string) {
    forall k :: 0 <= k < |words| ==> Contains(Normalize(text), words[k])
  }

  /** The guard of `performSearch`: a search runs only when there is a first word
      and it has at least two characters; later words are not checked. */
  predicate Runs(words: seq<string>) {
    |words| > 0 && |words[0]| >= 2
  }

  /** The entries whose text contains every query word, in their order. */
  function Hits(words: seq<string>, ms: seq<Match>): (r: seq<Match>)
    ensures |r| <= |ms|
    ensures forall m :: m in r <==> m in ms && HasAllWords(words, m.text)
  {
    if ms == [] then []
    else (if HasAllWords(words, ms[0].text) then [ms[0]] else []) + Hits(words, ms[1..])
  }

  lemma {:induction false} HitsAppend(words: seq<string>, a: seq<Match>, b: seq<Match>)
    ensures Hits(words, a + b) == Hits(words, a) + Hits(words, b)
  {
    if a == [] {
      assert a + b == b;
    } else {
      assert (a + b)[0] == a[0] && (a + b)[1..] == a[1..] + b;
      HitsAppend(words, a[1..], b);
    }
  }

  /** What the search does to the page. `Idle`: no search runs, the result list,
      the count and the "no results" message are hidden, and the empty state is
      switched on when `emptyStateOn` holds (there are no words); otherwise it
      is left as it was, so a first word that is too short keeps whatever was
      shown before. `Results`: the empty state is hidden and the list is shown
      (an empty list is the "no results" state). */
  datatype Outcome = Idle(emptyStateOn: bool) | Results(matches: seq<Match>)

  /** The search specified over the whole database at once. */
  function Search(db: Database, raw: string): Outcome {
    var words := QueryWords(raw);
    if !Runs(words) then Idle(words == [])
    else
      var all := Hits(words, Entries(db));
      Results(if |all| <= MaxResults then all else all[..MaxResults])
  }

  lemma HitsSnoc(words: seq<string>, ms: seq<Match>, m: Match)
    ensures Hits(words, ms + [m]) == Hits(words, ms) + (if HasAllWords(words, m.text) then [m] else [])
  {
    HitsAppend(words, ms, [m]);
  }

  lemma EntriesSnoc(db: Database, i: nat)
    requires i < |db|
    ensures Entries(db[..i + 1]) == Entries(db[..i]) + LessonEntries(db[i])
  {
    assert db[..i + 1] == db[..i] + [db[i]];
    EntriesAppend(db[..i], [db[i]]);
    assert Entries([db[i]]) == LessonEntries(db[i]) + Entries([]);
  }

  lemma SnocSlice(a: seq<Match>, e: seq<Match>, j: nat)
    requires j < |e|
    ensures a + e[..j + 1] == (a + e[..j]) + [e[j]]
  {
    assert e[..j + 1] == e[..j] + [e[j]];
  }

  /** `performSearch` as written: nested loops over lessons and their segments,
      pushing every segment that has all the words, then the first 100 of them. */
  method PerformSearch(db: Database, raw: string) returns (out: Outcome)
    ensures out == Search(db, raw)
  {
    var words := QueryWords(raw);
    if |words| == 0 || |words[0]| < 2 {
      return Idle(|words| == 0);
    }
    var matches: seq<Match> := [];
    var i := 0;
    while i < |db|
      invariant 0 <= i <= |db|
      invariant matches == Hits(words, Entries(db[..i]))
    {
      var item := db[i];
      ghost var entries := LessonEntries(item);
      var j := 0;
      assert Entries(db[..i]) + entries[..0] == Entries(db[..i]);
      while j < |item.trechos|
        invariant 0 <= j <= |item.trechos|
        invariant matches == Hits(words, Entries(db[..i]) + entries[..j])
      {
        var trecho := item.trechos[j];
        assert entries[j] == Match(item.modulo, item.aula, trecho.time, trecho.text);
        if HasAllWords(words, trecho.text) {
          matches := matches + [Match(item.modulo, item.aula, trecho.time, trecho.text)];
        }
        SnocSlice(Entries(db[..i]), entries, j);
        HitsSnoc(words, Entries(db[..i]) + entries[..j], entries[j]);
        j := j + 1;
      }
      assert entries[..j] == entries;
      EntriesSnoc(db, i);
      i := i + 1;
    }
    assert db[..i] == db;
    if |matches| > MaxResults {
      matches := matches[..MaxResults];
    }
    return Results(matches);
  }

  /** No search runs exactly when there are no query words or the first one is
      shorter than two characters; the empty state is switched on only when
      there are no words at all. */
  lemma SearchIdle(db: Database, raw: string)
    ensures Search(db, raw).Idle? <==> QueryWords(raw) == [] || |QueryWords(raw)[0]| < 2
    ensures Search(db, raw).Idle? ==> (Search(db, raw).emptyStateOn <==> QueryWords(raw) == [])
  {
  }

  /** A whitespace-only query switches the empty state on. */
  lemma {:induction false} BlankQueryIsIdle(db: Database, raw: string)
    requires forall i :: 0 <= i < |raw| ==> IsSpace(raw[i])
    ensures Search(db, raw) == Idle(true)
  {
    TrimEmpty(raw);
    assert Trim(raw) == [];
  }

  /** Only the first word is gated: a one-letter word after a long first word
      does not stop the search. */
  lemma ShortLaterWordRuns(db: Database)
    ensures Search(db, "sql a").Results?
  {
    ShortLaterWordTokens();
  }

  lemma ShortLaterWordTokens()
    ensures QueryWords("sql a") == ["sql", "a"]
  {
    assert Trim("sql a") == "sql a";
    NormalizeNormal("sql a");
    SplitExample();
  }

  lemma SplitExample()
    ensures Words("sql a") == ["sql", "a"]
  {
    assert "sql a"[1..] == "ql a" && [] + ['s'] == "s";
    assert "ql a"[1..] == "l a" && "s" + ['q'] == "sq";
    assert "l a"[1..] == " a" && "sq" + ['l'] == "sql";
    assert " a"[1..] == "a";
    assert "a"[1..] == [] && [] + ['a'] == "a";
    calc {
      Words("sql a");
      Split("ql a", "s");
      Split("l a", "sq");
      Split(" a", "sql");
      ["sql"] + Split("a", []);
      ["sql"] + Split([], "a");
    }
  }

  /** Every result is a segment of the database, carrying its lesson's module and
      title and its own time and text unchanged, and its normalized text contains
      every query word. */
  lemma ResultsSound(db: Database, raw: string, m: Match)
    requires Search(db, raw).Results?
    requires m in Search(db, raw).matches
    ensures exists i, j :: (0 <= i < |db| && 0 <= j < |db[i].trechos| &&
      m == Match(db[i].modulo, db[i].aula, db[i].trechos[j].time, db[i].trechos[j].text))
    ensures forall k :: 0 <= k < |QueryWords(raw)| ==> Contains(Normalize(m.text), QueryWords(raw)[k])
  {
    var words := QueryWords(raw);
    var all := Hits(words, Entries(db));
    assert m in all;
    InEntries(db, m);
  }

  /** The list holds at most 100 results; when fewer than 100 segments match,
      every matching segment of the database is in it. */
  lemma {:induction false} ResultsComplete(db: Database, raw: string, i: nat, j: nat)
    requires Search(db, raw).Results?
    requires i < |db| && j < |db[i].trechos|
    requires HasAllWords(QueryWords(raw), db[i].trechos[j].text)
    requires |Hits(QueryWords(raw), Entries(db))| <= MaxResults
    ensures |Search(db, raw).matches| <= MaxResults
    ensures Match(db[i].modulo, db[i].aula, db[i].trechos[j].time, db[i].trechos[j].text)
      in Search(db, raw).matches
  {
    InEntries(db, Match(db[i].modulo, db[i].aula, db[i].trechos[j].time, db[i].trechos[j].text));
  }

  /** The cap: a search never shows more than 100 results. */
  lemma ResultsCapped(db: Database, raw: string)
    requires Search(db, raw).Results?
    ensures |Search(db, raw).matches| <= MaxResults
  {
  }

  /** Results come in database order: for a database split into an earlier part
      `a` and a later part `b`, the results are the first 100 of the matches in
      `a` followed by the matches in `b`. */
  lemma ResultsInDatabaseOrder(a: Database, b: Database, raw: string)
    requires Search(a + b, raw).Results?
    ensures var all := Hits(QueryWords(raw), Entries(a)) + Hits(QueryWords(raw), Entries(b));
      Search(a + b, raw).matches == if |all| <= MaxResults then all else all[..MaxResults]
  {
    EntriesAppend(a, b);
    HitsAppend(QueryWords(raw), Entries(a), Entries(b));
  }
}
