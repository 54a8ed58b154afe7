/** The full-text modal: finding the lesson a card or a list item opens
    (`openModal`), rendering its segments with the search words highlighted and
    one or more of them marked as the line to scroll to (`renderModalContent`),
    and re-rendering as the modal's own search box is edited. */
module Modal {
  import opened Transcripts
  import opened Text
  import opened GlobalSearch
  import opened Highlighter
  import opened Sorting

  // ---------------------------------------------------------------------------
  // Finding the lesson

  /** `database.find(d => d.modulo === modulo && d.aula === aula)`. */
  function FindLesson(db: Database, modulo: string, aula: string): (r: Option<Lesson>)
    ensures r.Some? ==> r.value in db && r.value.modulo == modulo && r.value.aula == aula
    ensures r.None? <==> forall i :: 0 <= i < |db| ==> !(db[i].modulo == modulo && db[i].aula == aula)
  {
    if db == [] then None
    else if db[0].modulo == modulo && db[0].aula == aula then Some(db[0])
    else
      var r := FindLesson(db[1..], modulo, aula);
      assert forall i :: 1 <= i < |db| ==> db[i] == db[1..][i - 1];
      r
  }

  /** The lookup returns the first lesson with that module and title. */
  lemma {:induction false} FindLessonFirst(db: Database, modulo: string, aula: string, i: nat)
    requires i < |db| && db[i].modulo == modulo && db[i].aula == aula
    requires forall j :: 0 <= j < i ==> !(db[j].modulo == modulo && db[j].aula == aula)
    ensures FindLesson(db, modulo, aula) == Some(db[i])
  {
    if i > 0 {
      assert db[1..][i - 1] == db[i];
      forall j | 0 <= j < i - 1 ensures !(db[1..][j].modulo == modulo && db[1..][j].aula == aula) {
        assert db[1..][j] == db[j + 1];
      }
      FindLessonFirst(db[1..], modulo, aula, i - 1);
    }
  }

  /** A result card always opens a lesson: the lookup with the card's module and
      title finds one. */
  lemma ResultOpensLesson(db: Database, raw: string, m: Match)
    requires Search(db, raw).Results? && m in Search(db, raw).matches
    ensures FindLesson(db, m.modulo, m.aula).Some?
  {
    ResultsSound(db, raw, m);
    var i, j :| 0 <= i < |db| && 0 <= j < |db[i].trechos| &&
      m == Match(db[i].modulo, db[i].aula, db[i].trechos[j].time, db[i].trechos[j].text);
    assert db[i].modulo == m.modulo && db[i].aula == m.aula;
  }

  // ---------------------------------------------------------------------------
  // Rendering the segments

  /** One paragraph of the modal: the segment's time, its highlighted text,
      whether it gets the `highlight-text` class and whether it gets the
      `focus-line` id. */
  datatype Row = Row(time: string, html: string, highlighted: bool, focus: bool)

  /** `focusTime` as a JavaScript condition: absent (`null`) and the empty time
      are both false. */
  predicate Truthy(focusTime: Option<string>) {
    focusTime.Some? && focusTime.value != []
  }

  /** A segment is highlighted when there are words and its highlighted text
      contains `<mark>`. */
  predicate Marked(item: Lesson, words: seq<string>, k: nat)
    requires k < |item.trechos|
  {
    |words| > 0 && Contains(Highlight(item.trechos[k].text, words), Open)
  }

  /** Where the focus goes, stated over the whole lesson: with a focus time, every
      highlighted segment at that time; without one, the first highlighted
      segment only. */
  predicate Focused(item: Lesson, words: seq<string>, focusTime: Option<string>, k: nat)
    requires k < |item.trechos|
  {
    Marked(item, words, k) &&
    if Truthy(focusTime) then item.trechos[k].time == focusTime.value
    else forall j :: 0 <= j < k ==> !Marked(item, words, j)
  }

  /** The rendered paragraphs, one per segment, in transcript order. */
  function ModalRows(item: Lesson, words: seq<string>, focusTime: Option<string>): seq<Row>
  {
    seq(|item.trechos|, k requires 0 <= k < |item.trechos| =>
      Row(item.trechos[k].time, Highlight(item.trechos[k].text, words),
          Marked(item, words, k), Focused(item, words, focusTime, k)))
  }

  /** `renderModalContent` as written: one pass over the segments, threading the
      `firstMatchIdAssigned` flag. */
  method RenderModalContent(item: Lesson, words: seq<string>, focusTime: Option<string>) returns (rows: seq<Row>)
    ensures rows == ModalRows(item, words, focusTime)
  {
    var firstMatchIdAssigned := false;
    rows := [];
    var k := 0;
    while k < |item.trechos|
      invariant 0 <= k <= |item.trechos|
      invariant rows == ModalRows(item, words, focusTime)[..k]
      invariant !Truthy(focusTime) ==> (firstMatchIdAssigned <==> MarkedBefore(item, words, k))
    {
      ghost var flag := firstMatchIdAssigned;
      var t := item.trechos[k];
      var html := HighlightText(t.text, words);
      var highlighted := false;
      var focus := false;
      if |words| > 0 && Contains(html, Open) {
        highlighted := true;
        if focusTime.Some? && focusTime.value != [] && t.time == focusTime.value {
          focus := true;
          firstMatchIdAssigned := true;
        } else if !(focusTime.Some? && focusTime.value != []) && !firstMatchIdAssigned {
          focus := true;
          firstMatchIdAssigned := true;
        }
      }
      RowAt(item, words, focusTime, k, flag);
      rows := rows + [Row(t.time, html, highlighted, focus)];
      k := k + 1;
    }
  }

  /** Some segment before the `k`-th is highlighted. */
  predicate MarkedBefore(item: Lesson, words: seq<string>, k: nat)
    requires k <= |item.trechos|
  {
    exists j :: 0 <= j < k && Marked(item, words, j)
  }

  /** One step of the loop: the `k`-th row as the loop body builds it from the
      flag, and the flag afterwards. */
  lemma RowAt(item: Lesson, words: seq<string>, focusTime: Option<string>, k: nat, flag: bool)
    requires k < |item.trechos|
    requires !Truthy(focusTime) ==> (flag <==> MarkedBefore(item, words, k))
    ensures ModalRows(item, words, focusTime)[..k + 1] == ModalRows(item, words, focusTime)[..k] +
      [Row(item.trechos[k].time, Highlight(item.trechos[k].text, words), Marked(item, words, k),
           Marked(item, words, k) && (if Truthy(focusTime) then item.trechos[k].time == focusTime.value else !flag))]
    ensures MarkedBefore(item, words, k + 1) <==> MarkedBefore(item, words, k) || Marked(item, words, k)
  {
    var rs := ModalRows(item, words, focusTime);
    assert rs[..k + 1] == rs[..k] + [rs[k]];
    if MarkedBefore(item, words, k + 1) && !Marked(item, words, k) {
      var j :| 0 <= j < k + 1 && Marked(item, words, j);
      assert j < k;
    }
  }

  /** Every focused segment is highlighted, and without search words nothing is
      highlighted or focused and the text is shown as it is. */
  lemma FocusNeedsMark(item: Lesson, words: seq<string>, focusTime: Option<string>, k: nat)
    requires k < |item.trechos|
    ensures ModalRows(item, words, focusTime)[k].focus ==> ModalRows(item, words, focusTime)[k].highlighted
    ensures words == [] ==>
      (!ModalRows(item, words, focusTime)[k].highlighted && ModalRows(item, words, focusTime)[k].html == item.trechos[k].text)
  {
  }

  /** Without a focus time at most one segment is focused. */
  lemma AtMostOneFocus(item: Lesson, words: seq<string>, focusTime: Option<string>, a: nat, b: nat)
    requires !Truthy(focusTime)
    requires a < b < |item.trechos|
    ensures !(ModalRows(item, words, focusTime)[a].focus && ModalRows(item, words, focusTime)[b].focus)
  {
  }

  /** Without a focus time, a lesson with a highlighted segment has its first
      highlighted segment focused. */
  lemma FirstMarkFocused(item: Lesson, words: seq<string>, focusTime: Option<string>, k: nat)
    requires !Truthy(focusTime)
    requires k < |item.trechos| && Marked(item, words, k)
    ensures exists f :: 0 <= f <= k && ModalRows(item, words, focusTime)[f].focus
  {
    var f := FirstMarked(item, words, k);
    assert ModalRows(item, words, focusTime)[f].focus;
  }

  /** The first highlighted segment at or before a highlighted one. */
  lemma {:induction false} FirstMarked(item: Lesson, words: seq<string>, k: nat) returns (f: nat)
    requires k < |item.trechos| && Marked(item, words, k)
    ensures f <= k && Marked(item, words, f)
    ensures forall j :: 0 <= j < f ==> !Marked(item, words, j)
    decreases k
  {
    if exists j :: 0 <= j < k && Marked(item, words, j) {
      var j :| 0 <= j < k && Marked(item, words, j);
      f := FirstMarked(item, words, j);
    } else {
      f := k;
    }
  }

  /** With a focus time there is no fallback: when no highlighted segment has
      that time, no segment is focused. */
  lemma NoFallbackWithFocusTime(item: Lesson, words: seq<string>, focusTime: Option<string>, k: nat)
    requires Truthy(focusTime) && k < |item.trechos|
    requires forall j :: 0 <= j < |item.trechos| && Marked(item, words, j) ==> item.trechos[j].time != focusTime.value
    ensures !ModalRows(item, words, focusTime)[k].focus
  {
  }

  /** A plain `>` in a segment hides the words before it from the highlighter,
      because the lookahead reaches it before any `<`. The segment "sql > x" is
      found by a search for "sql", but its highlighted text has no `<mark>`,
      so in the modal it is neither highlighted nor focused. */
  lemma GreaterThanHidesMatch(item: Lesson)
    requires |item.trechos| == 1 && item.trechos[0].text == "sql > x"
    ensures HasAllWords(["sql"], item.trechos[0].text)
    ensures Highlight(item.trechos[0].text, ["sql"]) == "sql > x"
    ensures !Marked(item, ["sql"], 0)
  {
    SqlFound();
    SqlNotHighlighted();
  }

  /** The search filter accepts "sql > x" for the word "sql". */
  lemma SqlFound()
    ensures HasAllWords(["sql"], "sql > x")
  {
    assert OccursAt("sql > x", "sql", 0);
    NormalizeNormal("sql > x");
  }

  /** The highlighter treats "sql " as the inside of a tag and leaves the text as it is. */
  lemma SqlNotHighlighted()
    ensures Highlight("sql > x", ["sql"]) == "sql > x"
  {
    HighlightSkipsTagText("sql ", " x", ["sql"]);
    assert "sql " + ">" + " x" == "sql > x";
    SqlAbsent();
  }

  /** After the `>` there is nothing to wrap. */
  lemma SqlAbsent()
    ensures Highlight(" x", ["sql"]) == " x"
  {
    assert SortByLength(["sql"]) == ["sql"] by {
      assert ["sql"][1..] == [] && SortBy(ByLength, ["sql"]) == Insert(ByLength, "sql", []);
    }
  }

  // ---------------------------------------------------------------------------
  // The modal's own search box

  /** What an edit of the modal's search box does: re-render, and scroll to the
      focused line. */
  datatype Gate = Gate(render: bool, scroll: bool)

  /** The input handler's conditions, `searchWords.length > 0 || rawVal === ''`
      to re-render and `searchWords.length > 0` to scroll, stated on the typed
      text itself: the box scrolls exactly when it holds a character that is
      neither whitespace nor a combining mark, and re-renders when it scrolls
      or holds only whitespace. */
  function InputGate(raw: string): (g: Gate)
    ensures g.scroll <==> exists i :: 0 <= i < |raw| && !IsSpace(raw[i]) && !IsCombining(raw[i])
    ensures g.render <==> g.scroll || forall i :: 0 <= i < |raw| ==> IsSpace(raw[i])
  {
    var words := QueryWords(raw);
    QueryWordsEmpty(raw);
    TrimEmpty(raw);
    Gate(words != [] || Trim(raw) == [], words != [])
  }

  /** Clearing the box re-renders the lesson without highlights and without
      scrolling. */
  lemma ClearedBoxShowsPlainText(item: Lesson, raw: string, k: nat)
    requires Trim(raw) == [] && k < |item.trechos|
    ensures InputGate(raw) == Gate(true, false)
    ensures var row := ModalRows(item, QueryWords(raw), None);
      row[k].html == item.trechos[k].text && !row[k].highlighted && !row[k].focus
  {
    assert Normalize([]) == [];
  }

  /** Input that is not blank but has no words once normalized, such as a lone
      combining accent, leaves the modal as it was. */
  lemma AccentOnlyInputIgnored()
    ensures InputGate("\U{0301}") == Gate(false, false)
  {
    assert Trim("\U{0301}") == "\U{0301}";
    assert Normalize("\U{0301}") == [];
  }

  lemma {:induction false} JoinNormal(ws: seq<string>)
    requires forall k :: 0 <= k < |ws| ==> IsNormal(ws[k])
    ensures IsNormal(Join(ws))
  {
    if |ws| > 1 {
      JoinNormal(ws[1..]);
      assert IsNormal(" ");
    }
  }

  lemma {:induction false} JoinEdges(ws: seq<string>)
    requires WellFormed(ws) && ws != []
    ensures Join(ws) != [] && Join(ws)[0] == ws[0][0]
    ensures Join(ws)[|Join(ws)| - 1] == ws[|ws| - 1][|ws[|ws| - 1]| - 1]
  {
    if |ws| > 1 {
      JoinEdges(ws[1..]);
    }
  }

  /** Text that neither starts nor ends with whitespace is its own trim. */
  lemma TrimKeeps(s: string)
    requires s != [] && !IsSpace(s[0]) && !IsSpace(s[|s| - 1])
    ensures Trim(s) == s
  {
  }

  /** Opening the modal from a search fills its box with the search words joined
      by spaces; reading that box back gives the same words, so editing it
      starts from the global search. */
  lemma PrefillRoundTrip(raw: string)
    ensures QueryWords(Join(QueryWords(raw))) == QueryWords(raw)
  {
    var ws := QueryWords(raw);
    QueryWordsNormal(raw);
    if ws != [] {
      JoinEdges(ws);
      assert NoSpace(ws[0]) && NoSpace(ws[|ws| - 1]);
      TrimKeeps(Join(ws));
    }
    JoinNormal(ws);
    NormalizeNormal(Join(ws));
    WordsJoin(ws);
  }

  // ---------------------------------------------------------------------------
  // The modal's state

  /** The modal: the lesson it shows (`currentModalItem`), the value of its
      search box and the rendered paragraphs. */
  class ModalView {
    var current: Option<Lesson>
    var input: string
    var rows: seq<Row>

    /** Closed and empty. */
    constructor()
      ensures current == None && input == [] && rows == []
    {
      current := None;
      input := [];
      rows := [];
    }

    /** `openModal`: nothing happens when the lesson is not found; otherwise the
        lesson is shown, the box is filled with the words, the paragraphs are
        rendered with the focus time and a scroll to the focused line is
        requested. */
    method Open(db: Database, modulo: string, aula: string, focusTime: Option<string>, words: seq<string>)
      returns (scroll: bool)
      modifies this
      ensures FindLesson(db, modulo, aula).None? ==>
        current == old(current) && input == old(input) && rows == old(rows) && !scroll
      ensures FindLesson(db, modulo, aula).Some? ==>
        current == FindLesson(db, modulo, aula) &&
        input == (if |words| > 0 then Join(words) else []) &&
        rows == ModalRows(current.value, words, focusTime) && scroll
    {
      var item := FindLesson(db, modulo, aula);
      if item.None? {
        return false;
      }
      current := item;
      if |words| > 0 {
        input := Join(words);
      } else {
        input := [];
      }
      rows := RenderModalContent(item.value, words, focusTime);
      scroll := true;
    }

    /** `closeModal`: no lesson is shown and the box is emptied. */
    method Close()
      modifies this
      ensures current == None && input == [] && rows == old(rows)
    {
      current := None;
      input := [];
    }

    /** The box's input handler, with `value` the new content of the box:
        nothing is re-rendered while no lesson is shown; otherwise the gate
        decides whether the lesson is re-rendered with the box's words and no
        focus time, and whether to scroll. */
    method OnInput(value: string) returns (scroll: bool)
      modifies this
      ensures input == value && current == old(current)
      ensures old(current).None? ==> rows == old(rows) && !scroll
      ensures old(current).Some? ==>
        scroll == InputGate(value).scroll &&
        rows == (if InputGate(value).render then ModalRows(current.value, QueryWords(value), None) else old(rows))
    {
      input := value;
      if current.None? {
        return false;
      }
      var words := QueryWords(value);
      scroll := false;
      if |words| > 0 || Trim(value) == [] {
        rows := RenderModalContent(current.value, words, None);
        if |words| > 0 {
          scroll := true;
        }
      }
    }
  }
}
