# Transcript search: a verified model

This project models the core of a single-page transcript search site in Dafny.
The site ships a database of course lessons. Each lesson has a module name, a
title and a list of timed transcript segments. The page offers:

- a global search, `performSearch`. It normalizes the query, requires a first
  word of two or more characters and keeps every segment that contains all the
  words. Results come in database order, capped at 100.
- a highlighter, `highlightText`. It wraps each query word in `<mark>`..`</mark>`,
  longest word first. Matching ignores accents and case, and a lookahead keeps
  it from matching inside a tag.
- a browse view, `renderBrowseView`. It groups the lessons by module, drops
  duplicate titles, and sorts the modules and titles with a natural comparator.
- a full-text modal. `openModal` finds the lesson, `renderModalContent` renders
  its segments and picks the line to scroll to, and the modal's own search box
  re-renders as it is edited.

Modules, one per file:

- `Transcripts` (transcripts.dfy): segments, lessons, the database and the
  match record. The segments of the database are listed in order.
- `Text` (normalize.dfy): `normalizeString`, `trim`, and the tokenizer
  `split(/\s+/).filter(...)`, with their properties.
- `GlobalSearch` (search.dfy): the search, as a specification function
  `Search` and as the loop `PerformSearch` proved equal to it.
- `Sorting` (sorting.dfy): the stable sort driven by a comparator, shared by
  the highlighter and the browse view.
- `Highlighter` (highlight.dfy): the accent classes of `createAccentRegex`, the
  case-insensitive character test, one word's global replace with the
  lookahead as a left-to-right scan, the comparator by length, and `highlightText`
  as a function and as the loop `HighlightText`.
- `Browse` (browse.dfy): the grouping map and the sorted index, as functions
  and as the loops `GroupLessons` and `RenderBrowseView`.
- `Modal` (modal.dfy): the lookup, the rendered rows with their focus flag (a
  function and the loop `RenderModalContent`), the input gate, and the class
  `ModalView`. The class holds the open lesson (`currentModalItem`), the box's
  value and the rendered rows.

Behaviours of the code that are easy to get wrong; the model follows the code:

- Nested markers do occur. Highlighting "sql" with the words "sq" and "sql"
  gives `<mark><mark>sq</mark>l</mark>`, because the text after the inner "sq"
  reaches the `<` of `</mark>` before any `>`. See `Highlighter.NestedMarks`.
- With a focus time, every highlighted segment at that time gets the focus id,
  not just one.
- A match record holds module, title, time and text. The query words are passed
  alongside it, not stored in it.
- The normalizer folds more letters than the highlighter's accent classes do.
  For example `ü` normalizes to `u`, but it is in no class. A search finds
  "lingüiça" for "linguica" but does not highlight it. See
  `Highlighter.DiaeresisNotHighlighted`.
- A plain `>` in a segment stops the words before it from being highlighted,
  because the lookahead reaches that `>` before any `<`. The segment
  "sql > x" is found by a search for "sql" but gets no `<mark>`, so in the
  modal it is neither highlighted nor focused. See
  `Modal.GreaterThanHidesMatch`.
- A first word that is too short runs no search and clears the results, but
  it leaves the empty state as it was; only a query with no words at all
  switches it on.

## Model

| member | source | states |
|---|---|---|
| Transcripts.EntriesAppend | app.js:152-153 | the entries of two databases put together are the entries of the first followed by those of the second (lesson order, then segment order) |
| Transcripts.InEntries | app.js:152-165 | an entry is listed exactly when some lesson i and segment j of the database carry its module, title, time and text |
| Text.LowerSpec | app.js:21 | `toLowerCase` on the modelled letters: ASCII capitals shift by 32, non-capitals stay, and no capital is left |
| Text.FoldCharNormal | app.js:21 | folding a character gives a character the normalizer leaves alone |
| Text.Normalize | app.js:20-22 | `normalizeString` never makes the text longer |
| Text.NormalizeAppend | app.js:20-22 | normalizing works character by character: it distributes over concatenation |
| Text.NormalizeIsNormal | app.js:20-22 | the output contains no combining mark, no capital and no decomposable letter |
| Text.NormalizeNormal | app.js:20-22 | normalized text is a fixed point |
| Text.NormalizeNoCombining | app.js:20-22 | on text without combining marks the output has the same length and each character is folded in place |
| Text.NormalizeIdempotent | app.js:20-22 | normalizing twice is normalizing once |
| Text.NormalizeFoldsAccentsAndCase | app.js:21 | "Ação" and "acao" both normalize to "acao" |
| Text.TrimStart | app.js:125 | the result is a suffix of the input, everything cut off is whitespace, and it does not start with whitespace |
| Text.TrimEnd | app.js:125 | the result is a prefix of the input, everything cut off is whitespace, and it does not end with whitespace |
| Text.TrimEmpty | app.js:125 | the trimmed query is empty exactly when the raw query is all whitespace |
| Text.SplitWellFormed | app.js:127 | the tokenizer started with a whitespace-free partial word yields only non-empty, whitespace-free words |
| Text.WordsWellFormed | app.js:127 | query words are non-empty and contain no whitespace |
| Text.SplitConcat | app.js:127 | the tokenizer's words put back to back are the partial word followed by the non-whitespace characters of the input |
| Text.WordsConcat | app.js:127 | tokenizing loses only whitespace: the words, back to back, are the input's non-whitespace characters in order |
| Text.SplitAcrossWord | app.js:127 | a whitespace-free prefix is absorbed into the word being built |
| Text.WordsJoin | app.js:127 | tokenizing the words joined with single spaces gives back exactly those words |
| Text.FoldCharSpace | app.js:21 | folding a character neither creates nor removes whitespace |
| Text.NormalizeAllSpace | app.js:20-22 | normalized text is all whitespace exactly when every input character is whitespace or a combining mark |
| Text.SplitEmpty | app.js:127 | the tokenizer yields no word exactly when no word is being built and the rest is all whitespace |
| Text.TrimKeepsWordChars | app.js:125 | trimming keeps every character that is neither whitespace nor a combining mark |
| Text.QueryWordsEmpty | app.js:125-127 | a query has no words exactly when every typed character is whitespace or a combining mark |
| Text.QueryWordsNormal | app.js:125-127 | query words are well formed and every one is already normalized |
| Text.SplitSubstrings | app.js:126-127 | tokenizing normalized text yields normalized words |
| GlobalSearch.Contains | app.js:157 | `includes` holds exactly when the word occurs at some index of the text |
| GlobalSearch.Hits | app.js:152-166 | the kept entries are at most the entries, and an entry is kept exactly when it is an entry whose normalized text contains every word |
| GlobalSearch.HitsAppend | app.js:152-166 | filtering a concatenation is the concatenation of the filtered parts, so order is kept |
| GlobalSearch.HitsSnoc | app.js:159-166 | pushing one more segment adds it at the end exactly when it has all the words |
| GlobalSearch.EntriesSnoc | app.js:152-153 | the entries of the first i+1 lessons are those of the first i followed by lesson i's |
| GlobalSearch.PerformSearch | app.js:124-171 | the nested loops with `push` and `slice(0, 100)` compute exactly the specified outcome `Search(db, raw)` |
| GlobalSearch.SearchIdle | app.js:136-145 | no search runs exactly when there are no words or the first word is shorter than 2, and the empty state is switched on exactly when there are no words (otherwise it is left as it was) |
| GlobalSearch.BlankQueryIsIdle | app.js:125-143 | an all-whitespace query runs no search and switches the empty state on |
| GlobalSearch.ShortLaterWordRuns | app.js:136 | "sql a" runs a search: only the first word is gated |
| GlobalSearch.ShortLaterWordTokens | app.js:125-127 | "sql a" tokenizes to ["sql", "a"] |
| GlobalSearch.SplitExample | app.js:127 | the whitespace split of "sql a" is ["sql", "a"] |
| GlobalSearch.ResultsSound | app.js:152-166 | every result is segment j of lesson i with its module, title, time and text unchanged, and its normalized text contains every query word |
| GlobalSearch.ResultsComplete | app.js:152-171 | when at most 100 segments match, every matching segment is among the results |
| GlobalSearch.ResultsCapped | app.js:171 | at most 100 results |
| GlobalSearch.ResultsInDatabaseOrder | app.js:149-171 | for a database split in two, the results are the first 100 of the first part's matches followed by the second part's |
| Highlighter.AccentClassSpec | app.js:58-66 | a word character belongs to its class, and every member of the class normalizes like it |
| Highlighter.CharMatchesClass | app.js:58-77 | a text character matches a pattern character exactly when some member of its class equals it up to case (the `i` flag) |
| Highlighter.MatchesAtSpec | app.js:77 | a match at the start of the text covers a prefix as long as the word, each character matching the word's character at that place |
| Highlighter.CharMatchesSameFold | app.js:58-77 | a matched text character normalizes like the pattern character, and is a combining mark only if the pattern character is one |
| Highlighter.AngleOnlyMatchesItself | app.js:77 | only `<` matches `<`, and only `>` matches `>` |
| Highlighter.CharMatchesKeepsAngles | app.js:77 | the highlighter's character test keeps angle brackets literal |
| Highlighter.CopyFirst | app.js:78 | where no occurrence is wrapped, the replace copies one character and goes on |
| Highlighter.TagUntouchedAppend | app.js:77-78 | a word's replace leaves the inside of a tag and its `>` as they are and continues after it |
| Highlighter.NoWrapBeforeGt | app.js:77 | an occurrence starting before a `>` with no angle bracket in between is never wrapped |
| Highlighter.ClosesFirstAt | app.js:77 | text whose first angle bracket is `>` makes the lookahead `(?![^<]*>)` fail |
| Highlighter.StripNoLt | app.js:78 | deleting markers leaves text without `<` as it is |
| Highlighter.PrefixBeforeMarker | app.js:78 | a prefix of a word's replace output that has no `<` is a prefix of the input |
| Highlighter.MatchNoLt | app.js:77 | a matched span of a word without angle brackets contains no `<` |
| Highlighter.ReplaceStrip | app.js:78 | deleting the markers from one word's replace output gives what deleting them from the input gives |
| Highlighter.WrapStrip | app.js:78 | the same, where the replace wraps an occurrence at the start |
| Highlighter.CopyStrip | app.js:78 | the same, where the replace copies a character other than `<` |
| Highlighter.MarkerStrip | app.js:78 | the same, where the text starts with an existing marker |
| Highlighter.LtStrip | app.js:78 | the same, where the text starts with a `<` that starts no marker |
| Highlighter.ByLengthTotal | app.js:69 | the comparator `b.length - a.length` is a total preorder |
| Highlighter.SortByLengthSpec | app.js:69 | the sorted words come out longest first and are a permutation of the words |
| Highlighter.HighlightText | app.js:52-82 | the loop over the sorted words computes exactly `Highlight(text, words)` |
| Highlighter.ApplyShortWords | app.js:72 | words shorter than 2 are skipped by the `forEach` |
| Highlighter.ShortWordsNoOp | app.js:53-72 | with only words shorter than 2 (including no words) the text comes back unchanged |
| Highlighter.ApplyWordsStrip | app.js:71-79 | after all the words, deleting the markers gives what deleting them from the input gives |
| Highlighter.HighlightStrip | app.js:52-82 | round trip: deleting the markers from the highlighted text gives the markers-deleted input |
| Highlighter.HighlightRoundTrip | app.js:52-82 | for text without `<`, deleting the markers from the highlighted text gives back exactly the text |
| Highlighter.ApplyWordsTag | app.js:71-79 | across all the words, the inside of a tag followed by `>` is left as it is |
| Highlighter.HighlightSkipsTagText | app.js:52-82 | the highlighted text of tag-inside + `>` + rest is the tag-inside, `>`, then the highlight of the rest |
| Highlighter.MatchNormalizesToWord | app.js:58-77 | a span matched by a normalized word normalizes to that word, so every highlight is an occurrence as search sees it |
| Highlighter.CoveredMatches | app.js:58-77 | a Portuguese letter or digit, in either case, matches the pattern character of its normal form |
| Highlighter.HighlightNormalizedWord | app.js:52-82 | a word of Portuguese letters highlighted with its own normalized form is wrapped whole, keeping its accents and case |
| Highlighter.DiaeresisNotHighlighted | app.js:64 | `ü` normalizes to `u` but is not matched by `u`'s class |
| Highlighter.NestedMarks | app.js:69-78 | highlighting "sql" with ["sq", "sql"] gives `<mark><mark>sq</mark>l</mark>` |
| Highlighter.WrapWholeWord | app.js:77-78 | "sql" in "sql" is wrapped whole |
| Highlighter.WrapInsideMark | app.js:77-78 | "sq" is wrapped again inside `<mark>sql</mark>` |
| Highlighter.LtNotWrapped | app.js:77 | a word without angle brackets is never wrapped at a `<` |
| Highlighter.WrapBeforeClose | app.js:77-78 | "sq" followed by "l</mark>" is wrapped, because the lookahead meets `<` first |
| Highlighter.CopyTail | app.js:77-78 | "l</mark>" is copied unchanged by the replace of "sq" |
| Sorting.InsertPerm | app.js:222-225 | inserting keeps the same elements plus the new one |
| Sorting.InsertSorted | app.js:222-225 | inserting into a list in comparator order keeps it in order |
| Sorting.SortBySpec | app.js:222-225 | with a total preorder the sorted list is in comparator order and a permutation of the input |
| Sorting.SortByPerm | app.js:222-225 | whatever the comparator, the sort only reorders |
| Browse.AddLessonValid | app.js:211-218 | one `forEach` step keeps the keys unique, in step with the map, and every title list free of duplicates |
| Browse.AddLessonContents | app.js:211-218 | after one step a module is a key exactly when it was one or is the lesson's, and a title is listed exactly when it was or is the lesson's |
| Browse.GroupedValid | app.js:209-219 | after the whole `forEach` the keys are unique and match the map, and title lists are free of duplicates |
| Browse.GroupedContents | app.js:209-219 | a module is a key exactly when some lesson has it, and a title is listed under it exactly when some lesson has both |
| Browse.SortedKeysInMap | app.js:222-225 | every sorted module name is a key of the map |
| Browse.GroupedSnoc | app.js:211 | the map after i+1 lessons is one step past the map after i |
| Browse.GroupLessons | app.js:209-219 | the loop that fills the map in place builds exactly `Grouped(db)` |
| Browse.RenderBrowseView | app.js:205-251 | the loop over the sorted modules builds exactly `BrowseIndex(db, leq)` |
| Browse.ModulesOnce | app.js:209-224 | a module has a box exactly when some lesson has it, and no two boxes have the same module |
| Browse.TitlesOnce | app.js:211-225 | in every box a title is listed exactly when some lesson of the box's module has it, and it is listed once |
| Browse.IndexSorted | app.js:222-225 | the boxes come in comparator order of their modules, and each box's titles are in comparator order |
| Browse.EveryLessonListed | app.js:209-225 | every (module, title) pair of the database appears in its module's box |
| Modal.FindLesson | app.js:311-312 | a found lesson is in the database with that module and title, and nothing is found exactly when no lesson has both |
| Modal.FindLessonFirst | app.js:311 | the lookup returns the first lesson, in database order, with that module and title |
| Modal.ResultOpensLesson | app.js:311-312 | a result card's module and title always find a lesson |
| Modal.RenderModalContent | app.js:261-298 | the loop with the `firstMatchIdAssigned` flag computes exactly `ModalRows`, where each row holds the time and highlighted text, is highlighted exactly when there are words and the text has `<mark>`, and is focused per the focus rule |
| Modal.RowAt | app.js:273-285 | one loop step: the row built from the flag, and the flag afterwards is "some earlier segment was highlighted" |
| Modal.FocusNeedsMark | app.js:273 | a focused row is highlighted, and with no words no row is highlighted or focused and the text is shown as it is |
| Modal.AtMostOneFocus | app.js:282-285 | without a focus time at most one row is focused |
| Modal.FirstMarkFocused | app.js:282-285 | without a focus time, when a segment is highlighted some row at or before it is focused |
| Modal.FirstMarked | app.js:282-285 | a highlighted segment has a first highlighted segment at or before it |
| Modal.NoFallbackWithFocusTime | app.js:277-285 | with a focus time that no highlighted segment has, no row is focused |
| Modal.InputGate | app.js:348-360 | stated on the typed text: the modal scrolls exactly when the box holds a character that is neither whitespace nor a combining mark, and re-renders exactly when it scrolls or the box holds only whitespace |
| Modal.GreaterThanHidesMatch | app.js:273 | a segment "sql > x" has every search word, yet its highlighted text is unchanged and the row is not highlighted |
| Modal.ClearedBoxShowsPlainText | app.js:354-360 | a cleared box re-renders without scrolling, every row shows its plain text, and nothing is highlighted or focused |
| Modal.AccentOnlyInputIgnored | app.js:348-354 | a lone combining accent is not blank but has no words, so nothing is re-rendered |
| Modal.JoinNormal | app.js:322 | joining normalized words with spaces gives normalized text |
| Modal.JoinEdges | app.js:322 | the joined words start with the first word's first character and end with the last word's last character |
| Modal.TrimKeeps | app.js:348 | text that neither starts nor ends with whitespace is its own trim |
| Modal.PrefillRoundTrip | app.js:321-350 | the box prefilled with the search words reads back as the same words |
| Modal.ModalView.constructor | app.js:259 | no lesson open, empty box, no rows |
| Modal.ModalView.Open | app.js:309-335 | with no lesson found nothing changes and there is no scroll; otherwise the first matching lesson is current, the box holds the words joined by spaces (or is empty), the rows are rendered with the focus time, and a scroll is requested |
| Modal.ModalView.Close | app.js:337-342 | no lesson is current and the box is empty |
| Modal.ModalView.OnInput | app.js:345-362 | with no lesson open nothing is re-rendered; otherwise the rows are re-rendered with the box's words and no focus time exactly when the gate says so, and the scroll follows the gate |

## Left out

- The DOM is not modelled: element lookups, `innerHTML` and the template strings, `style.display`, class lists, the event listener wiring, `switchTab` and the overlay click handler. A rendered row or index entry stands in for its markup.
- `renderResults` (the result cards and the count text) is not modelled beyond the list it is given.
- `loadDatabase` and the `window.dataBaseAulas` global are not modelled; the database is a parameter.
- `scrollToFocus` and its timer are not modelled; only the decision to scroll is.
- The clear button's handler and the clear button's visibility are not modelled.
- Text.Normalize: Unicode NFD and `toLowerCase` are modelled by a table over Latin-1 only. Other characters pass through unchanged, while the real functions also fold letters beyond Latin-1.
- Highlighter.CharMatches: the `i` flag is modelled by the same Latin-1 case table.
- Strings are sequences of characters, not of UTF-16 code units. Characters outside the Basic Multilingual Plane are one element here, not two.
- Query words are not regex-escaped in the source. Words containing regex syntax such as `(`, `+` or `[` are matched literally here.
- The scan lemmas about tags and markers require words without `<` or `>`, as a word made of letters and digits is.
- Sorting.SortBy: `localeCompare` with numeric collation is a parameter `leq`, assumed only to be a total preorder. `Array.prototype.sort` is modelled as a stable insertion sort. The sorted order is proved for any such comparator; the engine's exact order among equal elements is not modelled.
- Text is not HTML-escaped by the source, and the model does not escape it either.
- An absent word list (`!searchWords`) is modelled as the empty list.
