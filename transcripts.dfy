/** The transcript database the search page works on: lessons ("aulas") grouped
    into modules ("módulos"), each lesson split into timestamped segments
    ("trechos"). The database is a read-only snapshot handed to every operation. */
module Transcripts {

  /** One timestamped stretch of transcript text. The time is an opaque label
      ("12:34"): it is shown and compared for equality, never parsed. */
  datatype Segment = Segment(time: string, text: string)

  /** A lesson: its module label, its title and its segments in transcript order. */
  datatype Lesson = Lesson(modulo: string, aula: string, trechos: seq<Segment>)

  type Database = seq<Lesson>

  /** A search hit: the lesson's module and title with the segment's time and text,
      all copied unchanged. */
  datatype Match = Match(modulo: string, aula: string, time: string, text: string)

  datatype Option<T> = None | Some(value: T)

  /** Every segment of a lesson as a `Match` record, in transcript order. */
  function LessonEntries(l: Lesson): seq<Match>
  {
    seq(|l.trechos|, j requires 0 <= j < |l.trechos| => Match(l.modulo, l.aula, l.trechos[j].time, l.trechos[j].text))
  }

  /** Every segment of the database in traversal order: lesson by lesson, and
      within a lesson segment by segment. */
  function Entries(db: Database): seq<Match>
  {
    if db == [] then [] else LessonEntries(db[0]) + Entries(db[1..])
  }

  /** Traversal order is database order: the entries of a concatenation are the
      concatenation of the entries. */
  lemma {:induction false} EntriesAppend(a: Database, b: Database)
    ensures Entries(a + b) == Entries(a) + Entries(b)
  {
    if a == [] {
      assert a + b == b;
    } else {
      assert (a + b)[1..] == a[1..] + b;
      EntriesAppend(a[1..], b);
    }
  }

  /** An entry is exactly a segment of some lesson, carrying that lesson's labels. */
  lemma {:induction false} InEntries(db: Database, m: Match)
    ensures m in Entries(db) <==>
      exists i, j :: 0 <= i < |db| && 0 <= j < |db[i].trechos| &&
        m == Match(db[i].modulo, db[i].aula, db[i].trechos[j].time, db[i].trechos[j].text)
  {
    if db != [] {
      InEntries(db[1..], m);
      if m in LessonEntries(db[0]) {
        var j :| 0 <= j < |LessonEntries(db[0])| && LessonEntries(db[0])[j] == m;
        assert 0 <= 0 < |db| && 0 <= j < |db[0].trechos|;
      }
      if exists i, j :: 0 <= i < |db| && 0 <= j < |db[i].trechos| &&
          m == Match(db[i].modulo, db[i].aula, db[i].trechos[j].time, db[i].trechos[j].text) {
        var i, j :| 0 <= i < |db| && 0 <= j < |db[i].trechos| &&
          m == Match(db[i].modulo, db[i].aula, db[i].trechos[j].time, db[i].trechos[j].text);
        if i == 0 {
          assert LessonEntries(db[0])[j] == m;
        } else {
          assert db[1..][i - 1] == db[i];
        }
      }
    }
  }
}
