/** The "Explorar" view (`renderBrowseView`): group the lessons by module in an
    insertion-ordered map from module to its list of distinct titles, then list
    the modules, and the titles of each module, sorted by the page's comparator.
    The comparator (`localeCompare` with numeric collation) is a parameter here,
    assumed only to be a total preorder, and the library sort it drives is a
    stable insertion sort. */
module Browse {
  import opened Transcripts
  import opened Sorting

  /** Each element occurs once. */
  predicate Unique(s: seq<string>) {
    forall x :: x in multiset(s) ==> multiset(s)[x] == 1
  }

  // ---------------------------------------------------------------------------
  // Grouping

  /** The map built by the `forEach`: the modules in the order they were first
      met (`Array.from(modulosMap.keys())`) and each module's titles. */
  datatype Groups = Groups(keys: seq<string>, titles: map<string, seq<string>>)

  /** One step of the `forEach`: create the module's list if the module is new,
      then append the title unless the list already has it. */
  function AddLesson(g: Groups, l: Lesson): Groups {
    var g1 := if l.modulo in g.titles then g else Groups(g.keys + [l.modulo], g.titles[l.modulo := []]);
    var ts := g1.titles[l.modulo];
    if l.aula in ts then g1 else Groups(g1.keys, g1.titles[l.modulo := ts + [l.aula]])
  }

  /** The map after the `forEach` over the lessons, from left to right. */
  function Grouped(db: Database): Groups
    decreases |db|
  {
    if db == [] then Groups([], map[]) else AddLesson(Grouped(db[..|db| - 1]), db[|db| - 1])
  }

  /** The keys list the map's keys once each, and every title list is free of
      duplicates. */
  ghost predicate Valid(g: Groups) {
    Unique(g.keys) && (forall k :: k in g.keys <==> k in g.titles) &&
    (forall k :: k in g.titles ==> Unique(g.titles[k]))
  }

  lemma AddLessonValid(g: Groups, l: Lesson)
    requires Valid(g)
    ensures Valid(AddLesson(g, l))
  {
  }

  /** A module's title list is exactly the titles of the lessons of that module. */
  lemma AddLessonContents(g: Groups, l: Lesson, k: string, t: string)
    requires Valid(g)
    ensures k in AddLesson(g, l).titles <==> k in g.titles || k == l.modulo
    ensures k in AddLesson(g, l).titles ==>
      (t in AddLesson(g, l).titles[k] <==> (k in g.titles && t in g.titles[k]) || (k == l.modulo && t == l.aula))
  {
  }

  /** The grouping invariant holds after any number of lessons. */
  lemma {:induction false} GroupedValid(db: Database)
    ensures Valid(Grouped(db))
    decreases |db|
  {
    if db != [] {
      GroupedValid(db[..|db| - 1]);
      AddLessonValid(Grouped(db[..|db| - 1]), db[|db| - 1]);
    }
  }

  /** A module is a key exactly when some lesson has it, and a title is listed
      under a module exactly when some lesson has that module and title. */
  lemma {:induction false} GroupedContents(db: Database, k: string, t: string)
    ensures k in Grouped(db).titles <==> exists i :: 0 <= i < |db| && db[i].modulo == k
    ensures k in Grouped(db).titles ==>
      (t in Grouped(db).titles[k] <==> exists i :: 0 <= i < |db| && db[i].modulo == k && db[i].aula == t)
    decreases |db|
  {
    if db != [] {
      var n := |db| - 1;
      var p := db[..n];
      GroupedValid(p);
      GroupedContents(p, k, t);
      AddLessonContents(Grouped(p), db[n], k, t);
      assert forall i :: 0 <= i < n ==> p[i] == db[i];
      if exists i :: 0 <= i < |db| && db[i].modulo == k {
        var i :| 0 <= i < |db| && db[i].modulo == k;
        assert i < n ==> p[i].modulo == k;
      }
      if exists i :: 0 <= i < |db| && db[i].modulo == k && db[i].aula == t {
        var i :| 0 <= i < |db| && db[i].modulo == k && db[i].aula == t;
        assert i < n ==> p[i].modulo == k && p[i].aula == t;
      }
    }
  }

  // ---------------------------------------------------------------------------
  // The index

  /** One box of the view: a module and its titles. */
  datatype ModuleEntry = ModuleEntry(modulo: string, aulas: seq<string>)

  /** The sorted keys are keys of the map. */
  lemma SortedKeysInMap(g: Groups, leq: Order)
    requires Valid(g)
    ensures forall i :: 0 <= i < |SortBy(leq, g.keys)| ==> SortBy(leq, g.keys)[i] in g.titles
  {
    SortByPerm(leq, g.keys);
    forall i | 0 <= i < |SortBy(leq, g.keys)| ensures SortBy(leq, g.keys)[i] in g.keys {
      assert SortBy(leq, g.keys)[i] in multiset(g.keys);
    }
  }

  /** The boxes in display order: the sorted modules, each with its sorted titles. */
  function BrowseIndex(db: Database, leq: Order): seq<ModuleEntry> {
    var g := Grouped(db);
    var mods := SortBy(leq, g.keys);
    GroupedValid(db);
    SortedKeysInMap(g, leq);
    seq(|mods|, i requires 0 <= i < |mods| => ModuleEntry(mods[i], SortBy(leq, g.titles[mods[i]])))
  }

  lemma GroupedSnoc(db: Database, i: nat)
    requires i < |db|
    ensures Grouped(db[..i + 1]) == AddLesson(Grouped(db[..i]), db[i])
  {
    assert db[..i + 1][..i] == db[..i];
  }

  /** The `forEach` of `renderBrowseView` as written: the map and its title
      lists are filled in place, lesson by lesson. */
  method GroupLessons(db: Database) returns (keys: seq<string>, titles: map<string, seq<string>>)
    ensures Groups(keys, titles) == Grouped(db)
  {
    keys := [];
    titles := map[];
    var i := 0;
    while i < |db|
      invariant 0 <= i <= |db|
      invariant Groups(keys, titles) == Grouped(db[..i])
    {
      var item := db[i];
      if item.modulo !in titles {
        keys := keys + [item.modulo];
        titles := titles[item.modulo := []];
      }
      if item.aula !in titles[item.modulo] {
        titles := titles[item.modulo := titles[item.modulo] + [item.aula]];
      }
      GroupedSnoc(db, i);
      i := i + 1;
    }
    assert db[..i] == db;
  }

  /** `renderBrowseView` as written: group the lessons, sort the modules, and
      build one box per module with its titles sorted. */
  method RenderBrowseView(db: Database, leq: Order) returns (index: seq<ModuleEntry>)
    ensures index == BrowseIndex(db, leq)
  {
    var keys, titles := GroupLessons(db);
    var mods := SortBy(leq, keys);
    IndexBoxes(db, leq);
    index := [];
    var j := 0;
    while j < |mods|
      invariant 0 <= j <= |mods|
      invariant index == BrowseIndex(db, leq)[..j]
    {
      var aulas := SortBy(leq, titles[mods[j]]);
      index := index + [ModuleEntry(mods[j], aulas)];
      PrefixSnoc(BrowseIndex(db, leq), j);
      j := j + 1;
    }
  }

  /** The boxes of the index, one by one: box `b` is the `b`-th sorted module,
      a key of the map, with its sorted titles. */
  lemma IndexBoxes(db: Database, leq: Order)
    ensures var g := Grouped(db); var mods := SortBy(leq, g.keys);
      |BrowseIndex(db, leq)| == |mods| &&
      forall b :: 0 <= b < |mods| ==>
        (mods[b] in g.titles && BrowseIndex(db, leq)[b] == ModuleEntry(mods[b], SortBy(leq, g.titles[mods[b]])))
  {
    GroupedValid(db);
    SortedKeysInMap(Grouped(db), leq);
  }

  lemma PrefixSnoc(s: seq<ModuleEntry>, j: nat)
    requires j < |s|
    ensures s[..j + 1] == s[..j] + [s[j]]
  {
  }

  /** Every module of the database has a box, every box is a module of the
      database, and no two boxes have the same module. */
  lemma ModulesOnce(db: Database, leq: Order, k: string)
    ensures var index := BrowseIndex(db, leq);
      ((exists b :: 0 <= b < |index| && index[b].modulo == k) <==> exists i :: 0 <= i < |db| && db[i].modulo == k) &&
      (forall a, b :: 0 <= a < b < |index| ==> index[a].modulo != index[b].modulo)
  {
    var g := Grouped(db);
    var mods := SortBy(leq, g.keys);
    var index := BrowseIndex(db, leq);
    GroupedValid(db);
    SortByPerm(leq, g.keys);
    GroupedContents(db, k, []);
    assert forall b :: 0 <= b < |index| ==> index[b].modulo == mods[b];
    assert k in mods <==> k in multiset(g.keys);
    if k in mods {
      var b :| 0 <= b < |mods| && mods[b] == k;
      assert index[b].modulo == k;
    }
    forall a, b | 0 <= a < b < |index| ensures index[a].modulo != index[b].modulo {
      if mods[a] == mods[b] {
        CountedTwice(mods, a, b);
      }
    }
  }

  /** An element at two positions of a list occurs at least twice. */
  lemma CountedTwice(s: seq<string>, a: nat, b: nat)
    requires a < b < |s| && s[a] == s[b]
    ensures multiset(s)[s[a]] >= 2
  {
    assert s == s[..b] + [s[b]] + s[b + 1..];
    assert s[a] in multiset(s[..b]);
  }

  /** Under each box's module every title of that module's lessons appears
      exactly once, and nothing else does. */
  lemma TitlesOnce(db: Database, leq: Order, b: nat, t: string)
    requires b < |BrowseIndex(db, leq)|
    ensures var box := BrowseIndex(db, leq)[b];
      (t in box.aulas <==> exists i :: 0 <= i < |db| && db[i].modulo == box.modulo && db[i].aula == t) &&
      (t in box.aulas ==> multiset(box.aulas)[t] == 1)
  {
    var g := Grouped(db);
    var mods := SortBy(leq, g.keys);
    GroupedValid(db);
    SortedKeysInMap(g, leq);
    var k := mods[b];
    assert BrowseIndex(db, leq)[b] == ModuleEntry(k, SortBy(leq, g.titles[k]));
    GroupedContents(db, k, t);
    SortByPerm(leq, g.titles[k]);
    assert t in SortBy(leq, g.titles[k]) <==> t in multiset(g.titles[k]);
  }

  /** The boxes come in comparator order of their modules, and the titles inside
      each box are in comparator order. */
  lemma IndexSorted(db: Database, leq: Order)
    requires TotalPreorder(leq)
    ensures var index := BrowseIndex(db, leq);
      (forall i, j :: 0 <= i < j < |index| ==> leq(index[i].modulo, index[j].modulo)) &&
      (forall i :: 0 <= i < |index| ==> Sorted(leq, index[i].aulas))
  {
    var g := Grouped(db);
    var mods := SortBy(leq, g.keys);
    IndexBoxes(db, leq);
    SortBySpec(leq, g.keys);
    forall i | 0 <= i < |mods| ensures Sorted(leq, BrowseIndex(db, leq)[i].aulas) {
      SortBySpec(leq, g.titles[mods[i]]);
    }
  }

  /** Every (module, title) pair of the database is shown: in the box of its
      module, which is the only box with that module. */
  lemma EveryLessonListed(db: Database, leq: Order, i: nat)
    requires i < |db|
    ensures var index := BrowseIndex(db, leq);
      exists b :: 0 <= b < |index| && index[b].modulo == db[i].modulo && db[i].aula in index[b].aulas
  {
    var index := BrowseIndex(db, leq);
    ModulesOnce(db, leq, db[i].modulo);
    var b :| 0 <= b < |index| && index[b].modulo == db[i].modulo;
    TitlesOnce(db, leq, b, db[i].aula);
  }
}
