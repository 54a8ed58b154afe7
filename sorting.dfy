/** The stable sort behind `Array.prototype.sort` with a comparator, used by
    the highlighter (longest word first) and by the browse view (natural
    order of module names and titles). A comparator is given by the relation
    "may come before"; the library sort is modelled as a stable insertion
    sort. */
module Sorting {

  /** `leq(a, b)`: `a` may come before `b`, that is, the comparator gives a
      result of at most 0 for `(a, b)`. */
  type Order = (string, string) -> bool

  /** Any two elements are comparable, and the relation is transitive. */
  ghost predicate TotalPreorder(leq: Order) {
    (forall a, b :: leq(a, b) || leq(b, a)) &&
    (forall a, b, c :: leq(a, b) && leq(b, c) ==> leq(a, c))
  }

  /** Every element may come before every later one. */
  predicate Sorted(leq: Order, s: seq<string>) {
    forall i, j :: 0 <= i < j < |s| ==> leq(s[i], s[j])
  }

  /** Inserts `x` ahead of the first element it may precede. */
  function Insert(leq: Order, x: string, s: seq<string>): seq<string> {
    if s == [] then [x]
    else if leq(x, s[0]) then [x] + s
    else [s[0]] + Insert(leq, x, s[1..])
  }

  /** `Array.prototype.sort` with the comparator. */
  function SortBy(leq: Order, s: seq<string>): seq<string> {
    if s == [] then [] else Insert(leq, s[0], SortBy(leq, s[1..]))
  }

  /** Inserting keeps the elements and adds the new one. */
  lemma {:induction false} InsertPerm(leq: Order, x: string, s: seq<string>)
    ensures multiset(Insert(leq, x, s)) == multiset(s) + multiset{x}
  {
    if s != [] {
      assert s == [s[0]] + s[1..];
      if !leq(x, s[0]) {
        InsertPerm(leq, x, s[1..]);
      }
    }
  }

  /** Inserting into a sorted list keeps it sorted. */
  lemma {:induction false} InsertSorted(leq: Order, x: string, s: seq<string>)
    requires TotalPreorder(leq) && Sorted(leq, s)
    ensures Sorted(leq, Insert(leq, x, s))
  {
    if s != [] && !leq(x, s[0]) {
      var r := Insert(leq, x, s[1..]);
      InsertSorted(leq, x, s[1..]);
      InsertPerm(leq, x, s[1..]);
      forall k | 0 <= k < |r| ensures leq(s[0], r[k]) {
        assert r[k] in multiset(s[1..]) + multiset{x};
      }
    }
  }

  /** The sort returns the same elements, in an order the comparator accepts. */
  lemma {:induction false} SortBySpec(leq: Order, s: seq<string>)
    requires TotalPreorder(leq)
    ensures Sorted(leq, SortBy(leq, s))
    ensures multiset(SortBy(leq, s)) == multiset(s)
  {
    SortByPerm(leq, s);
    if s != [] {
      SortBySpec(leq, s[1..]);
      InsertSorted(leq, s[0], SortBy(leq, s[1..]));
    }
  }

  /** Whatever the comparator, the sort only reorders. */
  lemma {:induction false} SortByPerm(leq: Order, s: seq<string>)
    ensures multiset(SortBy(leq, s)) == multiset(s)
  {
    if s != [] {
      SortByPerm(leq, s[1..]);
      InsertPerm(leq, s[0], SortBy(leq, s[1..]));
      assert s == [s[0]] + s[1..];
    }
  }
}
