/** The order in which a directory's listing is shown: directories before
    files, then by lower-cased name. */
module Ordering {
  import opened Text
  import opened Paths

  /** One raw entry returned by the data source's `readDirectory`. */
  datatype Entry = Entry(name: string, isDirectory: bool)

  /** The listing's order, non-strict: `a` may be shown before `b`. */
  predicate InOrder(a: Entry, b: Entry)
  {
    (a.isDirectory && !b.isDirectory)
    || (a.isDirectory == b.isDirectory && !LexLess(Lower(b.name), Lower(a.name)))
  }

  /** The sort comparator. It never answers 0: two entries of one kind whose
      lower-cased names are equal each compare as greater than the other. */
  function Compare(a: Entry, b: Entry): (r: int)
    ensures r == -1 || r == 1
  {
    if a.isDirectory && !b.isDirectory then -1
    else if !a.isDirectory && b.isDirectory then 1
    else if LexLess(Lower(a.name), Lower(b.name)) then -1
    else 1
  }

  /** A negative answer puts `a` first and a positive one puts `b` first; both
      agree with the listing's order. */
  lemma CompareAgrees(a: Entry, b: Entry)
    ensures Compare(a, b) == -1 ==> InOrder(a, b)
    ensures Compare(a, b) == 1 ==> InOrder(b, a)
  {
    LexAsymmetric(Lower(a.name), Lower(b.name));
  }

  /** The comparator is inconsistent on ties: each of two same-kind entries
      whose lower-cased names are equal is reported greater than the other. */
  lemma CompareOnTies(a: Entry, b: Entry)
    requires a.isDirectory == b.isDirectory && Lower(a.name) == Lower(b.name)
    ensures Compare(a, b) == 1 && Compare(b, a) == 1
  {
    LexIrreflexive(Lower(a.name));
  }

  lemma InOrderTransitive(a: Entry, b: Entry, c: Entry)
    requires InOrder(a, b) && InOrder(b, c)
    ensures InOrder(a, c)
  {
    if a.isDirectory == b.isDirectory == c.isDirectory {
      NotBeforeTransitive(Lower(a.name), Lower(b.name), Lower(c.name));
    }
  }

  predicate Sorted(s: seq<Entry>)
  {
    forall i, j :: 0 <= i < j < |s| ==> InOrder(s[i], s[j])
  }

  /** Inserts `x` before the first entry the comparator does not put ahead of it. */
  function Insert(x: Entry, s: seq<Entry>): (r: seq<Entry>)
    ensures multiset(r) == multiset(s) + multiset{x}
  {
    if s == [] then [x]
    else if Compare(x, s[0]) < 0 then [x] + s
    else
      assert s == [s[0]] + s[1..];
      [s[0]] + Insert(x, s[1..])
  }

  lemma InsertMembers(x: Entry, s: seq<Entry>, y: Entry)
    requires y in Insert(x, s)
    ensures y == x || y in s
  {
    assert y in multiset(Insert(x, s));
  }

  /** The listing sorted with the comparator, by insertion. */
  function SortEntries(es: seq<Entry>): (r: seq<Entry>)
    ensures multiset(r) == multiset(es)
  {
    if es == [] then []
    else
      assert es == es[..|es| - 1] + [es[|es| - 1]];
      Insert(es[|es| - 1], SortEntries(es[..|es| - 1]))
  }

  lemma {:induction false} InsertSorted(x: Entry, s: seq<Entry>)
    requires Sorted(s)
    ensures Sorted(Insert(x, s))
  {
    if s != [] {
      CompareAgrees(x, s[0]);
      if Compare(x, s[0]) < 0 {
        forall j | 0 <= j < |s| ensures InOrder(x, s[j]) {
          if j > 0 { InOrderTransitive(x, s[0], s[j]); }
        }
        assert Insert(x, s) == [x] + s;
      } else {
        var t := Insert(x, s[1..]);
        InsertSorted(x, s[1..]);
        forall y | y in t ensures InOrder(s[0], y) {
          InsertMembers(x, s[1..], y);
        }
        PrependSorted(s[0], t);
      }
    }
  }

  lemma PrependSorted(a: Entry, t: seq<Entry>)
    requires Sorted(t)
    requires forall y :: y in t ==> InOrder(a, y)
    ensures Sorted([a] + t)
  {
    var r := [a] + t;
    forall i, j | 0 <= i < j < |r| ensures InOrder(r[i], r[j]) {
      if i == 0 { assert r[j] == t[j - 1]; }
      else { assert r[i] == t[i - 1] && r[j] == t[j - 1]; }
    }
  }

  /** The sorted listing is a permutation of the listing, and in order: every
      directory before every file, and lower-cased names non-decreasing within
      each kind. */
  lemma {:induction false} SortEntriesSorted(es: seq<Entry>)
    ensures multiset(SortEntries(es)) == multiset(es)
    ensures Sorted(SortEntries(es))
    ensures forall i, j :: 0 <= i < j < |SortEntries(es)| ==>
              var (a, b) := (SortEntries(es)[i], SortEntries(es)[j]);
              (b.isDirectory ==> a.isDirectory)
              && (a.isDirectory == b.isDirectory ==> !LexLess(Lower(b.name), Lower(a.name)))
  {
    if es != [] {
      SortEntriesSorted(es[..|es| - 1]);
      InsertSorted(es[|es| - 1], SortEntries(es[..|es| - 1]));
    }
  }

  /** A listing as a file system gives it: names without slashes, no name twice. */
  predicate GoodListing(es: seq<Entry>)
  {
    (forall i :: 0 <= i < |es| ==> SlashFree(es[i].name))
    && (forall i, j :: 0 <= i < j < |es| ==> es[i].name != es[j].name)
  }

  lemma {:induction false} InsertKeepsNamesDistinct(x: Entry, s: seq<Entry>)
    requires GoodListing(s) && SlashFree(x.name)
    requires forall y :: y in s ==> y.name != x.name
    ensures GoodListing(Insert(x, s))
  {
    if s == [] {
    } else if Compare(x, s[0]) < 0 {
      PrependGood(x, s);
    } else {
      var t := Insert(x, s[1..]);
      InsertKeepsNamesDistinct(x, s[1..]);
      forall y | y in t ensures y.name != s[0].name {
        InsertMembers(x, s[1..], y);
      }
      PrependGood(s[0], t);
    }
  }

  lemma PrependGood(a: Entry, t: seq<Entry>)
    requires GoodListing(t) && SlashFree(a.name)
    requires forall y :: y in t ==> y.name != a.name
    ensures GoodListing([a] + t)
  {
    var r := [a] + t;
    forall i, j | 0 <= i < j < |r| ensures r[i].name != r[j].name {
      if i == 0 { assert r[j] == t[j - 1]; }
      else { assert r[i] == t[i - 1] && r[j] == t[j - 1]; }
    }
    forall i | 0 <= i < |r| ensures SlashFree(r[i].name) {
      if i > 0 { assert r[i] == t[i - 1]; }
    }
  }

  /** Sorting a good listing keeps it good. */
  lemma {:induction false} SortKeepsListingGood(es: seq<Entry>)
    requires GoodListing(es)
    ensures GoodListing(SortEntries(es))
  {
    if es != [] {
      var init := es[..|es| - 1];
      var x := es[|es| - 1];
      assert GoodListing(init);
      SortKeepsListingGood(init);
      forall y | y in SortEntries(init) ensures y.name != x.name {
        assert y in multiset(SortEntries(init));
        var j :| 0 <= j < |init| && init[j] == y;
      }
      InsertKeepsNamesDistinct(x, SortEntries(init));
    }
  }
}
