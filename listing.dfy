/** The rows `openDirectory` builds for one directory: its entries from the
    data source, sorted, each turned into a row whose path is the directory's
    path, a slash and the entry's name. */
module Listing {
  import opened Text
  import opened Paths
  import opened Ordering
  import opened Rows

  /** The data source `readDirectory`, a deterministic function of the path. */
  type Source = string -> seq<Entry>

  /** The data source behaves like a file system: in every listing names are
      slash-free and no name occurs twice. */
  ghost predicate GoodSource(rd: Source)
  {
    forall p :: GoodListing(rd(p))
  }

  /** The row made for entry `e` of directory `p`. */
  function ItemFor(p: string, openedDirectory: set<string>, e: Entry): (x: FileItem)
    ensures x.path == ChildPath(p, e.name) && x.Directory? == e.isDirectory
    ensures x.Directory? ==> (x.isOpened <==> x.path in openedDirectory)
  {
    var itemPath := ChildPath(p, e.name);
    if e.isDirectory then Directory(itemPath, itemPath in openedDirectory) else File(itemPath)
  }

  /** The row for each entry, in the entries' order. */
  function Items(p: string, openedDirectory: set<string>, es: seq<Entry>): (r: seq<FileItem>)
    ensures |r| == |es|
    ensures forall i :: 0 <= i < |es| ==> r[i] == ItemFor(p, openedDirectory, es[i])
  {
    seq(|es|, i requires 0 <= i < |es| => ItemFor(p, openedDirectory, es[i]))
  }

  /** One more entry adds its row at the end. */
  lemma ItemsStep(p: string, openedDirectory: set<string>, es: seq<Entry>, i: int)
    requires 0 <= i < |es|
    ensures Items(p, openedDirectory, es[..i + 1]) == Items(p, openedDirectory, es[..i]) + [ItemFor(p, openedDirectory, es[i])]
  {
  }

  /** The rows `openDirectory(p)` splices in: the sorted listing of `p`. */
  function Content(rd: Source, openedDirectory: set<string>, p: string): (r: seq<FileItem>)
    ensures |r| == |rd(p)|
    ensures forall x :: x in r ==> |x.path| > |p| && (x.Directory? ==> (x.isOpened <==> x.path in openedDirectory))
  {
    var sorted := SortEntries(rd(p));
    assert |multiset(sorted)| == |sorted| && |multiset(rd(p))| == |rd(p)|;
    Items(p, openedDirectory, sorted)
  }

  /** Every row of the content is a child of `p`; no path occurs twice; a
      directory is flagged open exactly when its path is remembered open. */
  lemma ContentChildren(rd: Source, openedDirectory: set<string>, p: string)
    requires GoodListing(rd(p))
    ensures ChildRows(Content(rd, openedDirectory, p), p, openedDirectory)
  {
    var sorted := SortEntries(rd(p));
    var c := Content(rd, openedDirectory, p);
    SortKeepsListingGood(rd(p));
    forall i | 0 <= i < |c|
      ensures IsChildOf(c[i].path, p) && c[i].path[|p| + 1..] == sorted[i].name
    {
      ChildPathIsChild(p, sorted[i].name);
    }
    forall i, j | 0 <= i < j < |c| ensures c[i].path != c[j].path {
      assert sorted[i].name != sorted[j].name;
    }
  }

  /** No entry is lost: the row of every entry of `p` is in the content
      (which has exactly as many rows as the listing has entries). */
  lemma ContentCoversListing(rd: Source, openedDirectory: set<string>, p: string, e: Entry)
    requires e in rd(p)
    ensures ItemFor(p, openedDirectory, e) in Content(rd, openedDirectory, p)
  {
    var sorted := SortEntries(rd(p));
    assert e in multiset(sorted);
    var k :| 0 <= k < |sorted| && sorted[k] == e;
    assert Content(rd, openedDirectory, p)[k] == ItemFor(p, openedDirectory, e);
  }

  /** In the content, every directory precedes every file, and within each
      kind the lower-cased displayed names are non-decreasing. */
  lemma ContentOrdered(rd: Source, openedDirectory: set<string>, p: string)
    requires GoodListing(rd(p))
    ensures var c := Content(rd, openedDirectory, p);
      forall i, j :: 0 <= i < j < |c| ==>
        (c[j].Directory? ==> c[i].Directory?)
        && (c[i].Directory? == c[j].Directory? ==>
              !LexLess(Lower(DisplayName(c[j].path)), Lower(DisplayName(c[i].path))))
  {
    var sorted := SortEntries(rd(p));
    var c := Content(rd, openedDirectory, p);
    SortEntriesSorted(rd(p));
    SortKeepsListingGood(rd(p));
    forall i | 0 <= i < |c|
      ensures DisplayName(c[i].path) == sorted[i].name
    {
      ChildPieces(p, sorted[i].name);
    }
  }

  /** A child row sits one level deeper than its directory and shows the
      entry's name. */
  lemma ContentDepthAndName(rd: Source, openedDirectory: set<string>, p: string)
    requires GoodListing(rd(p))
    ensures var c := Content(rd, openedDirectory, p);
      forall i :: 0 <= i < |c| ==>
        Depth(c[i].path) == Depth(p) + 1 && DisplayName(c[i].path) == SortEntries(rd(p))[i].name
  {
    var sorted := SortEntries(rd(p));
    var c := Content(rd, openedDirectory, p);
    SortKeepsListingGood(rd(p));
    forall i | 0 <= i < |c|
      ensures Depth(c[i].path) == Depth(p) + 1 && DisplayName(c[i].path) == sorted[i].name
    {
      ChildPieces(p, sorted[i].name);
    }
  }
}
