/** What opening and closing a directory does to the flat list, stated on
    values. `OpenResult` follows the algorithm of `openDirectory` (find the
    directory, splice its rows in after it, re-open the remembered
    subdirectories one by one); `Subtree` is the pre-order flattening of the
    opened part of the tree, an independent description of what should appear
    below a directory; `OpenIsSplice` proves the two agree.

    The rows built for a directory are taken as a function `kids` of its
    path; `RowsOf` is the one `openDirectory` uses, and all that the proofs
    need of it is `WellListed`. */
module Reconciler {
  import opened Paths
  import opened Filtering
  import opened Rows
  import opened Listing

  /** The rows built for each directory path. */
  type Lister = string -> seq<FileItem>

  /** Every directory's rows are its children, with distinct paths and flags
      matching the remembered-open set. */
  ghost predicate WellListed(kids: Lister, openedDirectory: set<string>)
  {
    forall p :: ChildRows(kids(p), p, openedDirectory)
  }

  /** The rows `openDirectory` builds from the data source. */
  function RowsOf(rd: Source, openedDirectory: set<string>): Lister
  {
    p => Content(rd, openedDirectory, p)
  }

  lemma RowsOfWellListed(rd: Source, openedDirectory: set<string>)
    requires GoodSource(rd)
    ensures WellListed(RowsOf(rd, openedDirectory), openedDirectory)
  {
    forall p ensures ChildRows(RowsOf(rd, openedDirectory)(p), p, openedDirectory) {
      ContentChildren(rd, openedDirectory, p);
    }
  }

  /* ---------------------------------------------------------------------- */
  /* Termination measure for re-opening                                      */

  /** The remembered-open paths longer than `n`. Re-opening only descends to
      longer paths of the (unchanging) opened set, so this shrinks. */
  ghost function Deeper(openedDirectory: set<string>, n: nat): set<string>
  {
    set x | x in openedDirectory && |x| > n
  }

  lemma DeeperShrinks(openedDirectory: set<string>, bound: nat, d: string)
    requires d in openedDirectory && |d| > bound
    ensures |Deeper(openedDirectory, |d|)| < |Deeper(openedDirectory, bound)|
  {
    var small, big := Deeper(openedDirectory, |d|), Deeper(openedDirectory, bound);
    assert small <= big - {d};
    SubsetCardinality(small, big - {d});
  }

  /** Re-opening a remembered path leaves the remembered set as it is. */
  lemma AddPresent(openedDirectory: set<string>, d: string)
    requires d in openedDirectory
    ensures openedDirectory + {d} == openedDirectory
  {
  }

  lemma SubsetCardinality(a: set<string>, b: set<string>)
    requires a <= b
    ensures |a| <= |b|
  {
    assert b == a + (b - a);
  }

  /* ---------------------------------------------------------------------- */
  /* The remembered subdirectories                                           */

  /** `openedSubDirectories`: the paths of the rows flagged open, in order of
      first appearance, each once (a JavaScript Set). */
  function ToReopen(items: seq<FileItem>): (ds: seq<string>)
    ensures forall d :: d in ds ==> Directory(d, true) in items
  {
    if items == [] then []
    else
      var init := items[..|items| - 1];
      var ds := ToReopen(init);
      var last := items[|items| - 1];
      assert forall x :: x in init ==> x in items;
      if last.Directory? && last.isOpened && last.path !in ds then ds + [last.path] else ds
  }

  /** One more row adds its path when it is flagged open and new. */
  lemma ToReopenStep(items: seq<FileItem>, x: FileItem)
    ensures ToReopen(items + [x])
         == if x.Directory? && x.isOpened && x.path !in ToReopen(items) then ToReopen(items) + [x.path] else ToReopen(items)
  {
    assert (items + [x])[..|items|] == items;
  }

  /** The paths of the rows flagged open, in order. */
  function OpenedPaths(items: seq<FileItem>): (ds: seq<string>)
    ensures forall d :: d in ds ==> Directory(d, true) in items
  {
    if items == [] then []
    else
      (if items[0].Directory? && items[0].isOpened then [items[0].path] else [])
      + OpenedPaths(items[1..])
  }

  lemma {:induction false} OpenedPathsAppend(a: seq<FileItem>, b: seq<FileItem>)
    ensures OpenedPaths(a + b) == OpenedPaths(a) + OpenedPaths(b)
  {
    if a == [] {
      assert a + b == b;
    } else {
      var ab := a + b;
      assert ab[0] == a[0] && ab[1..] == a[1..] + b;
      OpenedPathsAppend(a[1..], b);
      var head := if a[0].Directory? && a[0].isOpened then [a[0].path] else [];
      assert OpenedPaths(ab) == head + OpenedPaths(a[1..] + b);
      assert OpenedPaths(a) == head + OpenedPaths(a[1..]);
      ConcatAssoc(head, OpenedPaths(a[1..]), OpenedPaths(b));
    }
  }

  /** With distinct paths the Set never drops a duplicate, so the remembered
      subdirectories are re-opened exactly in list order. */
  lemma {:induction false} ToReopenInOrder(items: seq<FileItem>)
    requires DistinctPaths(items)
    ensures ToReopen(items) == OpenedPaths(items)
  {
    if items != [] {
      var init := items[..|items| - 1];
      var last := items[|items| - 1];
      LastIsNew(items);
      ToReopenInOrder(init);
      SplitLast(items);
      ToReopenStep(init, last);
      OpenedPathsAppend(init, [last]);
      assert OpenedPaths([last]) == if last.Directory? && last.isOpened then [last.path] else [];
    }
  }

  /** Without repeated paths, the last row's path is not yet collected. */
  lemma LastIsNew(items: seq<FileItem>)
    requires DistinctPaths(items) && items != []
    ensures DistinctPaths(items[..|items| - 1])
    ensures items[|items| - 1].path !in ToReopen(items[..|items| - 1])
  {
    var init := items[..|items| - 1];
    var last := items[|items| - 1];
    forall i, j | 0 <= i < j < |init| ensures init[i].path != init[j].path {
      assert init[i] == items[i] && init[j] == items[j];
    }
    forall k | 0 <= k < |init| ensures init[k] != Directory(last.path, true) {
      assert init[k] == items[k];
    }
  }

  /* ---------------------------------------------------------------------- */
  /* Opening, as the algorithm does it                                       */

  /** The list after `openDirectory(p)` once `p` is in `openedDirectory`:
      splice the rows of `p` in right after the first row with path `p` (at
      the front when there is none), then re-open each remembered
      subdirectory in turn. */
  function OpenResult(kids: Lister, openedDirectory: set<string>, list: seq<FileItem>, p: string): seq<FileItem>
    requires WellListed(kids, openedDirectory)
    decreases |Deeper(openedDirectory, |p|)|, 1, 0
  {
    var content := kids(p);
    ChildRowsBeyond(content, p, openedDirectory);
    ReopenAll(kids, openedDirectory, Splice(list, IndexOf(list, p) + 1, content), |p|, ToReopen(content))
  }

  /** `openedSubDirectories.forEach((d) => openDirectory(d, false))`. */
  function ReopenAll(kids: Lister, openedDirectory: set<string>, list: seq<FileItem>, bound: nat, ds: seq<string>): seq<FileItem>
    requires WellListed(kids, openedDirectory)
    requires forall d :: d in ds ==> d in openedDirectory && |d| > bound
    decreases |Deeper(openedDirectory, bound)|, 0, |ds|
  {
    if ds == [] then list
    else
      DeeperShrinks(openedDirectory, bound, ds[0]);
      ReopenAll(kids, openedDirectory, OpenResult(kids, openedDirectory, list, ds[0]), bound, ds[1..])
  }

  /* ---------------------------------------------------------------------- */
  /* Opening, as it should look                                              */

  /** The rows shown below directory `p` when it is open: its children, each
      open child directory followed by its own subtree. */
  function Subtree(kids: Lister, openedDirectory: set<string>, p: string): seq<FileItem>
    requires WellListed(kids, openedDirectory)
    decreases |Deeper(openedDirectory, |p|)|, 1, 0
  {
    ChildRowsBeyond(kids(p), p, openedDirectory);
    Flatten(kids, openedDirectory, |p|, kids(p))
  }

  function Flatten(kids: Lister, openedDirectory: set<string>, bound: nat, items: seq<FileItem>): seq<FileItem>
    requires WellListed(kids, openedDirectory) && OpenBeyond(items, openedDirectory, bound)
    decreases |Deeper(openedDirectory, bound)|, 0, |items|
  {
    if items == [] then []
    else
      var c := items[0];
      var below :=
        if c.Directory? && c.isOpened then DeeperShrinks(openedDirectory, bound, c.path); Subtree(kids, openedDirectory, c.path)
        else [];
      [c] + below + Flatten(kids, openedDirectory, bound, items[1..])
  }

  /* ---------------------------------------------------------------------- */
  /* Closing                                                                 */

  /** The condition `closeDirectory(p)` keeps a row under: its path does not
      start with `p`, or is no longer than `p`. */
  function KeepAfterClose(p: string): FileItem -> bool
  {
    (x: FileItem) => !StartsWith(x.path, p) || |x.path| <= |p|
  }

  /** The list after `closeDirectory(p)`. */
  function CloseResult(list: seq<FileItem>, p: string): seq<FileItem>
  {
    Filter(list, KeepAfterClose(p))
  }

  /* ---------------------------------------------------------------------- */
  /* Properties of subtrees                                                  */

  /** A subtree lies inside its directory, shows no path twice, flags its
      directories by the remembered-open set and shows nothing inside a
      closed one. */
  lemma {:induction false} SubtreeFacts(kids: Lister, openedDirectory: set<string>, p: string)
    requires WellListed(kids, openedDirectory)
    ensures forall x :: x in Subtree(kids, openedDirectory, p) ==> IsUnder(x.path, p)
    ensures ListInvariant(Subtree(kids, openedDirectory, p), openedDirectory)
    decreases |Deeper(openedDirectory, |p|)|, 1, 0
  {
    assert ChildRows(kids(p), p, openedDirectory);
    FlattenFacts(kids, openedDirectory, p, kids(p));
  }

  lemma {:induction false} FlattenFacts(kids: Lister, openedDirectory: set<string>, p: string, items: seq<FileItem>)
    requires WellListed(kids, openedDirectory) && ChildRows(items, p, openedDirectory)
    ensures OpenBeyond(items, openedDirectory, |p|)
    ensures forall x :: x in Flatten(kids, openedDirectory, |p|, items) ==> IsUnder(x.path, p)
    ensures ListInvariant(Flatten(kids, openedDirectory, |p|, items), openedDirectory)
    decreases |Deeper(openedDirectory, |p|)|, 0, |items|
  {
    ChildRowsBeyond(items, p, openedDirectory);
    if items != [] {
      var c, rest := items[0], items[1..];
      FlattenCons(kids, openedDirectory, |p|, items);
      assert ChildRows(rest, p, openedDirectory) && IsChildOf(c.path, p)
          && (c.Directory? ==> (c.isOpened <==> c.path in openedDirectory))
          && (forall y :: y in rest ==> y.path != c.path) by {
        ChildRowsRest(items, p, openedDirectory);
        assert c in items;
      }
      FamilyFacts(kids, openedDirectory, p, c);
      FlattenFacts(kids, openedDirectory, p, rest);
      FlattenAvoids(kids, openedDirectory, p, rest, c.path);
      var head, tail := Family(kids, openedDirectory, c), Flatten(kids, openedDirectory, |p|, rest);
      assert Apart(head, tail) by {
        forall x, y | x in head && y in tail
          ensures x.path != y.path
          ensures IsClosed(x) ==> !IsUnder(y.path, x.path)
          ensures IsClosed(y) ==> !IsUnder(x.path, y.path)
        {
          FamilyApart(x.path, y.path, c.path);
        }
      }
      InvariantConcat(head, tail, openedDirectory);
    }
  }

  /** The family of a child `c` of `p` lies inside `p`, in the family of
      `c`, and keeps the list invariant. */
  lemma FamilyFacts(kids: Lister, openedDirectory: set<string>, p: string, c: FileItem)
    requires WellListed(kids, openedDirectory) && IsChildOf(c.path, p)
    requires c.Directory? ==> (c.isOpened <==> c.path in openedDirectory)
    ensures forall x :: x in Family(kids, openedDirectory, c) ==> InFamily(x.path, c.path) && IsUnder(x.path, p)
    ensures ListInvariant(Family(kids, openedDirectory, c), openedDirectory)
    decreases |Deeper(openedDirectory, |p|)|, 0, 0
  {
    if c.Directory? && c.isOpened {
      var below := Subtree(kids, openedDirectory, c.path);
      DeeperShrinks(openedDirectory, |p|, c.path);
      SubtreeFacts(kids, openedDirectory, c.path);
      forall x | x in [c] + below ensures InFamily(x.path, c.path) && IsUnder(x.path, p) {
        if x != c { UnderTransitive(x.path, c.path, p); }
      }
      assert Apart([c], below);
      InvariantConcat([c], below, openedDirectory);
    }
  }

  /** The flattening of some children of `p` stays clear of the family of a
      further child `q`: it neither reaches into `q` nor contains `q`. */
  lemma {:induction false} FlattenAvoids(kids: Lister, openedDirectory: set<string>, p: string, items: seq<FileItem>, q: string)
    requires WellListed(kids, openedDirectory) && ChildRows(items, p, openedDirectory)
    requires forall x :: x in items ==> x.path != q
    requires IsChildOf(q, p)
    ensures OpenBeyond(items, openedDirectory, |p|)
    ensures forall y :: y in Flatten(kids, openedDirectory, |p|, items) ==> !InFamily(y.path, q) && !IsUnder(q, y.path)
    decreases |Deeper(openedDirectory, |p|)|, 0, |items|
  {
    if items != [] {
      var c, rest := items[0], items[1..];
      FirstAndRest(items);
      FlattenAvoids(kids, openedDirectory, p, rest, q);
      SiblingsApart(c.path, c.path, q, p);
      SiblingsApart(q, c.path, q, p);
      if c.Directory? && c.isOpened {
        DeeperShrinks(openedDirectory, |p|, c.path);
        SubtreeFacts(kids, openedDirectory, c.path);
        forall y | y in Subtree(kids, openedDirectory, c.path) ensures !InFamily(y.path, q) && !IsUnder(q, y.path) {
          SiblingsApart(y.path, c.path, q, p);
          if IsUnder(q, y.path) { UnderTransitive(q, y.path, c.path); }
        }
      }
    }
  }

  /* ---------------------------------------------------------------------- */
  /* The algorithm produces the flattening                                   */

  /** When nothing is shown inside `p` yet, `openDirectory(p)` leaves every row
      up to and including `p` (or none, when `p` is not shown, as for the
      root) and the order of every row after it unchanged, and puts exactly
      the subtree of `p` in between: its children in listing order, each
      remembered-open child directory immediately followed by its own
      subtree. */
  lemma {:induction false} OpenIsSplice(kids: Lister, openedDirectory: set<string>, list: seq<FileItem>, p: string)
    requires WellListed(kids, openedDirectory)
    requires forall x :: x in list ==> !IsUnder(x.path, p)
    ensures OpenResult(kids, openedDirectory, list, p)
            == Splice(list, IndexOf(list, p) + 1, Subtree(kids, openedDirectory, p))
    decreases |Deeper(openedDirectory, |p|)|, 1, 0, 0
  {
    var at := IndexOf(list, p) + 1;
    OpenSteps(kids, openedDirectory, list, p);
    var mid := ReopenAll(kids, openedDirectory, Splice(list, at, kids(p)), |p|, ToReopen(kids(p)));
    assert mid == Splice(list, at, Subtree(kids, openedDirectory, p)) by {
      ReopenSplice(kids, openedDirectory, list, at, p);
    }
  }

  /** Splicing the rows of `p` in anywhere in a list with nothing inside `p`
      and re-opening its remembered subdirectories splices in its subtree. */
  lemma ReopenSplice(kids: Lister, openedDirectory: set<string>, list: seq<FileItem>, at: int, p: string)
    requires WellListed(kids, openedDirectory)
    requires 0 <= at <= |list|
    requires forall x :: x in list ==> !IsUnder(x.path, p)
    ensures forall d :: d in ToReopen(kids(p)) ==> d in openedDirectory && |d| > |p|
    ensures ReopenAll(kids, openedDirectory, Splice(list, at, kids(p)), |p|, ToReopen(kids(p)))
         == Splice(list, at, Subtree(kids, openedDirectory, p))
    decreases |Deeper(openedDirectory, |p|)|, 0, |kids(p)|, 3
  {
    var content := kids(p);
    assert ChildRows(content, p, openedDirectory);
    ChildRowsBeyond(content, p, openedDirectory);
    ToReopenInOrder(content);
    SpliceParts(list, at, content);
    SpliceParts(list, at, Subtree(kids, openedDirectory, p));
    OutsideFits(list, at, content, p);
    ReopenFlattens(kids, openedDirectory, p, list[..at], content, list[at..]);
  }

  /** Opening a directory on an empty list, as the tree does for the root
      when it is created, shows exactly its subtree. */
  lemma OpenOnEmpty(kids: Lister, openedDirectory: set<string>, p: string)
    requires WellListed(kids, openedDirectory)
    ensures OpenResult(kids, openedDirectory, [], p) == Subtree(kids, openedDirectory, p)
  {
    OpenIsSplice(kids, openedDirectory, [], p);
    assert Splice([], 0, Subtree(kids, openedDirectory, p)) == Subtree(kids, openedDirectory, p);
  }

  /** Opening `p` keeps every row up to and including the row of `p` in
      front, then shows the subtree of `p`, then every later row in its old
      order; when `p` is not shown, the subtree goes to the very top. */
  lemma OpenKeepsOutside(kids: Lister, openedDirectory: set<string>, list: seq<FileItem>, p: string)
    requires WellListed(kids, openedDirectory)
    requires forall x :: x in list ==> !IsUnder(x.path, p)
    ensures var r, sub := OpenResult(kids, openedDirectory, list, p), Subtree(kids, openedDirectory, p);
      var at := IndexOf(list, p) + 1;
      |r| == |list| + |sub|
      && r[..at] == list[..at]
      && r[at..at + |sub|] == sub
      && r[at + |sub|..] == list[at..]
      && (IndexOf(list, p) == -1 ==> r == sub + list)
  {
    var sub := Subtree(kids, openedDirectory, p);
    var at := IndexOf(list, p) + 1;
    OpenIsSplice(kids, openedDirectory, list, p);
    SpliceParts(list, at, sub);
    var r := list[..at] + sub + list[at..];
    assert r[..at] == list[..at];
    assert r[at..at + |sub|] == sub;
    assert r[at + |sub|..] == list[at..];
  }

  /** Rows of `pre` and `post` lie inside none of `items`, and rows of `pre`
      are none of `items`. */
  predicate Fits(pre: seq<FileItem>, items: seq<FileItem>, post: seq<FileItem>)
  {
    (forall x, y :: x in pre + post && y in items ==> !IsUnder(x.path, y.path))
    && (forall x, y :: x in pre && y in items ==> x.path != y.path)
  }

  /** A list with nothing inside `p`, cut anywhere, fits around the children of `p`. */
  lemma OutsideFits(list: seq<FileItem>, at: int, items: seq<FileItem>, p: string)
    requires 0 <= at <= |list|
    requires forall x :: x in list ==> !IsUnder(x.path, p)
    requires forall y :: y in items ==> IsChildOf(y.path, p)
    ensures Fits(list[..at], items, list[at..])
  {
    forall x: FileItem, y: FileItem | x in list[..at] + list[at..] && y in items
      ensures !IsUnder(x.path, y.path) && x.path != y.path
    {
      InListNotUnder(list, at, x, y.path, p);
    }
  }

  /** A row outside `p` is outside every child of `p` too. */
  lemma InListNotUnder(list: seq<FileItem>, at: int, x: FileItem, c: string, p: string)
    requires 0 <= at <= |list| && x in list[..at] + list[at..]
    requires forall x :: x in list ==> !IsUnder(x.path, p)
    requires IsChildOf(c, p)
    ensures !IsUnder(x.path, c) && x.path != c
  {
    assert list[..at] + list[at..] == list;
    if IsUnder(x.path, c) { UnderTransitive(x.path, c, p); }
  }

  /** Re-opening the remembered-open rows among `items`, the children of `p`
      sitting between `pre` and `post`, one after the other, puts each one's
      subtree right after it. */
  lemma {:induction false} ReopenFlattens(kids: Lister, openedDirectory: set<string>, p: string,
                                          pre: seq<FileItem>, items: seq<FileItem>, post: seq<FileItem>)
    requires WellListed(kids, openedDirectory) && ChildRows(items, p, openedDirectory)
    requires Fits(pre, items, post)
    ensures OpenBeyond(items, openedDirectory, |p|)
    ensures forall d :: d in OpenedPaths(items) ==> d in openedDirectory && |d| > |p|
    ensures ReopenAll(kids, openedDirectory, pre + items + post, |p|, OpenedPaths(items))
            == pre + Flatten(kids, openedDirectory, |p|, items) + post
    decreases |Deeper(openedDirectory, |p|)|, 0, |items|, 2
  {
    if items == [] {
      assert pre + items + post == pre + post;
    } else if items[0].Directory? && items[0].isOpened {
      ReopenOpenedFirst(kids, openedDirectory, p, pre, items, post);
    } else {
      ReopenClosedFirst(kids, openedDirectory, p, pre, items, post);
    }
  }

  /** The first child is not open: it stays as it is, and the rest are
      re-opened after it. */
  lemma {:induction false} ReopenClosedFirst(kids: Lister, openedDirectory: set<string>, p: string,
                                             pre: seq<FileItem>, items: seq<FileItem>, post: seq<FileItem>)
    requires WellListed(kids, openedDirectory) && ChildRows(items, p, openedDirectory)
    requires items != [] && !(items[0].Directory? && items[0].isOpened)
    requires Fits(pre, items, post)
    ensures OpenBeyond(items, openedDirectory, |p|)
    ensures forall d :: d in OpenedPaths(items) ==> d in openedDirectory && |d| > |p|
    ensures ReopenAll(kids, openedDirectory, pre + items + post, |p|, OpenedPaths(items))
            == pre + Flatten(kids, openedDirectory, |p|, items) + post
    decreases |Deeper(openedDirectory, |p|)|, 0, |items|, 1
  {
    var c, rest := items[0], items[1..];
    ChildRowsBeyond(items, p, openedDirectory);
    assert OpenedPaths(items) == OpenedPaths(rest);
    var flat := Flatten(kids, openedDirectory, |p|, rest);
    assert Flatten(kids, openedDirectory, |p|, items) == [c] + flat;
    assert (forall d :: d in OpenedPaths(rest) ==> d in openedDirectory && |d| > |p|)
        && ReopenAll(kids, openedDirectory, (pre + [c]) + rest + post, |p|, OpenedPaths(rest))
           == (pre + [c]) + flat + post by {
      ChildRowsRest(items, p, openedDirectory);
      FitsNext(p, openedDirectory, pre, items, post, [c]);
      ReopenFlattens(kids, openedDirectory, p, pre + [c], rest, post);
    }
    RegroupReopen(kids, openedDirectory, |p|, pre, items, post, OpenedPaths(rest), flat);
  }

  /** Re-opening is unaffected by how the list around the first child is
      grouped. */
  lemma RegroupReopen(kids: Lister, openedDirectory: set<string>, bound: nat,
                      pre: seq<FileItem>, items: seq<FileItem>, post: seq<FileItem>, ds: seq<string>, flat: seq<FileItem>)
    requires WellListed(kids, openedDirectory) && items != []
    requires forall d :: d in ds ==> d in openedDirectory && |d| > bound
    requires ReopenAll(kids, openedDirectory, (pre + [items[0]]) + items[1..] + post, bound, ds)
          == (pre + [items[0]]) + flat + post
    ensures ReopenAll(kids, openedDirectory, pre + items + post, bound, ds) == pre + ([items[0]] + flat) + post
  {
    SplitFirst(pre, items, post);
    ConcatAssoc(pre, [items[0]], flat);
  }

  /** The first child is open: opening it in place puts its subtree right
      after it, and the rest are re-opened after that. */
  lemma {:induction false} ReopenOpenedFirst(kids: Lister, openedDirectory: set<string>, p: string,
                                             pre: seq<FileItem>, items: seq<FileItem>, post: seq<FileItem>)
    requires WellListed(kids, openedDirectory) && ChildRows(items, p, openedDirectory)
    requires items != [] && items[0].Directory? && items[0].isOpened
    requires Fits(pre, items, post)
    ensures OpenBeyond(items, openedDirectory, |p|)
    ensures forall d :: d in OpenedPaths(items) ==> d in openedDirectory && |d| > |p|
    ensures ReopenAll(kids, openedDirectory, pre + items + post, |p|, OpenedPaths(items))
            == pre + Flatten(kids, openedDirectory, |p|, items) + post
    decreases |Deeper(openedDirectory, |p|)|, 0, |items|, 1
  {
    var c, rest := items[0], items[1..];
    ChildRowsBeyond(items, p, openedDirectory);
    ChildRowsRest(items, p, openedDirectory);
    var below := Subtree(kids, openedDirectory, c.path);
    DeeperShrinks(openedDirectory, |p|, c.path);
    OpenChildInPlace(kids, openedDirectory, p, pre, items, post);
    SubtreeFacts(kids, openedDirectory, c.path);
    FitsNext(p, openedDirectory, pre, items, post, [c] + below);
    ReopenFlattens(kids, openedDirectory, p, pre + ([c] + below), rest, post);
    var ds := OpenedPaths(items);
    assert ds == [c.path] + OpenedPaths(rest);
    assert ds[0] == c.path && ds[1..] == OpenedPaths(rest);
    ReopenStep(kids, openedDirectory, pre + items + post, pre + ([c] + below) + rest + post,
               pre + ([c] + below) + Flatten(kids, openedDirectory, |p|, rest) + post, |p|, ds);
    FlattenOpenedFirst(kids, openedDirectory, |p|, items);
    ConcatAssoc(pre, [c] + below, Flatten(kids, openedDirectory, |p|, rest));
  }

  /** Opening the first child `c`, which sits between `pre` and the later
      children, puts the subtree of `c` right after it. */
  lemma {:induction false} OpenChildInPlace(kids: Lister, openedDirectory: set<string>, p: string,
                                            pre: seq<FileItem>, items: seq<FileItem>, post: seq<FileItem>)
    requires WellListed(kids, openedDirectory) && ChildRows(items, p, openedDirectory)
    requires items != [] && Fits(pre, items, post)
    ensures OpenResult(kids, openedDirectory, pre + items + post, items[0].path)
            == pre + ([items[0]] + Subtree(kids, openedDirectory, items[0].path)) + items[1..] + post
    decreases |Deeper(openedDirectory, |items[0].path|)|, 2, 0, 0
  {
    var c, rest := items[0], items[1..];
    NothingInsideFirst(p, openedDirectory, pre, items, post);
    OpenIsSplice(kids, openedDirectory, pre + items + post, c.path);
    SplitFirst(pre, items, post);
    ChildAfter(pre, c, rest, post, Subtree(kids, openedDirectory, c.path));
  }

  /** Nothing around the first child lies inside it, and nothing before it
      is it. */
  lemma NothingInsideFirst(p: string, openedDirectory: set<string>, pre: seq<FileItem>, items: seq<FileItem>, post: seq<FileItem>)
    requires ChildRows(items, p, openedDirectory)
    requires items != [] && Fits(pre, items, post)
    ensures forall x :: x in pre + items + post ==> !IsUnder(x.path, items[0].path)
    ensures forall x :: x in pre ==> x.path != items[0].path
  {
    var c := items[0];
    assert c in items;
    forall x | x in pre + items + post ensures !IsUnder(x.path, c.path) {
      if x in items && x.path != c.path {
        SiblingsApart(x.path, x.path, c.path, p);
      } else if x !in items {
        assert x in pre + post;
      }
    }
  }

  /** The later children of `p` are rows of `p` too, and differ from the first. */
  lemma ChildRowsRest(items: seq<FileItem>, p: string, openedDirectory: set<string>)
    requires items != [] && ChildRows(items, p, openedDirectory)
    ensures ChildRows(items[1..], p, openedDirectory) && IsChildOf(items[0].path, p)
    ensures forall y :: y in items[1..] ==> y.path != items[0].path
  {
    FirstAndRest(items);
    assert items[0] in items;
    assert forall y :: y in items[1..] ==> y in items;
  }

  /** Once the first child's family `fam` is placed after `pre`, the rest of
      the children fit between `pre + fam` and `post`. */
  lemma FitsNext(p: string, openedDirectory: set<string>, pre: seq<FileItem>, items: seq<FileItem>, post: seq<FileItem>,
                 fam: seq<FileItem>)
    requires items != [] && ChildRows(items, p, openedDirectory) && Fits(pre, items, post)
    requires forall z :: z in fam ==> InFamily(z.path, items[0].path)
    ensures Fits(pre + fam, items[1..], post)
  {
    var c, rest := items[0], items[1..];
    ChildRowsRest(items, p, openedDirectory);
    forall x, y | x in (pre + fam) + post && y in rest
      ensures !IsUnder(x.path, y.path) && (x in pre + fam ==> x.path != y.path)
    {
      assert y in items;
      if x in fam {
        SiblingsApart(x.path, c.path, y.path, p);
      } else {
        assert x in pre + post;
      }
    }
  }

  /** One step of `forEach`: re-opening a non-empty list of directories opens
      the first one and then re-opens the others. */
  lemma ReopenStep(kids: Lister, openedDirectory: set<string>, list: seq<FileItem>, afterFirst: seq<FileItem>,
                   result: seq<FileItem>, bound: nat, ds: seq<string>)
    requires WellListed(kids, openedDirectory)
    requires ds != [] && forall d :: d in ds ==> d in openedDirectory && |d| > bound
    requires OpenResult(kids, openedDirectory, list, ds[0]) == afterFirst
    requires ReopenAll(kids, openedDirectory, afterFirst, bound, ds[1..]) == result
    ensures ReopenAll(kids, openedDirectory, list, bound, ds) == result
  {
  }

  /** Re-opening the paths of `ds` from position `k` on opens `ds[k]` first. */
  lemma ReopenNext(kids: Lister, openedDirectory: set<string>, list: seq<FileItem>, bound: nat, ds: seq<string>, k: int)
    requires WellListed(kids, openedDirectory)
    requires 0 <= k < |ds| && forall d :: d in ds ==> d in openedDirectory && |d| > bound
    ensures ReopenAll(kids, openedDirectory, list, bound, ds[k..])
         == ReopenAll(kids, openedDirectory, OpenResult(kids, openedDirectory, list, ds[k]), bound, ds[k + 1..])
  {
    assert ds[k..][0] == ds[k] && ds[k..][1..] == ds[k + 1..];
  }

  /** Opening `p` splices in its rows and re-opens the remembered
      subdirectories among them, all longer than `p`. */
  lemma OpenSteps(kids: Lister, openedDirectory: set<string>, list: seq<FileItem>, p: string)
    requires WellListed(kids, openedDirectory)
    ensures forall d :: d in ToReopen(kids(p)) ==> d in openedDirectory && |d| > |p|
    ensures OpenResult(kids, openedDirectory, list, p)
         == ReopenAll(kids, openedDirectory, Splice(list, IndexOf(list, p) + 1, kids(p)), |p|, ToReopen(kids(p)))
  {
    ChildRowsBeyond(kids(p), p, openedDirectory);
  }

  /** The flattening of children whose first is open starts with that child
      and its subtree. */
  lemma FlattenOpenedFirst(kids: Lister, openedDirectory: set<string>, bound: nat, items: seq<FileItem>)
    requires WellListed(kids, openedDirectory) && OpenBeyond(items, openedDirectory, bound)
    requires items != [] && items[0].Directory? && items[0].isOpened
    ensures Flatten(kids, openedDirectory, bound, items)
            == [items[0]] + Subtree(kids, openedDirectory, items[0].path) + Flatten(kids, openedDirectory, bound, items[1..])
  {
  }

  /** The rows one child contributes to a flattening: itself, then its
      subtree when it is open. */
  function Family(kids: Lister, openedDirectory: set<string>, c: FileItem): seq<FileItem>
    requires WellListed(kids, openedDirectory)
  {
    if c.Directory? && c.isOpened then [c] + Subtree(kids, openedDirectory, c.path) else [c]
  }

  /** The flattening of a non-empty run starts with the first child's family. */
  lemma FlattenCons(kids: Lister, openedDirectory: set<string>, bound: nat, items: seq<FileItem>)
    requires WellListed(kids, openedDirectory) && OpenBeyond(items, openedDirectory, bound) && items != []
    ensures OpenBeyond(items[1..], openedDirectory, bound)
    ensures Flatten(kids, openedDirectory, bound, items)
            == Family(kids, openedDirectory, items[0]) + Flatten(kids, openedDirectory, bound, items[1..])
  {
    assert forall x :: x in items[1..] ==> x in items;
  }

  lemma OpenBeyondParts(a: seq<FileItem>, b: seq<FileItem>, openedDirectory: set<string>, bound: nat)
    requires OpenBeyond(a + b, openedDirectory, bound)
    ensures OpenBeyond(a, openedDirectory, bound) && OpenBeyond(b, openedDirectory, bound)
  {
    assert forall x :: x in a ==> x in a + b;
    assert forall x :: x in b ==> x in a + b;
  }

  /** Flattening a run of rows flattens each part. */
  lemma {:induction false} FlattenAppend(kids: Lister, openedDirectory: set<string>, bound: nat, a: seq<FileItem>, b: seq<FileItem>)
    requires WellListed(kids, openedDirectory) && OpenBeyond(a + b, openedDirectory, bound)
    ensures OpenBeyond(a, openedDirectory, bound) && OpenBeyond(b, openedDirectory, bound)
    ensures Flatten(kids, openedDirectory, bound, a + b)
            == Flatten(kids, openedDirectory, bound, a) + Flatten(kids, openedDirectory, bound, b)
    decreases |a|
  {
    OpenBeyondParts(a, b, openedDirectory, bound);
    if a == [] {
      assert a + b == b;
    } else {
      var ab := a + b;
      assert ab[0] == a[0] && ab[1..] == a[1..] + b;
      FlattenCons(kids, openedDirectory, bound, ab);
      FlattenCons(kids, openedDirectory, bound, a);
      FlattenAppend(kids, openedDirectory, bound, a[1..], b);
      ConcatAssoc(Family(kids, openedDirectory, a[0]), Flatten(kids, openedDirectory, bound, a[1..]),
                  Flatten(kids, openedDirectory, bound, b));
    }
  }

  /** How many rows the first `i` children of `p` take up in its subtree. */
  function RowsBefore(kids: Lister, openedDirectory: set<string>, p: string, i: int): (n: nat)
    requires WellListed(kids, openedDirectory) && 0 <= i <= |kids(p)|
    ensures n >= i
  {
    var items := kids(p);
    assert items == items[..i] + items[i..];
    assert ChildRows(items, p, openedDirectory);
    FlattenAppend(kids, openedDirectory, |p|, items[..i], items[i..]);
    FlattenLength(kids, openedDirectory, |p|, items[..i]);
    |Flatten(kids, openedDirectory, |p|, items[..i])|
  }

  lemma {:induction false} FlattenLength(kids: Lister, openedDirectory: set<string>, bound: nat, items: seq<FileItem>)
    requires WellListed(kids, openedDirectory) && OpenBeyond(items, openedDirectory, bound)
    ensures |Flatten(kids, openedDirectory, bound, items)| >= |items|
    decreases |items|
  {
    if items != [] {
      FlattenLength(kids, openedDirectory, bound, items[1..]);
    }
  }

  /** In the subtree of `p`, each remembered-open child directory is directly
      followed by its own subtree: it has been re-opened in place. */
  lemma SubtreeShowsOpenChild(kids: Lister, openedDirectory: set<string>, p: string, i: int)
    requires WellListed(kids, openedDirectory) && 0 <= i < |kids(p)|
    requires kids(p)[i].Directory? && kids(p)[i].path in openedDirectory
    ensures var c, f, at := kids(p)[i], Subtree(kids, openedDirectory, p), RowsBefore(kids, openedDirectory, p, i);
      var below := Subtree(kids, openedDirectory, c.path);
      at + 1 + |below| <= |f|
      && f[at] == c && c.isOpened
      && f[at + 1..at + 1 + |below|] == below
  {
    var items := kids(p);
    var c := items[i];
    assert ChildRows(items, p, openedDirectory) && c in items;
    var below := Subtree(kids, openedDirectory, c.path);
    SubtreeAround(kids, openedDirectory, p, i);
    assert Family(kids, openedDirectory, c) == [c] + below;
    PickOut(Flatten(kids, openedDirectory, |p|, items[..i]), c, below, Flatten(kids, openedDirectory, |p|, items[i + 1..]));
  }

  /** The subtree of `p` around its `i`-th child: the flattening of the
      children before it, its family, the flattening of those after it. */
  lemma SubtreeAround(kids: Lister, openedDirectory: set<string>, p: string, i: int)
    requires WellListed(kids, openedDirectory) && 0 <= i < |kids(p)|
    ensures OpenBeyond(kids(p)[..i], openedDirectory, |p|) && OpenBeyond(kids(p)[i + 1..], openedDirectory, |p|)
    ensures Subtree(kids, openedDirectory, p)
            == Flatten(kids, openedDirectory, |p|, kids(p)[..i]) + Family(kids, openedDirectory, kids(p)[i])
               + Flatten(kids, openedDirectory, |p|, kids(p)[i + 1..])
    ensures RowsBefore(kids, openedDirectory, p, i) == |Flatten(kids, openedDirectory, |p|, kids(p)[..i])|
  {
    var items := kids(p);
    assert ChildRows(items, p, openedDirectory);
    assert items[..i] + items[i..] == items;
    FlattenAppend(kids, openedDirectory, |p|, items[..i], items[i..]);
    FlattenCons(kids, openedDirectory, |p|, items[i..]);
    assert items[i..][0] == items[i] && items[i..][1..] == items[i + 1..];
  }

  /** Where the family `[c] + below` sits in `front + ([c] + below) + rest`. */
  lemma PickOut<T>(front: seq<T>, c: T, below: seq<T>, rest: seq<T>)
    ensures var f := front + ([c] + below) + rest;
      |front| + 1 + |below| <= |f| && f[|front|] == c && f[|front| + 1..|front| + 1 + |below|] == below
  {
    var f := front + ([c] + below) + rest;
    assert f[|front| + 1..|front| + 1 + |below|] == below by {
      forall k | 0 <= k < |below| ensures f[|front| + 1 + k] == below[k] {
      }
    }
  }


  /** Where the row `c` sits, and what splicing after it gives. */
  lemma ChildAfter(pre: seq<FileItem>, c: FileItem, rest: seq<FileItem>, post: seq<FileItem>, below: seq<FileItem>)
    requires forall x :: x in pre ==> x.path != c.path
    ensures IndexOf(pre + [c] + rest + post, c.path) == |pre|
    ensures Splice(pre + [c] + rest + post, |pre| + 1, below) == pre + ([c] + below) + rest + post
  {
    ChildIndex(pre, c, rest + post);
    ChildSplice(pre + [c], rest + post, below);
    RegroupAround(pre, c, rest, post, below);
  }

  lemma RegroupAround<T>(pre: seq<T>, c: T, rest: seq<T>, post: seq<T>, below: seq<T>)
    ensures pre + [c] + rest + post == pre + [c] + (rest + post)
    ensures pre + [c] + below + (rest + post) == pre + ([c] + below) + rest + post
  {
  }

  lemma ChildIndex(pre: seq<FileItem>, c: FileItem, back: seq<FileItem>)
    requires forall x :: x in pre ==> x.path != c.path
    ensures IndexOf(pre + [c] + back, c.path) == |pre|
  {
    var L := pre + [c] + back;
    forall k | 0 <= k < |pre| ensures L[k].path != c.path {
      assert L[k] == pre[k];
    }
    assert L[|pre|] == c;
  }

  lemma ChildSplice(front: seq<FileItem>, back: seq<FileItem>, below: seq<FileItem>)
    ensures Splice(front + back, |front|, below) == front + below + back
  {
    SpliceParts(front + back, |front|, below);
    assert (front + back)[..|front|] == front;
    assert (front + back)[|front|..] == back;
  }

  /* ---------------------------------------------------------------------- */
  /* Closing                                                                 */

  /** `closeDirectory(p)` keeps a row exactly when its path does not start
      with `p` or is no longer than `p`, and keeps the survivors in order; so
      `p` itself stays, and so does everything not starting with `p`. */
  lemma CloseKeepsExactly(list: seq<FileItem>, p: string, x: FileItem)
    ensures x in CloseResult(list, p) <==> x in list && !(StartsWith(x.path, p) && |x.path| > |p|)
  {
    FilterMembers(list, KeepAfterClose(p), x);
  }

  /** Everything inside `p` is removed by closing `p`. */
  lemma CloseRemovesInside(list: seq<FileItem>, p: string, x: FileItem)
    requires IsUnder(x.path, p)
    ensures x !in CloseResult(list, p)
  {
    FilterMembers(list, KeepAfterClose(p), x);
    assert p <= p + "/" <= x.path;
  }

  /** The prefix quirk: closing "/a" also removes a sibling "/ab", which is
      not inside "/a". */
  lemma CloseRemovesPrefixSibling(list: seq<FileItem>, p: string, s: string, x: FileItem)
    requires x in list && x.path == p + s && s != [] && s[0] != '/'
    ensures x !in CloseResult(list, p) && !IsUnder(x.path, p)
  {
    PrefixIsNotUnder(p, s);
    CloseKeepsExactly(list, p, x);
  }

  /** Closing splits over the row clicked: the rows before and after it are
      filtered separately, and the row itself stays where it was. */
  lemma CloseAround(list: seq<FileItem>, i: int)
    requires 0 <= i < |list|
    ensures var p := list[i].path;
      CloseResult(list, p) == CloseResult(list[..i], p) + [list[i]] + CloseResult(list[i + 1..], p)
  {
    var p := list[i].path;
    var keep := KeepAfterClose(p);
    assert list == list[..i] + [list[i]] + list[i + 1..];
    FilterAppend(list[..i] + [list[i]], list[i + 1..], keep);
    FilterAppend(list[..i], [list[i]], keep);
    assert Filter([list[i]], keep) == Filter([], keep) + [list[i]];
  }

  /** Opening a directory and closing it again gives back the list it was
      opened on, provided no row started with its path before. */
  lemma OpenCloseRoundTrip(kids: Lister, openedDirectory: set<string>, list: seq<FileItem>, p: string)
    requires WellListed(kids, openedDirectory)
    requires forall x :: x in list ==> KeepAfterClose(p)(x)
    ensures CloseResult(OpenResult(kids, openedDirectory, list, p), p) == list
  {
    var keep := KeepAfterClose(p);
    var at := IndexOf(list, p) + 1;
    var sub := Subtree(kids, openedDirectory, p);
    forall x | x in list ensures !IsUnder(x.path, p) {
      assert keep(x);
      UnderStartsWith(x.path, p);
    }
    OpenIsSplice(kids, openedDirectory, list, p);
    SpliceParts(list, at, sub);
    SubtreeFacts(kids, openedDirectory, p);
    forall x | x in sub ensures !keep(x) {
      assert p <= p + "/" <= x.path;
    }
    assert list[..at] + list[at..] == list;
    CloseOfSplice(list[..at], sub, list[at..], keep);
  }

  /** Opening a directory and closing it again has the same effect as
      closing it alone, prefix siblings included: the opened rows all start
      with `p` and are longer, so closing removes exactly them and whatever
      closing would have removed anyway. */
  lemma CloseAfterOpen(kids: Lister, openedDirectory: set<string>, list: seq<FileItem>, p: string)
    requires WellListed(kids, openedDirectory)
    requires forall x :: x in list ==> !IsUnder(x.path, p)
    ensures CloseResult(OpenResult(kids, openedDirectory, list, p), p) == CloseResult(list, p)
  {
    var at := IndexOf(list, p) + 1;
    var sub := Subtree(kids, openedDirectory, p);
    OpenAsParts(kids, openedDirectory, list, p);
    SubtreeClosesAway(kids, openedDirectory, p);
    FilterDropsBlock(list[..at], sub, list[at..], KeepAfterClose(p));
    assert list[..at] + list[at..] == list;
  }

  lemma OpenAsParts(kids: Lister, openedDirectory: set<string>, list: seq<FileItem>, p: string)
    requires WellListed(kids, openedDirectory)
    requires forall x :: x in list ==> !IsUnder(x.path, p)
    ensures 0 <= IndexOf(list, p) + 1 <= |list|
    ensures OpenResult(kids, openedDirectory, list, p)
         == list[..IndexOf(list, p) + 1] + Subtree(kids, openedDirectory, p) + list[IndexOf(list, p) + 1..]
  {
    OpenIsSplice(kids, openedDirectory, list, p);
    SpliceParts(list, IndexOf(list, p) + 1, Subtree(kids, openedDirectory, p));
  }

  /** Closing `p` removes every row of its subtree. */
  lemma SubtreeClosesAway(kids: Lister, openedDirectory: set<string>, p: string)
    requires WellListed(kids, openedDirectory)
    ensures forall x :: x in Subtree(kids, openedDirectory, p) ==> !KeepAfterClose(p)(x)
  {
    SubtreeFacts(kids, openedDirectory, p);
    forall x | x in Subtree(kids, openedDirectory, p) ensures !KeepAfterClose(p)(x) {
      assert p <= p + "/" <= x.path;
    }
  }

  lemma CloseOfSplice(pre: seq<FileItem>, sub: seq<FileItem>, post: seq<FileItem>, keep: FileItem -> bool)
    requires forall x :: x in pre + post ==> keep(x)
    requires forall x :: x in sub ==> !keep(x)
    ensures Filter(pre + sub + post, keep) == pre + post
  {
    assert forall x :: x in pre ==> x in pre + post;
    assert forall x :: x in post ==> x in pre + post;
    FilterAppend(pre + sub, post, keep);
    DropMiddle(pre, sub, keep);
    FilterKeepsAll(post, keep);
  }

  lemma DropMiddle(pre: seq<FileItem>, sub: seq<FileItem>, keep: FileItem -> bool)
    requires forall x :: x in pre ==> keep(x)
    requires forall x :: x in sub ==> !keep(x)
    ensures Filter(pre + sub, keep) == pre
  {
    FilterAppend(pre, sub, keep);
    FilterKeepsAll(pre, keep);
    FilterKeepsNone(sub, keep);
  }

  /* ---------------------------------------------------------------------- */
  /* The invariant under the click handler                                   */

  /** The tree right after construction satisfies the invariant. */
  lemma InitialInvariant(kids: Lister)
    requires WellListed(kids, {""})
    ensures ListInvariant(Subtree(kids, {""}, ""), {""})
    ensures forall x :: x in Subtree(kids, {""}, "") ==> IsUnder(x.path, "")
  {
    SubtreeFacts(kids, {""}, "");
  }

  /** Clicking a closed directory row at `i` (open it, then flag it open)
      keeps the invariant. */
  lemma OpenKeepsInvariant(kids: Lister, openedDirectory: set<string>, list: seq<FileItem>, i: int)
    requires 0 <= i < |list| && IsClosed(list[i])
    requires WellListed(kids, openedDirectory + {list[i].path})
    requires ListInvariant(list, openedDirectory)
    ensures var p := list[i].path;
      ListInvariant(list[..i] + [Directory(p, true)] + Subtree(kids, openedDirectory + {p}, p) + list[i + 1..],
                    openedDirectory + {p})
  {
    var p := list[i].path;
    var opened' := openedDirectory + {p};
    var pre, post := list[..i], list[i + 1..];
    var sub := Subtree(kids, opened', p);
    var me := [Directory(p, true)];
    PartsOfDistinct(list, i);
    SubtreeFacts(kids, opened', p);
    BesideKeepsInvariant(list, openedDirectory, i);
    assert ListInvariant(me, opened');
    assert Apart(me, sub);
    InvariantConcat(me, sub, opened');
    forall x: FileItem, y: FileItem | x in pre + post && y in me + sub
      ensures x.path != y.path
      ensures IsClosed(x) ==> !IsUnder(y.path, x.path)
      ensures IsClosed(y) ==> !IsUnder(x.path, y.path)
    {
      NextToClosed(list, i, x, y.path);
    }
    assert Apart(pre, me + sub);
    InvariantConcat(pre, me + sub, opened');
    assert Apart(pre + (me + sub), post);
    InvariantConcat(pre + (me + sub), post, opened');
    assert pre + (me + sub) + post == pre + me + sub + post;
  }

  /** The rows before and after row `i` keep the invariant whether or not
      its path is remembered open: none of them is that row. */
  lemma BesideKeepsInvariant(list: seq<FileItem>, openedDirectory: set<string>, i: int)
    requires 0 <= i < |list| && ListInvariant(list, openedDirectory)
    ensures ListInvariant(list[..i], openedDirectory + {list[i].path})
    ensures ListInvariant(list[i + 1..], openedDirectory + {list[i].path})
    ensures ListInvariant(list[..i], openedDirectory - {list[i].path})
    ensures ListInvariant(list[i + 1..], openedDirectory - {list[i].path})
  {
    PartsOfDistinct(list, i);
    assert forall x :: x in list[..i] + list[i + 1..] ==> x in list;
  }

  /** Rows beside a closed row `i` are neither inside it nor equal to, or
      inside, anything inside it; and a closed one among them contains none
      of it. */
  lemma NextToClosed(list: seq<FileItem>, i: int, x: FileItem, y: string)
    requires DistinctPaths(list) && ClosedLeaves(list)
    requires 0 <= i < |list| && IsClosed(list[i])
    requires x in list[..i] + list[i + 1..]
    requires InFamily(y, list[i].path)
    ensures x.path != y && !IsUnder(x.path, y)
    ensures IsClosed(x) ==> !IsUnder(y, x.path)
  {
    var p := list[i].path;
    PartsOfDistinct(list, i);
    assert x in list && list[i] in list;
    if y != p {
      if IsUnder(x.path, y) { UnderTransitive(x.path, y, p); }
      if IsClosed(x) && IsUnder(y, x.path) { UnderComparable(y, p, x.path); }
    }
  }

  /** Clicking an open directory row at `i` (close it, then flag it closed)
      keeps the invariant. */
  lemma CloseKeepsInvariant(list: seq<FileItem>, openedDirectory: set<string>, i: int)
    requires ListInvariant(list, openedDirectory)
    requires 0 <= i < |list| && list[i].Directory? && list[i].isOpened
    ensures var p := list[i].path;
      ListInvariant(CloseResult(list[..i], p) + [Directory(p, false)] + CloseResult(list[i + 1..], p), openedDirectory - {p})
  {
    var p := list[i].path;
    var opened' := openedDirectory - {p};
    var pre, post := list[..i], list[i + 1..];
    var fpre, fpost := CloseResult(pre, p), CloseResult(post, p);
    var me := [Directory(p, false)];
    BesideKeepsInvariant(list, openedDirectory, i);
    FilterKeepsInvariant(pre, p, opened');
    FilterKeepsInvariant(post, p, opened');
    PartsOfDistinct(list, i);
    forall x: FileItem | x in fpre + fpost ensures x in pre + post && !IsUnder(x.path, p) {
      CloseKeepsExactly(pre, p, x);
      CloseKeepsExactly(post, p, x);
      UnderStartsWith(x.path, p);
    }
    assert Apart(fpre, me);
    InvariantConcat(fpre, me, opened');
    forall x: FileItem, y: FileItem | x in fpre + me && y in fpost ensures x.path != y.path {
      CloseKeepsExactly(pre, p, x);
      CloseKeepsExactly(post, p, y);
    }
    assert Apart(fpre + me, fpost);
    InvariantConcat(fpre + me, fpost, opened');
  }

  /** Removing rows keeps the invariant. */
  lemma FilterKeepsInvariant(list: seq<FileItem>, p: string, openedDirectory: set<string>)
    requires ListInvariant(list, openedDirectory)
    ensures ListInvariant(CloseResult(list, p), openedDirectory)
  {
    FilterKeepsDistinct(list, KeepAfterClose(p));
    forall x | x in CloseResult(list, p) ensures x in list {
      CloseKeepsExactly(list, p, x);
    }
  }
}
