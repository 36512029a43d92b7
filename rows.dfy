/** The rows of the flat list and the invariant the list keeps between
    clicks: no path shown twice, directory flags matching the remembered-open
    set, and nothing shown inside a closed directory. */
module Rows {
  import opened Paths
  import opened Filtering

  /** A visible row: a directory with its `opened` flag, or a file. */
  datatype FileItem = Directory(path: string, isOpened: bool) | File(path: string)

  predicate IsClosed(x: FileItem)
  {
    x.Directory? && !x.isOpened
  }

  /** `flatFileList.findIndex(i => i.path === p)`: the first position holding
      path `p`, or -1. */
  function IndexOf(list: seq<FileItem>, p: string): (r: int)
    ensures -1 <= r < |list|
    ensures r == -1 <==> forall k :: 0 <= k < |list| ==> list[k].path != p
    ensures r >= 0 ==> list[r].path == p && forall k :: 0 <= k < r ==> list[k].path != p
  {
    if list == [] then -1
    else if list[0].path == p then 0
    else
      var r := IndexOf(list[1..], p);
      if r == -1 then -1 else r + 1
  }

  /** `list.splice(at, 0, ...items)`: `items` inserted before position `at`,
      built by walking up to `at`. */
  function Splice(list: seq<FileItem>, at: int, items: seq<FileItem>): (r: seq<FileItem>)
    requires 0 <= at <= |list|
    ensures |r| == |list| + |items|
    decreases at
  {
    if at == 0 then items + list else [list[0]] + Splice(list[1..], at - 1, items)
  }

  /** The rows before `at` stay in front, `items` follow, then the rest. */
  lemma {:induction false} SpliceParts(list: seq<FileItem>, at: int, items: seq<FileItem>)
    requires 0 <= at <= |list|
    ensures Splice(list, at, items) == list[..at] + items + list[at..]
    decreases at
  {
    if at == 0 {
      assert list[..0] + items + list[0..] == items + list;
    } else {
      var tail := list[1..];
      SpliceParts(tail, at - 1, items);
      assert list[..at] == [list[0]] + tail[..at - 1];
      assert list[at..] == tail[at - 1..];
      assert [list[0]] + (tail[..at - 1] + items + tail[at - 1..])
          == ([list[0]] + tail[..at - 1]) + items + tail[at - 1..];
    }
  }

  predicate DistinctPaths(list: seq<FileItem>)
  {
    forall i, j :: 0 <= i < j < |list| ==> list[i].path != list[j].path
  }

  /** A directory row is flagged open exactly when its path is remembered open. */
  predicate FlagsMatch(list: seq<FileItem>, openedDirectory: set<string>)
  {
    forall x :: x in list && x.Directory? ==> (x.isOpened <==> x.path in openedDirectory)
  }

  /** Nothing is shown inside a closed directory. */
  predicate ClosedLeaves(list: seq<FileItem>)
  {
    forall x, y :: x in list && y in list && IsClosed(x) ==> !IsUnder(y.path, x.path)
  }

  /** The invariant the tree keeps between clicks. */
  predicate ListInvariant(list: seq<FileItem>, openedDirectory: set<string>)
  {
    DistinctPaths(list) && FlagsMatch(list, openedDirectory) && ClosedLeaves(list)
  }

  /** `items` could be the listing of directory `p`: each row a child of
      `p`, no path twice, flags matching the remembered-open set. */
  predicate ChildRows(items: seq<FileItem>, p: string, openedDirectory: set<string>)
  {
    (forall x :: x in items ==> IsChildOf(x.path, p))
    && DistinctPaths(items) && FlagsMatch(items, openedDirectory)
  }

  /** Every row flagged open is a remembered-open path longer than `bound`. */
  predicate OpenBeyond(items: seq<FileItem>, openedDirectory: set<string>, bound: nat)
  {
    forall x :: x in items && x.Directory? && x.isOpened ==> x.path in openedDirectory && |x.path| > bound
  }

  lemma ChildRowsBeyond(items: seq<FileItem>, p: string, openedDirectory: set<string>)
    requires ChildRows(items, p, openedDirectory)
    ensures OpenBeyond(items, openedDirectory, |p|)
  {
  }

  /** No row of `a` clashes with a row of `b`. */
  predicate Apart(a: seq<FileItem>, b: seq<FileItem>)
  {
    forall x, y :: x in a && y in b ==>
      x.path != y.path
      && (IsClosed(x) ==> !IsUnder(y.path, x.path))
      && (IsClosed(y) ==> !IsUnder(x.path, y.path))
  }

  /** Two lists that keep the invariant and do not clash keep it together. */
  lemma InvariantConcat(a: seq<FileItem>, b: seq<FileItem>, openedDirectory: set<string>)
    requires ListInvariant(a, openedDirectory) && ListInvariant(b, openedDirectory) && Apart(a, b)
    ensures ListInvariant(a + b, openedDirectory)
  {
    var r := a + b;
    forall i, j | 0 <= i < j < |r| ensures r[i].path != r[j].path {
      if j < |a| {
        assert r[i] == a[i] && r[j] == a[j];
      } else if i >= |a| {
        assert r[i] == b[i - |a|] && r[j] == b[j - |a|];
      } else {
        assert r[i] in a && r[j] in b;
      }
    }
  }

  /** Cutting a list with distinct paths around position `i` leaves two lists
      with distinct paths, apart from each other and from row `i`. */
  lemma PartsOfDistinct(list: seq<FileItem>, i: int)
    requires DistinctPaths(list) && 0 <= i < |list|
    ensures DistinctPaths(list[..i]) && DistinctPaths(list[i + 1..])
    ensures forall x :: x in list[..i] + list[i + 1..] ==> x.path != list[i].path
    ensures forall x, y :: x in list[..i] && y in list[i + 1..] ==> x.path != y.path
  {
    var pre, post := list[..i], list[i + 1..];
    forall a, b | 0 <= a < b < |pre| ensures pre[a].path != pre[b].path {
      assert pre[a] == list[a] && pre[b] == list[b];
    }
    forall a, b | 0 <= a < b < |post| ensures post[a].path != post[b].path {
      assert post[a] == list[a + i + 1] && post[b] == list[b + i + 1];
    }
    forall x | x in pre + post ensures x.path != list[i].path {
      if x in pre {
        var a :| 0 <= a < |pre| && pre[a] == x;
        assert list[a] == x;
      } else {
        var b :| 0 <= b < |post| && post[b] == x;
        assert list[b + i + 1] == x;
      }
    }
    forall x, y | x in pre && y in post ensures x.path != y.path {
      var a :| 0 <= a < |pre| && pre[a] == x;
      var b :| 0 <= b < |post| && post[b] == y;
      assert list[a] == x && list[b + i + 1] == y;
    }
  }

  /** The later rows of a list with distinct paths have distinct paths, none
      equal to the first row's. */
  lemma FirstAndRest(items: seq<FileItem>)
    requires items != [] && DistinctPaths(items)
    ensures DistinctPaths(items[1..])
    ensures forall y :: y in items[1..] ==> y.path != items[0].path
  {
    var rest := items[1..];
    forall i, j | 0 <= i < j < |rest| ensures rest[i].path != rest[j].path {
      assert rest[i] == items[i + 1] && rest[j] == items[j + 1];
    }
    forall y | y in rest ensures y.path != items[0].path {
      var k :| 0 <= k < |rest| && rest[k] == y;
      assert items[k + 1] == y;
    }
  }

  /** Removing rows never makes two rows share a path. */
  lemma {:induction false} FilterKeepsDistinct(list: seq<FileItem>, keep: FileItem -> bool)
    requires DistinctPaths(list)
    ensures DistinctPaths(Filter(list, keep))
  {
    if list != [] {
      var init, last := list[..|list| - 1], list[|list| - 1];
      assert DistinctPaths(init) by {
        forall a, b | 0 <= a < b < |init| ensures init[a].path != init[b].path {
          assert init[a] == list[a] && init[b] == list[b];
        }
      }
      FilterKeepsDistinct(init, keep);
      var f := Filter(init, keep);
      forall x | x in f ensures x.path != last.path {
        FilterMembers(init, keep, x);
        var a :| 0 <= a < |init| && init[a] == x;
        assert list[a] == x;
      }
      var r := f + (if keep(last) then [last] else []);
      forall a, b | 0 <= a < b < |r| ensures r[a].path != r[b].path {
        if b < |f| { assert r[a] == f[a] && r[b] == f[b]; }
        else { assert r[a] in f && r[b] == last; }
      }
    }
  }

  lemma SplitFirst<T>(pre: seq<T>, items: seq<T>, post: seq<T>)
    requires items != []
    ensures pre + items + post == pre + [items[0]] + items[1..] + post
  {
    assert items == [items[0]] + items[1..];
  }

  lemma SplitLast<T>(s: seq<T>)
    requires s != []
    ensures s == s[..|s| - 1] + [s[|s| - 1]]
  {
  }

  lemma ConcatAssoc<T>(a: seq<T>, b: seq<T>, c: seq<T>)
    ensures a + b + c == a + (b + c)
  {
  }
}
