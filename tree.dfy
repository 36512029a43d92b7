/** The state `createFileTree` keeps between clicks, `flatFileList` (the
    visible rows, top to bottom) and `openedDirectory` (the paths remembered
    open), and the three operations that change it. */
module Tree {
  import opened Paths
  import opened Ordering
  import opened Filtering
  import opened Rows
  import opened Listing
  import opened Reconciler

  class FileTree {
    /** `opts.readDirectory`. */
    const readDirectory: Source
    var flatFileList: seq<FileItem>
    var openedDirectory: set<string>

    /** The data source behaves like a file system, and the visible rows keep
        the list invariant. */
    ghost predicate Valid()
      reads this
    {
      GoodSource(readDirectory) && ListInvariant(flatFileList, openedDirectory)
    }

    /** The end of `createFileTree`: `openDirectory("")` on an empty list
        shows the root's subtree, with the root remembered open. */
    constructor (readDirectory: Source)
      requires GoodSource(readDirectory)
      ensures this.readDirectory == readDirectory
      ensures openedDirectory == {""}
      ensures WellListed(RowsOf(readDirectory, {""}), {""})
      ensures flatFileList == Subtree(RowsOf(readDirectory, {""}), {""}, "")
      ensures forall x :: x in flatFileList ==> IsUnder(x.path, "")
      ensures Valid()
    {
      this.readDirectory := readDirectory;
      flatFileList := [];
      openedDirectory := {};
      new;
      assert openedDirectory + {""} == {""};
      ghost var kids := RowsOf(readDirectory, {""});
      ghost var before := flatFileList;
      assert before == [];
      OpenDirectory("");
      assert openedDirectory == {""};
      assert flatFileList == OpenResult(kids, {""}, before, "");
      OpenOnEmpty(kids, {""}, "");
      InitialInvariant(kids);
    }

    /** `openDirectory(path)`: remember `path` open, splice the sorted rows of
        `path` in after its row (at the top when there is none), then re-open
        each remembered subdirectory among them in turn. */
    method OpenDirectory(path: string)
      requires GoodSource(readDirectory)
      modifies this
      ensures openedDirectory == old(openedDirectory) + {path}
      ensures WellListed(RowsOf(readDirectory, openedDirectory), openedDirectory)
      ensures flatFileList == OpenResult(RowsOf(readDirectory, openedDirectory), openedDirectory, old(flatFileList), path)
      decreases |Deeper(openedDirectory + {path}, |path|)|, 1
    {
      openedDirectory := openedDirectory + {path};
      ghost var kids := RowsOf(readDirectory, openedDirectory);
      RowsOfWellListed(readDirectory, openedDirectory);
      var indexOfDirectory := IndexOf(flatFileList, path);
      var content, openedSubDirectories := ListContent(path);
      assert content == kids(path);
      OpenSteps(kids, openedDirectory, flatFileList, path);
      flatFileList := Splice(flatFileList, indexOfDirectory + 1, content);
      ReopenEach(path, openedSubDirectories);
      assert flatFileList == ReopenAll(kids, openedDirectory, old(Splice(flatFileList, indexOfDirectory + 1, content)), |path|, openedSubDirectories);
    }

    /** The `.map(...)` of `openDirectory(path)`: the rows for the sorted
        entries of `path`, and, collected on the way, the paths of the
        remembered-open directories among them, each once, in order. */
    method ListContent(path: string) returns (content: seq<FileItem>, openedSubDirectories: seq<string>)
      ensures content == Content(readDirectory, openedDirectory, path)
      ensures openedSubDirectories == ToReopen(content)
    {
      var sorted := SortEntries(readDirectory(path));
      content, openedSubDirectories := [], [];
      var i := 0;
      while i < |sorted|
        invariant 0 <= i <= |sorted|
        invariant content == Items(path, openedDirectory, sorted[..i])
        invariant openedSubDirectories == ToReopen(content)
      {
        var e := sorted[i];
        var itemPath := path + "/" + e.name;
        var item;
        if e.isDirectory {
          if itemPath in openedDirectory && itemPath !in openedSubDirectories {
            openedSubDirectories := openedSubDirectories + [itemPath];
          }
          item := Directory(itemPath, itemPath in openedDirectory);
        } else {
          item := File(itemPath);
        }
        assert item == ItemFor(path, openedDirectory, e);
        ItemsStep(path, openedDirectory, sorted, i);
        ToReopenStep(content, item);
        content := content + [item];
        i := i + 1;
      }
      assert sorted[..i] == sorted;
    }

    /** `openedSubDirectories.forEach((d) => openDirectory(d, false))`. */
    method ReopenEach(path: string, openedSubDirectories: seq<string>)
      requires GoodSource(readDirectory)
      requires forall d :: d in openedSubDirectories ==> d in openedDirectory && |d| > |path|
      modifies this
      ensures openedDirectory == old(openedDirectory)
      ensures WellListed(RowsOf(readDirectory, openedDirectory), openedDirectory)
      ensures flatFileList
           == ReopenAll(RowsOf(readDirectory, openedDirectory), openedDirectory, old(flatFileList), |path|, openedSubDirectories)
      decreases |Deeper(openedDirectory, |path|)|, 0
    {
      ghost var kids := RowsOf(readDirectory, openedDirectory);
      RowsOfWellListed(readDirectory, openedDirectory);
      var k := 0;
      while k < |openedSubDirectories|
        invariant 0 <= k <= |openedSubDirectories|
        invariant openedDirectory == old(openedDirectory)
        invariant ReopenAll(kids, openedDirectory, flatFileList, |path|, openedSubDirectories[k..])
               == ReopenAll(kids, openedDirectory, old(flatFileList), |path|, openedSubDirectories)
      {
        var d := openedSubDirectories[k];
        AddPresent(openedDirectory, d);
        DeeperShrinks(openedDirectory, |path|, d);
        ReopenNext(kids, openedDirectory, flatFileList, |path|, openedSubDirectories, k);
        OpenDirectory(d);
        k := k + 1;
      }
      assert openedSubDirectories[k..] == [];
    }

    /** `closeDirectory(path)`: forget `path` and drop, in place, every row
        whose path starts with `path` and is longer. */
    method CloseDirectory(path: string)
      modifies this
      ensures openedDirectory == old(openedDirectory) - {path}
      ensures flatFileList == CloseResult(old(flatFileList), path)
    {
      openedDirectory := openedDirectory - {path};
      var rows := flatFileList;
      var a := new FileItem[|rows|](j => if 0 <= j < |rows| then rows[j] else File(""));
      assert a[..] == rows;
      var len, removed := FilterInPlace(a, KeepAfterClose(path));
      flatFileList := a[..len];
    }

    /** The click handler of row `i`: a closed directory is opened, an open
        one closed, and the row's own flag is flipped; a file changes
        nothing. The row keeps its position. */
    method Click(i: int)
      requires Valid() && 0 <= i < |flatFileList|
      modifies this
      ensures Valid()
      ensures old(flatFileList[i]).File? ==>
        flatFileList == old(flatFileList) && openedDirectory == old(openedDirectory)
      ensures old(flatFileList[i]).Directory? && old(flatFileList[i]).isOpened ==>
        var p := old(flatFileList[i]).path;
        openedDirectory == old(openedDirectory) - {p}
        && flatFileList == CloseResult(old(flatFileList[..i]), p) + [Directory(p, false)]
                           + CloseResult(old(flatFileList[i + 1..]), p)
      ensures IsClosed(old(flatFileList[i])) ==>
        var p := old(flatFileList[i]).path;
        openedDirectory == old(openedDirectory) + {p}
        && WellListed(RowsOf(readDirectory, openedDirectory), openedDirectory)
        && flatFileList == old(flatFileList[..i]) + [Directory(p, true)]
                           + Subtree(RowsOf(readDirectory, openedDirectory), openedDirectory, p)
                           + old(flatFileList[i + 1..])
    {
      var item := flatFileList[i];
      if item.Directory? {
        var p := item.path;
        ghost var list, s := flatFileList, openedDirectory;
        IndexOfDistinct(list, i);
        if item.isOpened {
          CloseDirectory(p);
          CloseAround(list, i);
          ClosedRowStays(list, i);
          // `fileItem.opened = !fileItem.opened`: the clicked row is the
          // first row with its path
          ghost var fpre, fpost := CloseResult(list[..i], p), CloseResult(list[i + 1..], p);
          assert flatFileList == fpre + [list[i]] + fpost;
          var at := IndexOf(flatFileList, p);
          assert at == |fpre|;
          flatFileList := flatFileList[at := Directory(p, false)];
          ReplaceAt(fpre, list[i], fpost, Directory(p, false));
          assert flatFileList == fpre + [Directory(p, false)] + fpost;
          CloseKeepsInvariant(list, s, i);
        } else {
          OpenDirectory(p);
          ghost var sub := Subtree(RowsOf(readDirectory, openedDirectory), openedDirectory, p);
          forall x | x in list ensures !IsUnder(x.path, p) {
            assert list[i] in list;
          }
          OpenIsSplice(RowsOf(readDirectory, openedDirectory), openedDirectory, list, p);
          OpenedRowStays(list, i, sub);
          assert flatFileList == Splice(list, i + 1, sub);
          var at := IndexOf(flatFileList, p);
          assert at == i;
          flatFileList := flatFileList[at := Directory(p, true)];
          assert flatFileList == list[..i] + [Directory(p, true)] + sub + list[i + 1..];
          OpenKeepsInvariant(RowsOf(readDirectory, openedDirectory), s, list, i);
        }
      }
    }
  }

  /** Overwriting the row between `a` and `b`. */
  lemma ReplaceAt(a: seq<FileItem>, x: FileItem, b: seq<FileItem>, y: FileItem)
    ensures (a + [x] + b)[|a| := y] == a + [y] + b
  {
  }

  /** With distinct paths, row `i` is the first row with its path. */
  lemma IndexOfDistinct(list: seq<FileItem>, i: int)
    requires DistinctPaths(list) && 0 <= i < |list|
    ensures IndexOf(list, list[i].path) == i
  {
  }

  /** After closing row `i`, the row is the first with its path, at the end
      of what survives before it. */
  lemma ClosedRowStays(list: seq<FileItem>, i: int)
    requires DistinctPaths(list) && 0 <= i < |list|
    ensures var p := list[i].path;
      var fpre := CloseResult(list[..i], p);
      IndexOf(fpre + [list[i]] + CloseResult(list[i + 1..], p), p) == |fpre|
  {
    var p := list[i].path;
    var fpre := CloseResult(list[..i], p);
    var r := fpre + [list[i]] + CloseResult(list[i + 1..], p);
    PartsOfDistinct(list, i);
    forall k | 0 <= k < |fpre| ensures r[k].path != p {
      assert r[k] == fpre[k];
      CloseKeepsExactly(list[..i], p, fpre[k]);
    }
    assert r[|fpre|] == list[i];
  }

  /** After opening row `i`, the row keeps its position and is the first
      with its path. */
  lemma OpenedRowStays(list: seq<FileItem>, i: int, sub: seq<FileItem>)
    requires DistinctPaths(list) && 0 <= i < |list|
    ensures var r := Splice(list, i + 1, sub);
      IndexOf(r, list[i].path) == i
      && r[i := Directory(list[i].path, true)] == list[..i] + [Directory(list[i].path, true)] + sub + list[i + 1..]
  {
    var r := Splice(list, i + 1, sub);
    SpliceParts(list, i + 1, sub);
    assert list[..i + 1] == list[..i] + [list[i]];
    assert r == list[..i] + [list[i]] + (sub + list[i + 1..]);
    ReplaceAt(list[..i], list[i], sub + list[i + 1..], Directory(list[i].path, true));
    forall k | 0 <= k < i ensures r[k].path != list[i].path {
      assert r[k] == list[k];
    }
    assert r[i] == list[i];
    ConcatAssoc(list[..i] + [Directory(list[i].path, true)], sub, list[i + 1..]);
  }
}
