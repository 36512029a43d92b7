/** Path strings of the file tree. A child of `parent` named `name` has the
    path `parent + "/" + name`; the root directory is the empty string, so
    every visible item's path starts with "/". */
module Paths {

  /** A name that cannot be mistaken for several path components. */
  predicate SlashFree(name: string)
  {
    '/' !in name
  }

  /** The path the tree gives to entry `name` of directory `parent`. */
  function ChildPath(parent: string, name: string): string
  {
    parent + "/" + name
  }

  /** The path of the item reached from the root through `names`:
      `"" + "/" + n1 + ... + "/" + nk`. */
  function PathOf(names: seq<string>): string
  {
    if names == [] then "" else ChildPath(PathOf(names[..|names| - 1]), names[|names| - 1])
  }

  /** JavaScript `s.split("/")`: the pieces between slashes, with an empty
      piece before a leading slash, after a trailing one and between two
      adjacent ones; the empty string splits into one empty piece. */
  function Split(s: string): (parts: seq<string>)
    ensures |parts| >= 1
    ensures forall i :: 0 <= i < |parts| ==> SlashFree(parts[i])
  {
    if s == [] then [""]
    else
      var rest := Split(s[1..]);
      if s[0] == '/' then [""] + rest else [[s[0]] + rest[0]] + rest[1..]
  }

  /** Indentation depth of an item: the number of pieces minus two. */
  function Depth(path: string): (d: int)
    ensures d >= -1
  {
    |Split(path)| - 2
  }

  /** The name shown for an item: the last piece (`split("/").pop()`). */
  function DisplayName(path: string): (name: string)
    ensures SlashFree(name)
  {
    var parts := Split(path); parts[|parts| - 1]
  }

  /** `s.startsWith(prefix)`. */
  predicate StartsWith(s: string, prefix: string)
  {
    prefix <= s
  }

  /** `x` lies strictly inside directory `p`: it starts with `p + "/"`. */
  predicate IsUnder(x: string, p: string)
  {
    |p| < |x| && p + "/" <= x
  }

  /** `x` is `c` itself or lies inside it. */
  predicate InFamily(x: string, c: string)
  {
    x == c || IsUnder(x, c)
  }

  /** `x` is an immediate child of `p`. */
  predicate IsChildOf(x: string, p: string)
  {
    IsUnder(x, p) && SlashFree(x[|p| + 1..])
  }

  /** A path inside `p` starts with `p` and is longer. */
  lemma UnderStartsWith(x: string, p: string)
    ensures IsUnder(x, p) ==> StartsWith(x, p) && |x| > |p|
  {
    if IsUnder(x, p) {
      assert p <= p + "/" <= x;
    }
  }

  lemma {:induction false} SplitSlashFree(n: string)
    requires SlashFree(n)
    ensures Split(n) == [n]
  {
    if n != [] {
      SplitSlashFree(n[1..]);
      assert [n[0]] + n[1..] == n;
    }
  }

  /** Splitting distributes over a slash. */
  lemma {:induction false} SplitAtSlash(a: string, b: string)
    ensures Split(a + "/" + b) == Split(a) + Split(b)
  {
    if a == [] {
      assert (a + "/" + b)[1..] == b;
    } else {
      assert (a + "/" + b)[1..] == a[1..] + "/" + b;
      SplitAtSlash(a[1..], b);
    }
  }

  /** A child path has one more piece than its parent, and its last piece is
      the child's name. */
  lemma ChildPieces(parent: string, name: string)
    requires SlashFree(name)
    ensures Split(ChildPath(parent, name)) == Split(parent) + [name]
    ensures Depth(ChildPath(parent, name)) == Depth(parent) + 1
    ensures DisplayName(ChildPath(parent, name)) == name
  {
    SplitAtSlash(parent, name);
    SplitSlashFree(name);
  }

  /** The pieces of `"" + "/" + n1 + ... + "/" + nk` are "", n1, ..., nk. */
  lemma {:induction false} PathSplit(names: seq<string>)
    requires forall i :: 0 <= i < |names| ==> SlashFree(names[i])
    ensures Split(PathOf(names)) == [""] + names
  {
    if names != [] {
      var init, last := names[..|names| - 1], names[|names| - 1];
      PathSplit(init);
      ChildPieces(PathOf(init), last);
      assert [""] + init + [last] == [""] + names;
    }
  }

  /** For `"" + "/" + n1 + ... + "/" + nk` the depth is k - 1 and the
      displayed name is nk. */
  lemma PathOfPieces(names: seq<string>)
    requires forall i :: 0 <= i < |names| ==> SlashFree(names[i])
    ensures Split(PathOf(names)) == [""] + names
    ensures Depth(PathOf(names)) == |names| - 1
    ensures names != [] ==> DisplayName(PathOf(names)) == names[|names| - 1]
  {
    PathSplit(names);
  }

  lemma ChildPathIsChild(parent: string, name: string)
    requires SlashFree(name)
    ensures IsChildOf(ChildPath(parent, name), parent)
    ensures ChildPath(parent, name)[|parent| + 1..] == name
  {
    assert ChildPath(parent, name)[|parent| + 1..] == name;
  }

  lemma UnderTransitive(x: string, y: string, z: string)
    requires IsUnder(x, y) && IsUnder(y, z)
    ensures IsUnder(x, z)
  {
    assert (z + "/") == y[..|z| + 1] == x[..|z| + 1];
  }

  /** Two directories that both contain `x` are nested one in the other. */
  lemma UnderComparable(x: string, p: string, q: string)
    requires IsUnder(x, p) && IsUnder(x, q)
    ensures p == q || IsUnder(p, q) || IsUnder(q, p)
  {
    if |p| == |q| {
      assert p == x[..|p|] == q;
    } else if |p| < |q| {
      assert p + "/" == x[..|p| + 1] == q[..|p| + 1];
    } else {
      assert q + "/" == x[..|q| + 1] == p[..|q| + 1];
    }
  }

  /** Something in the family of `c` and something outside it that does not
      contain `c` are different and neither contains the other. */
  lemma FamilyApart(x: string, y: string, c: string)
    requires InFamily(x, c) && !InFamily(y, c) && !IsUnder(c, y)
    ensures x != y && !IsUnder(y, x) && !IsUnder(x, y)
  {
    if IsUnder(y, x) && IsUnder(x, c) { UnderTransitive(y, x, c); }
    if IsUnder(x, y) && IsUnder(x, c) { UnderComparable(x, c, y); }
  }

  /** The subtrees of two different children of one directory are disjoint. */
  lemma SiblingsApart(x: string, c: string, d: string, p: string)
    requires IsChildOf(c, p) && IsChildOf(d, p) && c != d
    ensures !(InFamily(x, c) && InFamily(x, d))
  {
    if InFamily(x, c) && InFamily(x, d) {
      EqualPrefixes(x, c, d);
      NoSlashInName(d, p, |c|);
      NoSlashInName(c, p, |d|);
      PrefixAt(x, d, |c|);
      PrefixAt(x, c, |d|);
      SlashAfter(x, c);
      SlashAfter(x, d);
      assert false;
    }
  }

  lemma EqualPrefixes(x: string, a: string, b: string)
    ensures a <= x && b <= x && |a| == |b| ==> a == b
  {
    if a <= x && b <= x && |a| == |b| {
      assert a == x[..|a|] == b;
    }
  }

  lemma PrefixAt(x: string, a: string, k: int)
    ensures a <= x && 0 <= k < |a| ==> a[k] == x[k]
  {
  }

  lemma SlashAfter(x: string, c: string)
    ensures IsUnder(x, c) ==> x[|c|] == '/'
  {
    if IsUnder(x, c) {
      assert (c + "/")[|c|] == '/';
    }
  }

  /** Past its parent and the separating slash, a child path has no slash. */
  lemma NoSlashInName(x: string, p: string, k: int)
    ensures IsChildOf(x, p) && |p| < k < |x| ==> x[k] != '/'
  {
    if IsChildOf(x, p) && |p| < k < |x| {
      assert x[|p| + 1..][k - |p| - 1] == x[k];
    }
  }

  /** The prefix quirk of closing: a path that merely begins with `p`, such
      as "/ab" for "/a", starts with `p` and is longer, yet is not inside `p`. */
  lemma PrefixIsNotUnder(p: string, s: string)
    requires s != [] && s[0] != '/'
    ensures StartsWith(p + s, p) && |p + s| > |p|
    ensures !IsUnder(p + s, p)
  {
    assert (p + s)[|p|] == s[0];
  }
}
