/** `filterInPlace`: a stable partition of an array into the elements a
    condition keeps, compacted to the front, and those it rejects, returned. */
module Filtering {

  /** The elements of `s` that `keep` accepts, in their original order. */
  function Filter<T>(s: seq<T>, keep: T -> bool): (r: seq<T>)
    ensures |r| <= |s|
  {
    if s == [] then []
    else Filter(s[..|s| - 1], keep) + (if keep(s[|s| - 1]) then [s[|s| - 1]] else [])
  }

  /** The elements of `s` that `keep` rejects, in their original order. */
  function Reject<T>(s: seq<T>, keep: T -> bool): (r: seq<T>)
    ensures |r| <= |s|
  {
    if s == [] then []
    else Reject(s[..|s| - 1], keep) + (if keep(s[|s| - 1]) then [] else [s[|s| - 1]])
  }

  /** One more element goes to exactly one of the two sides. */
  lemma FilterStep<T>(s: seq<T>, i: int, keep: T -> bool)
    requires 0 <= i < |s|
    ensures Filter(s[..i + 1], keep) == Filter(s[..i], keep) + (if keep(s[i]) then [s[i]] else [])
    ensures Reject(s[..i + 1], keep) == Reject(s[..i], keep) + (if keep(s[i]) then [] else [s[i]])
  {
    assert s[..i + 1][..i] == s[..i];
  }

  /** Kept and rejected together account for every element exactly once. */
  lemma PartitionCounts<T>(s: seq<T>, keep: T -> bool)
    ensures |Filter(s, keep)| + |Reject(s, keep)| == |s|
    ensures multiset(Filter(s, keep)) + multiset(Reject(s, keep)) == multiset(s)
  {
    PartitionMultiset(s, keep);
    assert |multiset(Filter(s, keep)) + multiset(Reject(s, keep))| == |multiset(s)|;
  }

  lemma {:induction false} PartitionMultiset<T>(s: seq<T>, keep: T -> bool)
    ensures multiset(Filter(s, keep)) + multiset(Reject(s, keep)) == multiset(s)
  {
    if s != [] {
      var init, last := s[..|s| - 1], s[|s| - 1];
      PartitionMultiset(init, keep);
      var kept, dropped := Filter(init, keep), Reject(init, keep);
      assert s == init + [last];
      assert multiset(s) == multiset(init) + multiset{last};
      if keep(last) {
        assert multiset(Filter(s, keep)) == multiset(kept) + multiset{last};
      } else {
        assert multiset(Reject(s, keep)) == multiset(dropped) + multiset{last};
      }
    }
  }

  /** An element survives exactly when it was there and the condition keeps it. */
  lemma {:induction false} FilterMembers<T>(s: seq<T>, keep: T -> bool, x: T)
    ensures x in Filter(s, keep) <==> x in s && keep(x)
  {
    if s != [] {
      FilterMembers(s[..|s| - 1], keep, x);
      assert s == s[..|s| - 1] + [s[|s| - 1]];
    }
  }

  lemma {:induction false} RejectMembers<T>(s: seq<T>, keep: T -> bool, x: T)
    ensures x in Reject(s, keep) <==> x in s && !keep(x)
  {
    if s != [] {
      RejectMembers(s[..|s| - 1], keep, x);
      assert s == s[..|s| - 1] + [s[|s| - 1]];
    }
  }

  /** Filtering a concatenation filters each part. */
  lemma {:induction false} FilterAppend<T>(s: seq<T>, t: seq<T>, keep: T -> bool)
    ensures Filter(s + t, keep) == Filter(s, keep) + Filter(t, keep)
  {
    if t != [] {
      FilterAppend(s, t[..|t| - 1], keep);
      assert (s + t)[..|s + t| - 1] == s + t[..|t| - 1];
    } else {
      assert s + t == s;
    }
  }

  lemma {:induction false} FilterKeepsAll<T>(s: seq<T>, keep: T -> bool)
    requires forall x :: x in s ==> keep(x)
    ensures Filter(s, keep) == s
  {
    if s != [] {
      FilterKeepsAll(s[..|s| - 1], keep);
      assert s == s[..|s| - 1] + [s[|s| - 1]];
    }
  }

  /** A block the condition rejects entirely vanishes, wherever it sits. */
  lemma FilterDropsBlock<T>(pre: seq<T>, mid: seq<T>, post: seq<T>, keep: T -> bool)
    requires forall x :: x in mid ==> !keep(x)
    ensures Filter(pre + mid + post, keep) == Filter(pre + post, keep)
  {
    FilterAppend(pre + mid, post, keep);
    FilterAppend(pre, mid, keep);
    FilterKeepsNone(mid, keep);
    FilterAppend(pre, post, keep);
  }

  lemma {:induction false} FilterKeepsNone<T>(s: seq<T>, keep: T -> bool)
    requires forall x :: x in s ==> !keep(x)
    ensures Filter(s, keep) == []
  {
    if s != [] {
      FilterKeepsNone(s[..|s| - 1], keep);
    }
  }

  /** `filterInPlace(a, keep)`: walks the array once, moves every kept element
      down to the next free slot at the front, and collects the others. The
      array's truncation to its first `len` elements is left to the caller. */
  method FilterInPlace<T>(a: array<T>, keep: T -> bool) returns (len: nat, removed: seq<T>)
    modifies a
    ensures len <= a.Length
    ensures a[..len] == Filter(old(a[..]), keep)
    ensures removed == Reject(old(a[..]), keep)
    ensures len + |removed| == a.Length
  {
    ghost var s := a[..];
    var i, j := 0, 0;
    removed := [];
    while i < a.Length
      invariant 0 <= j <= i <= a.Length
      invariant a[..j] == Filter(s[..i], keep)
      invariant removed == Reject(s[..i], keep)
      invariant forall k :: i <= k < a.Length ==> a[k] == s[k]
    {
      var val := a[i];
      FilterStep(s, i, keep);
      if keep(val) {
        ghost var front := a[..j];
        a[j] := val;
        assert a[..j + 1] == front + [val];
        j := j + 1;
      } else {
        removed := removed + [val];
      }
      i := i + 1;
    }
    assert s[..a.Length] == s;
    PartitionCounts(s, keep);
    len := j;
  }
}
