/** The in-place quicksort (src/qksort.c). */
module QuickSort {

  ghost predicate Sorted(s: seq<int>) {
    forall i, j :: 0 <= i < j < |s| ==> s[i] <= s[j]
  }

  ghost predicate Permutation(s: seq<int>, t: seq<int>) {
    |s| == |t| && multiset(s) == multiset(t)
  }

  function Swapped(s: seq<int>, i: nat, j: nat): seq<int>
    requires i < |s| && j < |s|
  {
    s[i := s[j]][j := s[i]]
  }

  lemma SwappedAt(s: seq<int>, i: nat, j: nat, k: nat)
    requires i < |s| && j < |s| && k < |s|
    ensures |Swapped(s, i, j)| == |s|
    ensures Swapped(s, i, j)[k] == s[if k == i then j else if k == j then i else k]
  {
  }

  lemma SwapPermutes(s: seq<int>, i: nat, j: nat)
    requires i < |s| && j < |s|
    ensures Permutation(Swapped(s, i, j), s)
  {
  }

  /** Every element is one of the other sequence. */
  lemma SameElement(s: seq<int>, t: seq<int>, i: nat)
    requires Permutation(s, t) && i < |s|
    ensures s[i] in t
  {
    assert s[i] in multiset(s);
    assert s[i] in multiset(t);
  }

  /** Permuting a stretch permutes the whole. */
  lemma StretchPermutes(s: seq<int>, t: seq<int>, lo: nat, hi: nat)
    requires |s| == |t| && lo <= hi <= |s|
    requires s[..lo] == t[..lo] && s[hi..] == t[hi..] && Permutation(s[lo..hi], t[lo..hi])
    ensures Permutation(s, t)
  {
    assert s == s[..lo] + s[lo..hi] + s[hi..];
    assert t == t[..lo] + t[lo..hi] + t[hi..];
  }

  /** What is known of a stretch when the rest is as before. */
  lemma WholePermutes(s: seq<int>, t: seq<int>, lo: nat, hi: nat)
    requires |s| == |t| && lo <= hi <= |s|
    requires s[..lo] == t[..lo] && s[hi..] == t[hi..] && Permutation(s, t)
    ensures Permutation(s[lo..hi], t[lo..hi])
  {
    ThreeParts(s, lo, hi);
    ThreeParts(t, lo, hi);
    var a, b := multiset(s[..lo]), multiset(s[hi..]);
    forall x: int
      ensures multiset(s[lo..hi])[x] == multiset(t[lo..hi])[x]
    {
      assert multiset(s)[x] == a[x] + multiset(s[lo..hi])[x] + b[x];
      assert multiset(t)[x] == a[x] + multiset(t[lo..hi])[x] + b[x];
    }
  }

  lemma ThreeParts(s: seq<int>, lo: nat, hi: nat)
    requires lo <= hi <= |s|
    ensures multiset(s) == multiset(s[..lo]) + multiset(s[lo..hi]) + multiset(s[hi..])
  {
    assert s == s[..lo] + s[lo..hi] + s[hi..];
  }

  method Swap(a: array<int>, i: nat, j: nat)
    requires i < a.Length && j < a.Length
    modifies a
    ensures a[..] == Swapped(old(a[..]), i, j)
  {
    a[i], a[j] := a[j], a[i];
  }

  /** The stretch lo..hi of `s` is split at `m`: smaller elements before it,
      the others behind. */
  ghost predicate Parted(s: seq<int>, lo: nat, m: nat, hi: nat) {
    && lo <= m <= hi < |s|
    && (forall k :: lo <= k < m ==> s[k] < s[m])
    && (forall k :: m <= k <= hi ==> s[m] <= s[k])
  }

  /** Only the stretch lo..hi differs, and only in its order. */
  ghost predicate Rearranged(s: seq<int>, t: seq<int>, lo: nat, hi: nat) {
    && lo <= hi <= |s| == |t|
    && s[..lo] == t[..lo] && s[hi..] == t[hi..] && Permutation(s[lo..hi], t[lo..hi])
  }

  /** The partition so far: elements lo+1..m are smaller than the one at lo,
      elements m+1..i-1 are not. */
  ghost predicate Splitting(s: seq<int>, lo: nat, m: nat, i: nat) {
    && lo <= m < i <= |s|
    && (forall k :: lo < k <= m ==> s[k] < s[lo])
    && (forall k :: m < k < i ==> s[lo] <= s[k])
  }

  lemma SplitNone(s: seq<int>, lo: nat)
    requires lo < |s|
    ensures Splitting(s, lo, lo, lo + 1)
  {
  }

  lemma SplitBounds(s: seq<int>, lo: nat, m: nat, i: nat)
    requires Splitting(s, lo, m, i)
    ensures lo <= m < i <= |s|
  {
  }

  lemma SplitSwap(s: seq<int>, lo: nat, m: nat, i: nat)
    requires Splitting(s, lo, m, i) && i < |s| && s[lo] > s[i]
    ensures m + 1 < |s| && Splitting(Swapped(s, m + 1, i), lo, m + 1, i + 1)
  {
  }

  lemma SplitDone(s: seq<int>, lo: nat, m: nat, hi: nat)
    requires Splitting(s, lo, m, hi + 1) && hi < |s|
    ensures Parted(Swapped(s, lo, m), lo, m, hi)
  {
  }

  lemma SwapInside(s: seq<int>, i: nat, j: nat, lo: nat, hi: nat)
    requires lo <= i < hi && lo <= j < hi <= |s|
    ensures Rearranged(Swapped(s, i, j), s, lo, hi)
  {
    SwapPermutes(s, i, j);
    WholePermutes(Swapped(s, i, j), s, lo, hi);
  }

  /** One step of the partition: element `i` joins its side. */
  method SplitNext(a: array<int>, lo: nat, hi: nat, m: nat, i: nat) returns (next: nat)
    requires Splitting(a[..], lo, m, i) && i <= hi < a.Length
    modifies a
    ensures Splitting(a[..], lo, next, i + 1) && Rearranged(a[..], old(a[..]), lo, hi + 1)
    ensures a[..][lo] == old(a[..])[lo]
  {
    hide Rearranged, Swapped;
    next := m;
    RearrangedNot(a[..], lo, hi + 1);
    if a[lo] > a[i] {
      ghost var s := a[..];
      SplitSwap(s, lo, m, i);
      next := m + 1;
      SwapInside(s, next, i, lo, hi + 1);
      SwappedAt(s, next, i, lo);
      Swap(a, next, i);
    }
  }

  /** The first half of iqksort: moves the middle element to its final place. */
  method Partition(a: array<int>, lo: nat, hi: nat) returns (m: nat)
    requires lo < hi < a.Length
    modifies a
    ensures Parted(a[..], lo, m, hi) && Rearranged(a[..], old(a[..]), lo, hi + 1)
    ensures a[m] == old(a[lo + (hi - lo) / 2])
  {
    hide Rearranged, Swapped, Parted, Splitting;
    ghost var s0 := a[..];
    var mid := lo + (hi - lo) / 2;
    SwapInside(s0, lo, mid, lo, hi + 1);
    SwappedAt(s0, lo, mid, lo);
    Swap(a, lo, mid);
    SplitNone(a[..], lo);
    m := lo;
    for i := lo + 1 to hi + 1
      invariant Splitting(a[..], lo, m, i) && a[..][lo] == s0[mid]
      invariant Rearranged(a[..], s0, lo, hi + 1)
    {
      ghost var s := a[..];
      m := SplitNext(a, lo, hi, m, i);
      RearrangedTwice(a[..], s, s0, lo, hi + 1, lo, hi + 1);
    }
    ghost var s := a[..];
    SplitBounds(s, lo, m, hi + 1);
    SplitDone(s, lo, m, hi);
    SwapInside(s, lo, m, lo, hi + 1);
    SwappedAt(s, lo, m, m);
    Swap(a, lo, m);
    RearrangedTwice(a[..], s, s0, lo, hi + 1, lo, hi + 1);
  }

  lemma RearrangedNot(s: seq<int>, lo: nat, hi: nat)
    requires lo <= hi <= |s|
    ensures Rearranged(s, s, lo, hi)
  {
  }

  lemma RearrangedTwice(s: seq<int>, t: seq<int>, u: seq<int>, lo: nat, hi: nat, lo1: nat, hi1: nat)
    requires Rearranged(s, t, lo1, hi1) && Rearranged(t, u, lo, hi) && lo <= lo1 && hi1 <= hi
    ensures Rearranged(s, u, lo, hi)
  {
    assert s[..lo] == s[..lo1][..lo] == t[..lo];
    assert s[hi..] == s[hi1..][hi - hi1..] == t[hi..];
    StretchPermutes(s, t, lo1, hi1);
    StretchPermutes(t, u, lo, hi);
    WholePermutes(s, u, lo, hi);
  }

  /** Sorting one side of the split keeps the split. */
  lemma PartedKept(s: seq<int>, t: seq<int>, lo: nat, m: nat, hi: nat, lo1: nat, hi1: nat)
    requires Parted(t, lo, m, hi) && Rearranged(s, t, lo1, hi1)
    requires (lo == lo1 && hi1 == m) || (lo1 == m + 1 && hi1 == hi + 1)
    ensures Parted(s, lo, m, hi)
  {
    assert s[m] == t[m] by {
      if hi1 == m {
        assert s[m] == s[hi1..][0] && t[m] == t[hi1..][0];
      } else {
        assert s[m] == s[..lo1][m] && t[m] == t[..lo1][m];
      }
    }
    forall k | lo <= k <= hi
      ensures k < m ==> s[k] < s[m]
      ensures m <= k ==> s[m] <= s[k]
    {
      if lo1 <= k < hi1 {
        SameElement(s[lo1..hi1], t[lo1..hi1], k - lo1);
        var j :| 0 <= j < hi1 - lo1 && t[lo1..hi1][j] == s[k];
        assert t[lo1 + j] == s[k];
      } else if k < lo1 {
        assert s[k] == s[..lo1][k] == t[k];
      } else {
        assert s[k] == s[hi1..][k - hi1] == t[k];
      }
    }
  }

  lemma PartedSorted(s: seq<int>, lo: nat, m: nat, hi: nat)
    requires Parted(s, lo, m, hi) && Sorted(s[lo..m]) && Sorted(s[m + 1..hi + 1])
    ensures Sorted(s[lo..hi + 1])
  {
    forall i, j | lo <= i < j <= hi
      ensures s[i] <= s[j]
    {
      if j < m {
        assert s[i] == s[lo..m][i - lo] && s[j] == s[lo..m][j - lo];
      } else if i > m {
        assert s[i] == s[m + 1..hi + 1][i - m - 1] && s[j] == s[m + 1..hi + 1][j - m - 1];
      }
    }
  }

  /** iqksort. */
  method IQkSort(a: array<int>, lo: nat, hi: nat)
    requires lo < hi < a.Length
    modifies a
    ensures Sorted(a[lo..hi + 1]) && Rearranged(a[..], old(a[..]), lo, hi + 1)
    decreases hi - lo
  {
    hide Rearranged, Parted, Sorted;
    ghost var s0 := a[..];
    var m := Partition(a, lo, hi);
    ghost var s1 := a[..];
    PartedBounds(s1, lo, m, hi);
    if lo < m && lo < m - 1 {
      IQkSort(a, lo, m - 1);
      PartedKept(a[..], s1, lo, m, hi, lo, m);
      RearrangedTwice(a[..], s1, s0, lo, hi + 1, lo, m);
    } else {
      ShortSorted(a[lo..m]);
    }
    ghost var s2 := a[..];
    if m + 1 < hi {
      IQkSort(a, m + 1, hi);
      PartedKept(a[..], s2, lo, m, hi, m + 1, hi + 1);
      RearrangedTwice(a[..], s2, s0, lo, hi + 1, m + 1, hi + 1);
      FrontKept(a[..], s2, m + 1, hi + 1, lo, m);
    } else {
      ShortSorted(a[m + 1..hi + 1]);
    }
    PartedSorted(a[..], lo, m, hi);
    assert a[lo..hi + 1] == a[..][lo..hi + 1];
  }

  lemma PartedBounds(s: seq<int>, lo: nat, m: nat, hi: nat)
    requires Parted(s, lo, m, hi)
    ensures lo <= m <= hi < |s|
  {
  }

  lemma FrontKept(s: seq<int>, t: seq<int>, lo: nat, hi: nat, i: nat, j: nat)
    requires Rearranged(s, t, lo, hi) && i <= j <= lo
    ensures j <= |s| == |t| && s[i..j] == t[i..j]
  {
    forall k | i <= k < j
      ensures s[k] == t[k]
    {
      assert s[k] == s[..lo][k] == t[..lo][k];
    }
  }

  lemma ShortSorted(s: seq<int>)
    requires |s| <= 1
    ensures Sorted(s)
  {
  }

  /** qksort: the first `n` elements end up in ascending order. */
  method QkSort(a: array<int>, n: nat)
    requires n <= a.Length
    modifies a
    ensures Sorted(a[..n]) && Permutation(a[..n], old(a[..n])) && a[n..] == old(a[n..])
  {
    ghost var s := a[..];
    if n > 1 {
      IQkSort(a, 0, n - 1);
      assert a[..][0..n] == a[..n] && s[0..n] == s[..n] && a[0..n] == a[..n];
    }
    assert a[..n] == a[..][..n] && a[n..] == a[..][n..];
  }
}
