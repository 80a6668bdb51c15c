/**
 * The in-place Lomuto quicksort that puts the collected entries in
 * `cmp_entry` order before the conflict scan.
 */
module Sort {
  import opened Entries

  /** `t` is `s` with only the cells in `[lo, hi)` rearranged. */
  ghost predicate PermutedWithin(s: seq<Entry>, t: seq<Entry>, lo: int, hi: int) {
    |s| == |t| && multiset(s) == multiset(t) &&
    forall k :: 0 <= k < |s| && !(lo <= k < hi) ==> s[k] == t[k]
  }

  /** The cells `[lo, hi)` of `s` are in non-decreasing `cmp_entry` order. */
  ghost predicate SortedRange(s: seq<Entry>, lo: int, hi: int) {
    0 <= lo <= hi <= |s| &&
    forall i, j :: lo <= i < j < hi ==> Cmp(s[i], s[j]) <= 0
  }

  /** Rearranging a range keeps the range's own multiset. */
  lemma PermutedWithinSlice(s: seq<Entry>, t: seq<Entry>, lo: int, hi: int)
    requires PermutedWithin(s, t, lo, hi) && 0 <= lo <= hi <= |s|
    ensures multiset(s[lo..hi]) == multiset(t[lo..hi])
  {
    assert s == s[..lo] + s[lo..hi] + s[hi..];
    assert t == t[..lo] + t[lo..hi] + t[hi..];
    assert s[..lo] == t[..lo];
    assert s[hi..] == t[hi..];
    assert multiset(s) == multiset(s[..lo]) + multiset(s[lo..hi]) + multiset(s[hi..]);
    assert multiset(t) == multiset(t[..lo]) + multiset(t[lo..hi]) + multiset(t[hi..]);
    MultisetCancel(multiset(s[..lo]), multiset(s[lo..hi]), multiset(t[lo..hi]), multiset(s[hi..]));
  }

  /** Equal sums with equal outer parts have equal middle parts. */
  lemma MultisetCancel(a: multiset<Entry>, x: multiset<Entry>, y: multiset<Entry>, b: multiset<Entry>)
    requires a + x + b == a + y + b
    ensures x == y
  {
    forall e
      ensures x[e] == y[e]
    {
      assert (a + x + b)[e] == (a + y + b)[e];
    }
  }

  /** After rearranging a range, each of its cells holds a value that was in it. */
  lemma PermutedWithinElement(s: seq<Entry>, t: seq<Entry>, lo: int, hi: int, k: int)
    requires PermutedWithin(s, t, lo, hi) && 0 <= lo <= k < hi <= |s|
    ensures exists m :: lo <= m < hi && t[k] == s[m]
  {
    PermutedWithinSlice(s, t, lo, hi);
    assert t[k] == t[lo..hi][k - lo];
    assert t[k] in multiset(s[lo..hi]);
    var m' :| 0 <= m' < hi - lo && s[lo..hi][m'] == t[k];
    assert s[lo + m'] == t[k];
  }

  /** Two rearrangements, the second inside the first one's range, make one. */
  lemma PermutedWithinTrans(s: seq<Entry>, t: seq<Entry>, u: seq<Entry>, lo: int, hi: int, lo': int, hi': int)
    requires PermutedWithin(s, t, lo, hi) && PermutedWithin(t, u, lo', hi') && lo <= lo' && hi' <= hi
    ensures PermutedWithin(s, u, lo, hi)
  {
  }

  /** `swap_entry`: exchanges two cells, which may be the same one. */
  method SwapEntry(a: array<Entry>, i: int, j: int)
    requires 0 <= i < a.Length && 0 <= j < a.Length
    modifies a
    ensures a[i] == old(a[j]) && a[j] == old(a[i])
    ensures forall k :: 0 <= k < a.Length && k != i && k != j ==> a[k] == old(a[k])
    ensures multiset(a[..]) == old(multiset(a[..]))
  {
    var tmp := a[i];
    a[i] := a[j];
    a[j] := tmp;
  }

  /**
   * `entry_partition`: moves the entries below the pivot `a[high]` to the front
   * of the range, then the pivot right after them, and returns its index.
   */
  method Partition(a: array<Entry>, low: int, high: int) returns (pi: int)
    requires 0 <= low < high < a.Length
    modifies a
    ensures low <= pi <= high
    ensures a[pi] == old(a[high])
    ensures forall k :: low <= k < pi ==> Cmp(a[k], a[pi]) < 0
    ensures forall k :: pi < k <= high ==> Cmp(a[k], a[pi]) >= 0
    ensures PermutedWithin(old(a[..]), a[..], low, high + 1)
  {
    // The source keeps a pointer to a[high]; that cell is not written until the final swap.
    var pivot := a[high];
    var i := low - 1;
    for j := low to high
      invariant low - 1 <= i < j
      invariant a[high] == pivot
      invariant forall k :: low <= k <= i ==> Cmp(a[k], pivot) < 0
      invariant forall k :: i < k < j ==> Cmp(a[k], pivot) >= 0
      invariant PermutedWithin(old(a[..]), a[..], low, high + 1)
    {
      if Cmp(a[j], pivot) < 0 {
        i := i + 1;
        SwapEntry(a, i, j);
      }
    }
    SwapEntry(a, i + 1, high);
    return i + 1;
  }

  /**
   * After partitioning around the pivot at `pi`, sorting each side in place
   * sorts the whole range.
   */
  lemma JoinAroundPivot(s1: seq<Entry>, s2: seq<Entry>, s3: seq<Entry>, low: int, pi: int, high: int)
    requires 0 <= low <= pi <= high < |s1|
    requires forall k :: low <= k < pi ==> Cmp(s1[k], s1[pi]) < 0
    requires forall k :: pi < k <= high ==> Cmp(s1[k], s1[pi]) >= 0
    requires PermutedWithin(s1, s2, low, pi) && SortedRange(s2, low, pi)
    requires PermutedWithin(s2, s3, pi + 1, high + 1) && SortedRange(s3, pi + 1, high + 1)
    ensures PermutedWithin(s1, s3, low, high + 1)
    ensures SortedRange(s3, low, high + 1)
  {
    var pivot := s1[pi];
    assert s3[pi] == pivot;
    forall k | low <= k < pi
      ensures Cmp(s3[k], pivot) < 0
    {
      assert s3[k] == s2[k];
      PermutedWithinElement(s1, s2, low, pi, k);
    }
    forall k | pi < k <= high
      ensures Cmp(pivot, s3[k]) <= 0
    {
      PermutedWithinElement(s2, s3, pi + 1, high + 1, k);
      var m :| pi + 1 <= m < high + 1 && s3[k] == s2[m];
      assert s2[m] == s1[m];
      CmpAntisymmetric(pivot, s3[k]);
    }
    forall i, j | low <= i < j <= high
      ensures Cmp(s3[i], s3[j]) <= 0
    {
      if j < pi {
        assert s3[i] == s2[i] && s3[j] == s2[j];
      } else if i < pi < j {
        CmpTransitive(s3[i], pivot, s3[j]);
      }
    }
  }

  /**
   * `entry_quicksort`: sorts `a[low..high]` (both ends included) in place;
   * an empty or one-cell range, such as `0, n - 1` with `n <= 1`, is left alone.
   */
  method Quicksort(a: array<Entry>, low: int, high: int)
    requires low >= high || (0 <= low && high < a.Length)
    modifies a
    ensures low >= high ==> a[..] == old(a[..])
    ensures low < high ==> PermutedWithin(old(a[..]), a[..], low, high + 1)
    ensures low < high ==> SortedRange(a[..], low, high + 1)
    decreases high - low
  {
    if low >= high {
      return;
    }
    ghost var s0 := a[..];
    var pi := Partition(a, low, high);
    ghost var s1 := a[..];
    Quicksort(a, low, pi - 1);
    ghost var s2 := a[..];
    Quicksort(a, pi + 1, high);
    ghost var s3 := a[..];
    JoinAroundPivot(s1, s2, s3, low, pi, high);
    PermutedWithinTrans(s0, s1, s3, low, high + 1, low, high + 1);
  }

  /**
   * The call `entry_quicksort(data, 0, size - 1)`: sorts the first `n` cells,
   * as a rearrangement of them, whether or not `n` is below two.
   */
  method SortPrefix(a: array<Entry>, n: int)
    requires 0 <= n <= a.Length
    modifies a
    ensures multiset(a[..n]) == old(multiset(a[..n]))
    ensures Sorted(a[..n])
    ensures a[n..] == old(a[n..])
  {
    ghost var before := a[..];
    Quicksort(a, 0, n - 1);
    if n > 1 {
      PermutedWithinSlice(before, a[..], 0, n);
      assert before[0..n] == before[..n] && a[..][0..n] == a[..n];
      assert a[n..] == before[n..];
    }
  }
}
