/**
 * The shell sort that common/despeckle.c runs on its sort array before it
 * picks the median (lines 826-837 and 1263-1274): gaps n/2, n/4, ..., 1, each
 * pass a gapped insertion sort by adjacent swaps. The final pass has gap 1,
 * so the result is sorted; every pass only swaps, so it is a permutation.
 */
module ShellSort {
  import opened CTypes

  predicate Sorted(s: seq<int>)
  {
    forall i, j :: 0 <= i < j < |s| ==> s[i] <= s[j]
  }

  /** Every element is at most the one `d` places further on. */
  predicate GapSorted(s: seq<int>, d: nat)
  {
    forall k :: 0 <= k && k + d < |s| ==> s[k] <= s[k + d]
  }

  /** Gap-1 order between neighbours is order between any two elements. */
  lemma {:induction false} NeighbourSortedIsSorted(s: seq<int>)
    requires GapSorted(s, 1)
    ensures Sorted(s)
  {
    if |s| > 1 {
      NeighbourSortedIsSorted(s[1..]);
      assert GapSorted(s[1..], 1) by {
        forall k | 0 <= k && k + 1 < |s[1..]|
          ensures s[1..][k] <= s[1..][k + 1]
        {
          assert s[1..][k] == s[k + 1];
        }
      }
      forall i, j | 0 <= i < j < |s|
        ensures s[i] <= s[j]
      {
        if i > 0 {
          assert s[i] == s[1..][i - 1] && s[j] == s[1..][j - 1];
        } else if j > 1 {
          assert s[1] == s[1..][0] && s[j] == s[1..][j - 1];
        }
      }
    }
  }

  /** Swaps two elements of `a`; the rest of `a` is unchanged. */
  method Swap(a: array<Byte>, i: int, j: int)
    requires 0 <= i < a.Length && 0 <= j < a.Length
    modifies a
    ensures a[i] == old(a[j]) && a[j] == old(a[i])
    ensures forall k :: 0 <= k < a.Length && k != i && k != j ==> a[k] == old(a[k])
  {
    a[i], a[j] := a[j], a[i];
  }

  /** Swapping two positions below `n` permutes `a[..n]` and keeps `a[n..]`. */
  lemma SwapPermutes(s: seq<Byte>, t: seq<Byte>, i: int, j: int, n: int)
    requires |s| == |t| && 0 <= i < n && 0 <= j < n && n <= |s|
    requires t[i] == s[j] && t[j] == s[i]
    requires forall k :: 0 <= k < |s| && k != i && k != j ==> t[k] == s[k]
    ensures Rearranged(t, s, n)
  {
    if i != j {
      assert t[..n] == s[..n][i := s[j]][j := s[i]];
    } else {
      assert t[..n] == s[..n];
    }
  }

  /** `a[..n]` is a rearrangement of `b[..n]`, and `a[n..]` equals `b[n..]`. */
  ghost predicate Rearranged(a: seq<Byte>, b: seq<Byte>, n: int)
    requires 0 <= n <= |a| && n <= |b|
  {
    multiset(a[..n]) == multiset(b[..n]) && a[n..] == b[n..]
  }

  /**
   * The inner loop of one pass: the element at `i` sinks down its chain
   * i-d, i-2d, ... while it is smaller than its predecessor. Pairs below `i`
   * were in order before; afterwards all pairs up to `i` are.
   */
  method SinkDown(a: array<Byte>, n: int, d: int, i: int)
    requires 1 <= d <= i < n <= a.Length
    requires forall k :: 0 <= k && k + d < i ==> a[k] <= a[k + d]
    modifies a
    ensures forall k :: 0 <= k && k + d <= i ==> a[k] <= a[k + d]
    ensures Rearranged(a[..], old(a[..]), n)
  {
    var j := i - d;
    while j >= 0 && a[j] > a[j + d]
      invariant -d <= j <= i - d
      invariant forall k :: 0 <= k && k + d <= i && k != j ==> a[k] <= a[k + d]
      invariant j >= 0 && j + 2 * d <= i ==> a[j] <= a[j + 2 * d]
      invariant Rearranged(a[..], old(a[..]), n)
      decreases j + d
    {
      ghost var before := a[..];
      SwapDown(a, n, d, i, j);
      RearrangedTrans(a[..], before, old(a[..]), n);
      j := j - d;
    }
  }

  /** One step of the sink: swap positions j and j+d, which are out of order. */
  method SwapDown(a: array<Byte>, n: int, d: int, i: int, j: int)
    requires 1 <= d && 0 <= j && j + d <= i < n <= a.Length
    requires a[j] > a[j + d]
    requires forall k :: 0 <= k && k + d <= i && k != j ==> a[k] <= a[k + d]
    requires j + 2 * d <= i ==> a[j] <= a[j + 2 * d]
    modifies a
    ensures forall k :: 0 <= k && k + d <= i && k != j - d ==> a[k] <= a[k + d]
    ensures j - d >= 0 && j + d <= i ==> a[j - d] <= a[j + d]
    ensures Rearranged(a[..], old(a[..]), n)
  {
    ghost var before := a[..];
    Swap(a, j, j + d);
    SwapPermutes(before, a[..], j, j + d, n);
    forall k | 0 <= k && k + d <= i && k != j - d
      ensures a[k] <= a[k + d]
    {
      if k == j {
      } else if k == j + d {
        assert before[j] <= before[j + 2 * d];
      } else {
        assert a[k] == before[k] && a[k + d] == before[k + d];
      }
    }
    if j - d >= 0 && j + d <= i {
      assert before[j - d] <= before[j];
    }
  }

  lemma RearrangedTrans(a: seq<Byte>, b: seq<Byte>, c: seq<Byte>, n: int)
    requires 0 <= n <= |a| && n <= |b| && n <= |c|
    requires Rearranged(a, b, n) && Rearranged(b, c, n)
    ensures Rearranged(a, c, n)
  {
  }

  /** One pass with gap `d`: every element ends at most its gap-`d` successor. */
  method GapPass(a: array<Byte>, n: int, d: int)
    requires 1 <= d <= n <= a.Length
    modifies a
    ensures GapSorted(a[..n], d)
    ensures Rearranged(a[..], old(a[..]), n)
  {
    var i := d;
    while i < n
      invariant d <= i <= n
      invariant forall k :: 0 <= k && k + d < i ==> a[k] <= a[k + d]
      invariant Rearranged(a[..], old(a[..]), n)
    {
      SinkDown(a, n, d, i);
      i := i + 1;
    }
  }

  /** The shell sort of the first `n` entries of the sort array. */
  method Sort(a: array<Byte>, n: int)
    requires 0 <= n <= a.Length
    modifies a
    ensures Sorted(a[..n])
    ensures Rearranged(a[..], old(a[..]), n)
  {
    var d := n / 2;
    while d > 0
      invariant 0 <= d <= n
      invariant d == 0 ==> n <= 1 || GapSorted(a[..n], 1)
      invariant Rearranged(a[..], old(a[..]), n)
    {
      GapPass(a, n, d);
      d := d / 2;
    }
    NeighbourSortedIsSorted(a[..n]);
  }

  /** The head of a sorted sequence is at most each of its elements. */
  lemma HeadIsLeast(s: seq<int>, x: int)
    requires Sorted(s) && x in multiset(s)
    ensures |s| > 0 && s[0] <= x
  {
    assert x in s;
  }

  /** Dropping the head removes one occurrence of it. */
  lemma DropHead(s: seq<int>)
    requires |s| > 0
    ensures multiset(s[1..]) == multiset(s) - multiset{s[0]}
  {
    assert s == [s[0]] + s[1..];
  }

  lemma SortedTail(s: seq<int>)
    requires Sorted(s) && |s| > 0
    ensures Sorted(s[1..])
  {
    forall i, j | 0 <= i < j < |s| - 1
      ensures s[1..][i] <= s[1..][j]
    {
      assert s[1..][i] == s[i + 1] && s[1..][j] == s[j + 1];
    }
  }

  /** Two sorted sequences with the same elements are equal. */
  lemma {:induction false} SortedUnique(s: seq<int>, t: seq<int>)
    requires Sorted(s) && Sorted(t) && multiset(s) == multiset(t)
    ensures s == t
  {
    if |s| == 0 {
      assert |t| == |multiset(t)| == 0;
    } else {
      HeadIsLeast(t, s[0]);
      HeadIsLeast(s, t[0]);
      DropHead(s);
      DropHead(t);
      SortedTail(s);
      SortedTail(t);
      SortedUnique(s[1..], t[1..]);
      assert s[0] == t[0];
      assert s[1..] == t[1..];
      assert |s| == |t|;
      forall k | 0 <= k < |s| ensures s[k] == t[k] {
        if k > 0 { assert s[k] == s[1..][k - 1]; assert t[k] == t[1..][k - 1]; }
      }
    }
  }

  /** A lower bound of every element, put in front, keeps a sequence sorted. */
  lemma ConsSorted(b: int, t: seq<int>)
    requires Sorted(t) && forall k :: 0 <= k < |t| ==> b <= t[k]
    ensures Sorted([b] + t)
  {
    forall i, j | 0 <= i < j < |t| + 1
      ensures ([b] + t)[i] <= ([b] + t)[j]
    {
      assert ([b] + t)[j] == t[j - 1];
      if i > 0 {
        assert ([b] + t)[i] == t[i - 1];
      }
    }
  }

  /** A bound of `u` and of `v` is a bound of every rearrangement of `u + [v]`. */
  lemma BoundOfRearranged(b: int, t: seq<Byte>, u: seq<Byte>, v: Byte)
    requires multiset(t) == multiset(u) + multiset{v}
    requires b <= v && forall k :: 0 <= k < |u| ==> b <= u[k]
    ensures forall k :: 0 <= k < |t| ==> b <= t[k]
  {
    forall k | 0 <= k < |t|
      ensures b <= t[k]
    {
      assert t[k] in multiset(t);
      if t[k] != v {
        assert t[k] in multiset(u);
        assert t[k] in u;
      }
    }
  }

  /** Insertion into a sorted sequence: the reference sort. */
  function Insert(v: Byte, s: seq<Byte>): (r: seq<Byte>)
    requires Sorted(s)
    ensures Sorted(r) && multiset(r) == multiset(s) + multiset{v}
  {
    if s == [] || v <= s[0] then
      ConsSorted(v, s);
      [v] + s
    else
      assert Sorted(s[1..]);
      var tail := Insert(v, s[1..]);
      assert s == [s[0]] + s[1..];
      BoundOfRearranged(s[0], tail, s[1..], v);
      ConsSorted(s[0], tail);
      [s[0]] + tail
  }

  /** The sorted arrangement of a sample sequence. */
  function SortSeq(s: seq<Byte>): (r: seq<Byte>)
    ensures Sorted(r) && multiset(r) == multiset(s)
  {
    if s == [] then []
    else
      assert s == s[..|s| - 1] + [s[|s| - 1]];
      Insert(s[|s| - 1], SortSeq(s[..|s| - 1]))
  }
}
