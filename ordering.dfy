/** Facts about sequences of numbers that the partition and the recursion
    of quicksort rely on: sortedness, exchanging two elements, the picture
    the Lomuto partition loop keeps, and how bounds and sortedness survive
    a rearrangement. */
module Ordering {

  /** s[lo..hi] is in ascending order. */
  predicate SortedBetween(s: seq<int>, lo: int, hi: int)
    requires 0 <= lo <= hi <= |s|
  {
    forall i, j :: lo <= i < j < hi ==> s[i] <= s[j]
  }

  /** s with the elements at x and y exchanged. */
  function Exchange(s: seq<int>, x: int, y: int): (r: seq<int>)
    requires 0 <= x < |s| && 0 <= y < |s|
    ensures |r| == |s| && r[x] == s[y] && r[y] == s[x]
    ensures forall k :: 0 <= k < |s| && k != x && k != y ==> r[k] == s[k]
    ensures multiset(r) == multiset(s)
  {
    s[x := s[y]][y := s[x]]
  }

  /** The partition loop's picture of s[low..j): elements up to the boundary
      i are at most the pivot, those after it are larger. */
  predicate Lomuto(s: seq<int>, low: int, i: int, j: int, pivot: int)
    requires 0 <= low && low - 1 <= i < j <= |s|
  {
    (forall k :: low <= k <= i ==> s[k] <= pivot) &&
    (forall k :: i < k < j ==> s[k] > pivot)
  }

  /** One round of the partition loop keeps its picture: an element larger
      than the pivot joins the right part as it is; any other one is
      exchanged with the first element after the boundary, which moves up. */
  lemma LomutoAdvance(s: seq<int>, low: int, i: int, j: int, pivot: int)
    requires 0 <= low <= j < |s| && low - 1 <= i < j
    ensures Lomuto(s, low, i, j, pivot) && s[j] > pivot ==> Lomuto(s, low, i, j + 1, pivot)
    ensures Lomuto(s, low, i, j, pivot) && s[j] <= pivot ==>
              Lomuto(Exchange(s, i + 1, j), low, i + 1, j + 1, pivot)
  {
    if Lomuto(s, low, i, j, pivot) && s[j] <= pivot {
      var t := Exchange(s, i + 1, j);
      forall k | low <= k <= i + 1 ensures t[k] <= pivot {
        if k == i + 1 {
          assert t[k] == s[j];
        } else {
          assert t[k] == s[k];
        }
      }
      forall k | i + 1 < k < j + 1 ensures t[k] > pivot {
        if k == j {
          assert t[k] == s[i + 1];
        } else {
          assert t[k] == s[k];
        }
      }
    }
  }

  /** Two sequences with the same elements that agree outside [lo, hi) hold
      the same elements inside it. */
  lemma SlicePermutation(s: seq<int>, t: seq<int>, lo: int, hi: int)
    requires |s| == |t| && 0 <= lo <= hi <= |s|
    requires multiset(s) == multiset(t)
    requires forall k :: 0 <= k < |s| && !(lo <= k < hi) ==> s[k] == t[k]
    ensures multiset(s[lo..hi]) == multiset(t[lo..hi])
  {
    var before, inside, after := s[..lo], s[lo..hi], s[hi..];
    assert s == before + inside + after;
    assert t == before + t[lo..hi] + after;
    calc {
      multiset(inside);
      multiset(s) - multiset(before) - multiset(after);
      multiset(t) - multiset(before) - multiset(after);
      multiset(t[lo..hi]);
    }
  }

  /** A bound on every element of s[lo..hi) survives a rearrangement of that range. */
  lemma BoundsFollowElements(s: seq<int>, t: seq<int>, lo: int, hi: int, bound: int)
    requires |s| == |t| && 0 <= lo <= hi <= |s|
    requires multiset(s[lo..hi]) == multiset(t[lo..hi])
    ensures (forall k :: lo <= k < hi ==> t[k] <= bound) ==> forall k :: lo <= k < hi ==> s[k] <= bound
    ensures (forall k :: lo <= k < hi ==> t[k] > bound) ==> forall k :: lo <= k < hi ==> s[k] > bound
  {
    forall k | lo <= k < hi
      ensures exists m :: lo <= m < hi && t[m] == s[k]
    {
      assert s[k] == s[lo..hi][k - lo];
      assert s[k] in multiset(t[lo..hi]);
      var m :| 0 <= m < hi - lo && t[lo..hi][m] == s[k];
      assert t[lo + m] == s[k];
    }
  }

  /** A sorted part at most the pivot, the pivot, and a sorted part above it
      make a sorted range. */
  lemma SortedJoin(s: seq<int>, low: int, p: int, high: int)
    requires 0 <= low <= p <= high < |s|
    requires SortedBetween(s, low, p) && SortedBetween(s, p + 1, high + 1)
    requires forall k :: low <= k < p ==> s[k] <= s[p]
    requires forall k :: p < k <= high ==> s[k] > s[p]
    ensures SortedBetween(s, low, high + 1)
  {
  }

  /** A sorted range ends with its largest element, and stays sorted without it. */
  lemma SortedWithoutLast(s: seq<int>, low: int, high: int)
    requires 0 <= low <= high < |s|
    ensures SortedBetween(s, low, high + 1) ==>
              (forall k :: low <= k < high ==> s[k] <= s[high]) && SortedBetween(s, low, high)
  {
  }

  /** t is s with only the elements of the inclusive range [lo, hi] rearranged. */
  predicate Rearranged(t: seq<int>, s: seq<int>, lo: int, hi: int)
  {
    |t| == |s| && multiset(t) == multiset(s) &&
    forall k :: 0 <= k < |s| && !(lo <= k <= hi) ==> t[k] == s[k]
  }

  /** t is s with the inclusive range [lo, hi] sorted in place. */
  predicate SortsRange(t: seq<int>, s: seq<int>, lo: int, hi: int)
  {
    Rearranged(t, s, lo, hi) && 0 <= lo <= hi + 1 <= |t| && SortedBetween(t, lo, hi + 1)
  }

  /** In s[low..high] the element at p has every element before it at most
      itself and every element after it larger. */
  predicate PartitionedAt(s: seq<int>, low: int, p: int, high: int)
  {
    0 <= low <= p <= high < |s| &&
    (forall k :: low <= k < p ==> s[k] <= s[p]) &&
    (forall k :: p < k <= high ==> s[k] > s[p])
  }

  /** The recursion's step: a range partitioned at p whose part before p and
      then whose part after p are sorted in place ends sorted in place. */
  lemma SortedAfterParts(s0: seq<int>, s1: seq<int>, s2: seq<int>, low: int, p: int, high: int)
    requires PartitionedAt(s0, low, p, high)
    requires SortsRange(s1, s0, low, p - 1)
    requires SortsRange(s2, s1, p + 1, high)
    ensures SortsRange(s2, s0, low, high)
  {
    SlicePermutation(s1, s0, low, p);
    BoundsFollowElements(s1, s0, low, p, s0[p]);
    SlicePermutation(s2, s1, p + 1, high + 1);
    BoundsFollowElements(s2, s1, p + 1, high + 1, s0[p]);
    assert forall k :: low <= k <= p ==> s2[k] == s1[k];
    SortedJoin(s2, low, p, high);
  }
}
