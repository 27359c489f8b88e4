/**
 * The quicksort engine of cpp/src/utils.cpp: median-of-three pivot choice,
 * Lomuto partition, and a loop that recurses into the smaller side and
 * carries on with the larger one. Everything happens in place on the array.
 */
module QuickSortEngine {
  import opened Poscodes
  import opened KeyOrder
  import opened SeqFacts

  /** `std::swap(A[i], A[j])`. */
  method Swap(a: array<Poscode>, i: nat, j: nat)
    requires i < a.Length && j < a.Length
    modifies a
    ensures a[i] == old(a[j]) && a[j] == old(a[i])
    ensures forall k :: 0 <= k < a.Length && k != i && k != j ==> a[k] == old(a[k])
    ensures multiset(a[..]) == old(multiset(a[..]))
  {
    a[i], a[j] := a[j], a[i];
  }

  /**
   * `medianOfThree`: order the keys at `low`, `mid` and `high` among
   * themselves and return `mid`; no other cell changes.
   */
  method MedianOfThree(a: array<Poscode>, low: nat, high: nat) returns (mid: nat)
    requires low <= high < a.Length
    modifies a
    ensures mid == low + (high - low) / 2
    ensures LessEqual(a[low], a[mid]) && LessEqual(a[mid], a[high])
    ensures multiset(a[..]) == old(multiset(a[..]))
    ensures forall k :: 0 <= k < a.Length && k != low && k != mid && k != high ==> a[k] == old(a[k])
  {
    mid := low + (high - low) / 2;
    if LessThan(a[mid], a[low]) {
      Swap(a, mid, low);
    }
    assert LessEqual(a[low], a[mid]);
    if LessThan(a[high], a[low]) {
      ghost var x := a[low];
      Swap(a, high, low);
      if mid != low && mid != high {
        LessThanLessEqual(a[low], x, a[mid]);
      }
    }
    assert LessEqual(a[low], a[mid]) && LessEqual(a[low], a[high]);
    if LessThan(a[high], a[mid]) {
      Swap(a, high, mid);
    }
  }

  /** The keys of `s[low..p)` are below the pivot `s[p]`, those of `s(p..hi)` are not. */
  ghost predicate SplitAt(s: seq<Poscode>, low: nat, p: nat, hi: nat)
  {
    low <= p < hi <= |s| &&
    (forall k :: low <= k < p ==> LessThan(s[k], s[p])) &&
    (forall k :: p < k < hi ==> !LessThan(s[k], s[p]))
  }

  /**
   * `partition`: pick the pivot by median of three, park it at `high`, sweep
   * the keys strictly below it to the front (Lomuto), and put it between the
   * two parts. The result is the pivot's final position.
   */
  method Partition(a: array<Poscode>, low: nat, high: nat) returns (p: nat)
    requires low <= high < a.Length
    modifies a
    ensures low <= p <= high
    ensures forall k :: low <= k < p ==> LessThan(a[k], a[p])
    ensures forall k :: p < k <= high ==> !LessThan(a[k], a[p])
    ensures multiset(a[..]) == old(multiset(a[..]))
    ensures forall k :: 0 <= k < a.Length && !(low <= k <= high) ==> a[k] == old(a[k])
  {
    var pivotIndex := MedianOfThree(a, low, high);
    Swap(a, pivotIndex, high);
    // The C++ keeps a reference to A[high]; the sweep never writes that cell.
    var pivot := a[high];
    var i := low;
    for j := low to high
      invariant low <= i <= j <= high
      invariant a[high] == pivot
      invariant forall k :: low <= k < i ==> LessThan(a[k], pivot)
      invariant forall k :: i <= k < j ==> !LessThan(a[k], pivot)
      invariant multiset(a[..]) == old(multiset(a[..]))
      invariant forall k :: 0 <= k < a.Length && !(low <= k <= high) ==> a[k] == old(a[k])
    {
      if LessThan(a[j], pivot) {
        Swap(a, i, j);
        i := i + 1;
      }
    }
    Swap(a, i, high);
    p := i;
  }

  /**
   * The keys of `s[low0..low)` and of `s[hi..high0)` are in their final
   * places: every pair of positions in `[low0, high0)` of which at least
   * one lies outside the unsettled middle `[low, hi)` is in order.
   */
  ghost predicate Settled(s: seq<Poscode>, low0: nat, low: nat, hi: nat, high0: nat)
  {
    low0 <= low <= hi <= high0 <= |s| &&
    forall i, j :: low0 <= i < j < high0 && (i < low || hi <= j) ==> LessEqual(s[i], s[j])
  }

  /** Rearranging the unsettled middle `[low, hi)` keeps the settled ends settled. */
  lemma SettledMiddlePermuted(s: seq<Poscode>, t: seq<Poscode>, low0: nat, low: nat, hi: nat, high0: nat)
    requires Settled(s, low0, low, hi, high0) && |t| == |s|
    requires forall k :: 0 <= k < |s| && !(low <= k < hi) ==> t[k] == s[k]
    requires multiset(t[low..hi]) == multiset(s[low..hi])
    ensures Settled(t, low0, low, hi, high0)
  {
    forall i, j | low0 <= i < j < high0 && (i < low || hi <= j)
      ensures LessEqual(t[i], t[j])
    {
      if i < low && low <= j < hi {
        var j' := PermutedMember(s, t, low, hi, j);
        assert LessEqual(s[i], s[j']);
      } else if low <= i < hi && hi <= j {
        var i' := PermutedMember(s, t, low, hi, i);
        assert LessEqual(s[i'], s[j]);
      } else {
        assert LessEqual(s[i], s[j]);
      }
    }
  }

  /** `Sorted` of a slice, stated on the positions of the whole sequence. */
  lemma SortedSlice(s: seq<Poscode>, lo: nat, hi: nat, i: nat, j: nat)
    requires lo <= i < j < hi <= |s| && Sorted(s[lo..hi])
    ensures LessEqual(s[i], s[j])
  {
    assert s[i] == s[lo..hi][i - lo] && s[j] == s[lo..hi][j - lo];
  }

  /** After the left part is sorted, the left part and the pivot are settled too. */
  lemma SettleLeft(s: seq<Poscode>, low0: nat, low: nat, p: nat, hi: nat, high0: nat)
    requires Settled(s, low0, low, hi, high0) && low <= p < hi
    requires SplitAt(s, low, p, hi) && Sorted(s[low..p])
    ensures Settled(s, low0, p + 1, hi, high0)
  {
    forall i, j | low0 <= i < j < high0 && (i < p + 1 || hi <= j)
      ensures LessEqual(s[i], s[j])
    {
      if low <= i && j < hi {
        if j < p {
          SortedSlice(s, low, p, i, j);
        } else if j > p {
          NotLessThan(s[j], s[p]);
          if i < p {
            LessThanLessEqual(s[i], s[p], s[j]);
          }
        }
      }
    }
  }

  /** After the right part is sorted, the pivot and the right part are settled too. */
  lemma SettleRight(s: seq<Poscode>, low0: nat, low: nat, p: nat, hi: nat, high0: nat)
    requires Settled(s, low0, low, hi, high0) && low <= p < hi
    requires SplitAt(s, low, p, hi) && Sorted(s[p + 1..hi])
    ensures Settled(s, low0, low, p, high0)
  {
    forall i, j | low0 <= i < j < high0 && (i < low || p <= j)
      ensures LessEqual(s[i], s[j])
    {
      if low <= i && j < hi {
        if i > p {
          SortedSlice(s, p + 1, hi, i, j);
        } else if j > p {
          NotLessThan(s[j], s[p]);
          if i < p {
            LessThanLessEqual(s[i], s[p], s[j]);
          }
        }
      }
    }
  }

  /** Once at most one key is unsettled, the whole range is sorted. */
  lemma SettledSorted(s: seq<Poscode>, low0: nat, low: nat, hi: nat, high0: nat)
    requires Settled(s, low0, low, hi, high0) && hi <= low + 1
    ensures Sorted(s[low0..high0])
  {
    var t := s[low0..high0];
    forall i, j | 0 <= i < j < |t|
      ensures LessEqual(t[i], t[j])
    {
      assert t[i] == s[low0 + i] && t[j] == s[low0 + j];
    }
  }

  /** Sorting either side in place keeps the split around the pivot. */
  lemma SplitKept(s: seq<Poscode>, t: seq<Poscode>, low: nat, p: nat, hi: nat)
    requires SplitAt(s, low, p, hi) && |t| == |s| && t[p] == s[p]
    requires multiset(t[low..p]) == multiset(s[low..p])
    requires multiset(t[p + 1..hi]) == multiset(s[p + 1..hi])
    ensures SplitAt(t, low, p, hi)
  {
    forall k | low <= k < p ensures LessThan(t[k], t[p]) {
      var k' := PermutedMember(s, t, low, p, k);
    }
    forall k | p < k < hi ensures !LessThan(t[k], t[p]) {
      var k' := PermutedMember(s, t, p + 1, hi, k);
    }
  }

  /** Rearranging each side of the pivot within itself keeps the keys of the whole range. */
  lemma SidesPermuted(s1: seq<Poscode>, s2: seq<Poscode>, low: nat, p: nat, high: nat)
    requires low <= p <= high < |s1| == |s2|
    requires s2[p] == s1[p]
    requires multiset(s2[low..p]) == multiset(s1[low..p])
    requires multiset(s2[p + 1..high + 1]) == multiset(s1[p + 1..high + 1])
    ensures multiset(s2[low..high + 1]) == multiset(s1[low..high + 1])
  {
    assert s1[low..high + 1] == s1[low..p] + [s1[p]] + s1[p + 1..high + 1];
    assert s2[low..high + 1] == s2[low..p] + [s2[p]] + s2[p + 1..high + 1];
  }

  /**
   * Partitioning `[low, high]` and then rearranging each side of the pivot
   * within itself keeps the settled ends settled and the split in place.
   */
  lemma RoundKeeps(s0: seq<Poscode>, s1: seq<Poscode>, s2: seq<Poscode>, low0: nat, low: nat, p: nat, high: nat, high0: nat)
    requires Settled(s0, low0, low, high + 1, high0 + 1)
    requires low <= p <= high && |s1| == |s0| && |s2| == |s0|
    requires SplitAt(s1, low, p, high + 1)
    requires multiset(s1) == multiset(s0)
    requires forall k :: 0 <= k < |s0| && !(low <= k <= high) ==> s1[k] == s0[k]
    requires forall k :: 0 <= k < |s0| && !(low <= k <= high) ==> s2[k] == s1[k]
    requires s2[p] == s1[p]
    requires multiset(s2[low..p]) == multiset(s1[low..p])
    requires multiset(s2[p + 1..high + 1]) == multiset(s1[p + 1..high + 1])
    ensures Settled(s2, low0, low, high + 1, high0 + 1)
    ensures SplitAt(s2, low, p, high + 1)
  {
    SliceMultiset(s0, s1, low, high + 1);
    SidesPermuted(s1, s2, low, p, high);
    SettledMiddlePermuted(s0, s2, low0, low, high + 1, high0 + 1);
    SplitKept(s1, s2, low, p, high + 1);
  }

  /** One round that sorts the left side: the pivot and everything left of it become settled. */
  lemma RoundLeft(s0: seq<Poscode>, s1: seq<Poscode>, s2: seq<Poscode>, low0: nat, low: nat, p: nat, high: nat, high0: nat)
    requires Settled(s0, low0, low, high + 1, high0 + 1)
    requires low <= p <= high && |s1| == |s0| && |s2| == |s0|
    requires SplitAt(s1, low, p, high + 1)
    requires multiset(s1) == multiset(s0)
    requires forall k :: 0 <= k < |s0| && !(low <= k <= high) ==> s1[k] == s0[k]
    requires Sorted(s2[low..p]) && multiset(s2) == multiset(s1)
    requires forall k :: 0 <= k < |s0| && !(low <= k < p) ==> s2[k] == s1[k]
    ensures Settled(s2, low0, p + 1, high + 1, high0 + 1)
  {
    SliceMultiset(s1, s2, low, p);
    assert s2[p + 1..high + 1] == s1[p + 1..high + 1];
    RoundKeeps(s0, s1, s2, low0, low, p, high, high0);
    SettleLeft(s2, low0, low, p, high + 1, high0 + 1);
  }

  /** One round that sorts the right side: the pivot and everything right of it become settled. */
  lemma RoundRight(s0: seq<Poscode>, s1: seq<Poscode>, s2: seq<Poscode>, low0: nat, low: nat, p: nat, high: nat, high0: nat)
    requires Settled(s0, low0, low, high + 1, high0 + 1)
    requires low <= p <= high && |s1| == |s0| && |s2| == |s0|
    requires SplitAt(s1, low, p, high + 1)
    requires multiset(s1) == multiset(s0)
    requires forall k :: 0 <= k < |s0| && !(low <= k <= high) ==> s1[k] == s0[k]
    requires Sorted(s2[p + 1..high + 1]) && multiset(s2) == multiset(s1)
    requires forall k :: 0 <= k < |s0| && !(p + 1 <= k <= high) ==> s2[k] == s1[k]
    ensures Settled(s2, low0, low, p, high0 + 1)
  {
    SliceMultiset(s1, s2, p + 1, high + 1);
    assert s2[low..p] == s1[low..p];
    RoundKeeps(s0, s1, s2, low0, low, p, high, high0);
    SettleRight(s2, low0, low, p, high + 1, high0 + 1);
  }

  /**
   * One pass of the loop in `quickSortRecursive` over `[low, high]`:
   * partition, then sort the smaller side by a recursive call (the left side
   * when it is strictly smaller and the pivot is not at index 0). On return
   * that side and the pivot are settled; `sortedLeft` says which side it was.
   */
  method SortRound(a: array<Poscode>, low0: nat, high0: nat, low: nat, high: nat) returns (pivotIndex: nat, sortedLeft: bool)
    requires low0 <= low < high <= high0 < a.Length
    requires Settled(a[..], low0, low, high + 1, high0 + 1)
    modifies a
    ensures low <= pivotIndex <= high
    ensures sortedLeft <==> pivotIndex > 0 && pivotIndex - low < high - pivotIndex
    ensures sortedLeft ==> Settled(a[..], low0, pivotIndex + 1, high + 1, high0 + 1)
    ensures !sortedLeft ==> Settled(a[..], low0, low, pivotIndex, high0 + 1)
    ensures multiset(a[..]) == old(multiset(a[..]))
    ensures forall k :: 0 <= k < a.Length && !(low <= k <= high) ==> a[k] == old(a[k])
    decreases high0 + 1 - low0, 0
  {
    ghost var s0 := a[..];
    pivotIndex := Partition(a, low, high);
    ghost var s1 := a[..];
    assert forall k :: 0 <= k < |s0| && !(low <= k <= high) ==> s1[k] == s0[k];
    assert SplitAt(s1, low, pivotIndex, high + 1);
    sortedLeft := pivotIndex > 0 && (pivotIndex - low) < (high - pivotIndex);
    if sortedLeft {
      QuickSortRecursive(a, low, pivotIndex - 1);
      ghost var s2 := a[..];
      assert forall k :: 0 <= k < |s0| && !(low <= k < pivotIndex) ==> s2[k] == s1[k];
      RoundLeft(s0, s1, s2, low0, low, pivotIndex, high, high0);
    } else {
      QuickSortRecursive(a, pivotIndex + 1, high);
      ghost var s2 := a[..];
      assert forall k :: 0 <= k < |s0| && !(pivotIndex + 1 <= k <= high) ==> s2[k] == s1[k];
      RoundRight(s0, s1, s2, low0, low, pivotIndex, high, high0);
    }
  }

  /**
   * `quickSortRecursive`: sort `A[low0..high0]` (inclusive bounds, possibly
   * empty) in place. Each round partitions the current range, recurses into
   * the smaller side and keeps looping on the larger one; a pivot at index 0
   * ends the loop, since no unsigned `high` lies below it.
   */
  method QuickSortRecursive(a: array<Poscode>, low0: nat, high0: nat)
    requires low0 <= high0 + 1 && high0 < a.Length
    modifies a
    ensures Sorted(a[low0..high0 + 1])
    ensures multiset(a[..]) == old(multiset(a[..]))
    ensures forall k :: 0 <= k < a.Length && !(low0 <= k <= high0) ==> a[k] == old(a[k])
    decreases high0 + 1 - low0, 1
  {
    var low, high := low0, high0;
    // one past the unsettled middle; it is high + 1 except when the loop breaks
    ghost var hi := high + 1;
    while low < high
      invariant low0 <= low <= high + 1 <= high0 + 1
      invariant hi == high + 1
      invariant Settled(a[..], low0, low, hi, high0 + 1)
      invariant multiset(a[..]) == old(multiset(a[..]))
      invariant forall k :: 0 <= k < a.Length && !(low0 <= k <= high0) ==> a[k] == old(a[k])
      decreases high - low
    {
      var pivotIndex, sortedLeft := SortRound(a, low0, high0, low, high);
      if sortedLeft {
        low := pivotIndex + 1;
      } else {
        if pivotIndex == 0 {
          hi := pivotIndex;
          break;
        }
        high := pivotIndex - 1;
        hi := high + 1;
      }
    }
    SettledSorted(a[..], low0, low, hi, high0 + 1);
  }

  /**
   * `quick_sort`: sort the first `n` keys in place; fewer than two keys are
   * left alone. The result is the one sorted arrangement of the input keys.
   */
  method QuickSort(a: array<Poscode>, n: nat)
    requires n <= a.Length
    modifies a
    ensures Sorted(a[..n])
    ensures multiset(a[..n]) == old(multiset(a[..n]))
    ensures a[n..] == old(a[n..])
    ensures n < 2 ==> a[..] == old(a[..])
  {
    if n < 2 {
      return;
    }
    QuickSortRecursive(a, 0, n - 1);
    SliceMultiset(old(a[..]), a[..], 0, n);
    assert a[..n] == a[0..n];
    assert a[n..] == old(a[n..]);
  }
}
