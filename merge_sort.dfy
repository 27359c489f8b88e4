/**
 * The mergesort engine of cpp/src/utils.cpp: top-down, with one buffer the
 * size of the input shared by every merge. The engine is written over any
 * key type and the `lessEqual` it merges by; `MergeSort` runs it on position
 * codes with `LessEqual`. `MergeFrom` and `MergeSortOf` say on values what the
 * in-place code computes, and the methods are proved to leave exactly those
 * values in the array.
 */
module MergeSortEngine {
  import opened Poscodes
  import opened KeyOrder
  import opened SeqFacts

  /**
   * The merge `mergeSections` performs, of what is left of the runs `xs`
   * and `ys` once `p` keys of `xs` and `q` keys of `ys` are taken:
   * repeatedly take the head of the left run when it is `le` the head of the
   * right run (so ties take the left key), else the head of the right run;
   * once a run is used up, the rest of the other.
   */
  function MergeFrom<T>(le: (T, T) -> bool, xs: seq<T>, ys: seq<T>, p: nat, q: nat): (r: seq<T>)
    requires p <= |xs| && q <= |ys|
    ensures |r| == (|xs| - p) + (|ys| - q)
    decreases (|xs| - p) + (|ys| - q)
  {
    if p == |xs| then ys[q..]
    else if q == |ys| then xs[p..]
    else if le(xs[p], ys[q]) then [xs[p]] + MergeFrom(le, xs, ys, p + 1, q)
    else [ys[q]] + MergeFrom(le, xs, ys, p, q + 1)
  }

  /** Merging keeps every key of both runs, and no other. */
  lemma {:induction false} MergeFromPermutes<T>(le: (T, T) -> bool, xs: seq<T>, ys: seq<T>, p: nat, q: nat)
    requires p <= |xs| && q <= |ys|
    ensures multiset(MergeFrom(le, xs, ys, p, q)) == multiset(xs[p..]) + multiset(ys[q..])
    decreases (|xs| - p) + (|ys| - q)
  {
    if p < |xs| && q < |ys| {
      var r := MergeFrom(le, xs, ys, p, q);
      HeadTail(r);
      if le(xs[p], ys[q]) {
        MergeFromPermutes(le, xs, ys, p + 1, q);
        DropOne(xs, p);
      } else {
        MergeFromPermutes(le, xs, ys, p, q + 1);
        DropOne(ys, q);
      }
    }
  }

  lemma MergePermutes<T>(le: (T, T) -> bool, xs: seq<T>, ys: seq<T>)
    ensures multiset(MergeFrom(le, xs, ys, 0, 0)) == multiset(xs) + multiset(ys)
  {
    MergeFromPermutes(le, xs, ys, 0, 0);
    assert xs[0..] == xs && ys[0..] == ys;
  }

  /*
   * How the first loop of `mergeSections` walks the runs `xs` and `ys`:
   * after `n` steps it has taken `LeftTaken(n)` keys from `xs` and the other
   * `n - LeftTaken(n)` from `ys`.
   */

  /** The number of keys of `xs` among the first `n` keys the loop takes. */
  function LeftTaken<T>(le: (T, T) -> bool, xs: seq<T>, ys: seq<T>, n: nat): (c: nat)
    requires n <= |xs| + |ys|
    ensures c <= n && c <= |xs| && n - c <= |ys|
    decreases n, 0
  {
    if n == 0 then 0
    else if TakesLeft(le, xs, ys, n - 1) then LeftTaken(le, xs, ys, n - 1) + 1
    else LeftTaken(le, xs, ys, n - 1)
  }

  /** Step `n` takes the head of `xs`: there is one, and `ys` is used up or its head is not smaller. */
  predicate TakesLeft<T>(le: (T, T) -> bool, xs: seq<T>, ys: seq<T>, n: nat)
    requires n < |xs| + |ys|
    decreases n, 1
  {
    var c := LeftTaken(le, xs, ys, n);
    c < |xs| && (n - c == |ys| || le(xs[c], ys[n - c]))
  }

  /**
   * After `n` steps of the walk, what is still to come of the merge is the
   * merge of what is left of the two runs.
   */
  lemma {:induction false} WalkRest<T>(le: (T, T) -> bool, xs: seq<T>, ys: seq<T>, n: nat)
    requires n <= |xs| + |ys|
    ensures MergeFrom(le, xs, ys, 0, 0)[n..] == MergeFrom(le, xs, ys, LeftTaken(le, xs, ys, n), n - LeftTaken(le, xs, ys, n))
    decreases n
  {
    if n > 0 {
      WalkRest(le, xs, ys, n - 1);
      var m := MergeFrom(le, xs, ys, 0, 0);
      assert m[n..] == m[n - 1..][1..];
      var c, c' := LeftTaken(le, xs, ys, n - 1), LeftTaken(le, xs, ys, n);
      if TakesLeft(le, xs, ys, n - 1) {
        assert c' == c + 1 && n - c' == n - 1 - c;
      } else {
        assert c' == c && n - c' == n - 1 - c + 1;
      }
    }
  }

  /** The first key of the merge of what is left of the runs. */
  lemma MergeFromHead<T>(le: (T, T) -> bool, xs: seq<T>, ys: seq<T>, p: nat, q: nat)
    requires p <= |xs| && q <= |ys| && p + q < |xs| + |ys|
    ensures MergeFrom(le, xs, ys, p, q)[0] ==
      if p < |xs| && (q == |ys| || le(xs[p], ys[q])) then xs[p] else ys[q]
  {
  }

  /**
   * Step `n` of the walk, from the cursor pair (`c`, `n - c`) with both
   * runs non-empty, takes the `n`-th key of the merge: the head of `xs`
   * unless the head of `ys` is smaller.
   */
  lemma TakeStep<T>(le: (T, T) -> bool, xs: seq<T>, ys: seq<T>, n: nat, c: nat)
    requires n < |xs| + |ys| && c == LeftTaken(le, xs, ys, n) && c < |xs| && n - c < |ys|
    ensures MergeFrom(le, xs, ys, 0, 0)[n] == if le(xs[c], ys[n - c]) then xs[c] else ys[n - c]
    ensures LeftTaken(le, xs, ys, n + 1) == if le(xs[c], ys[n - c]) then c + 1 else c
  {
    var rest := MergeFrom(le, xs, ys, c, n - c);
    WalkRest(le, xs, ys, n);
    MergeFromHead(le, xs, ys, c, n - c);
    assert MergeFrom(le, xs, ys, 0, 0)[n] == rest[0];
  }

  /** Once one run is used up, the merge of what is left is the rest of both runs. */
  lemma MergeFromDone<T>(le: (T, T) -> bool, xs: seq<T>, ys: seq<T>, p: nat, q: nat)
    requires p <= |xs| && q <= |ys| && (p == |xs| || q == |ys|)
    ensures MergeFrom(le, xs, ys, p, q) == xs[p..] + ys[q..]
  {
    if p == |xs| {
      assert xs[p..] == [];
    } else {
      assert ys[q..] == [];
    }
  }

  /**
   * Once the walk has used up one run, the rest of the merge is the rest of
   * the other run: what the drain loops copy.
   */
  lemma WalkDone<T>(le: (T, T) -> bool, xs: seq<T>, ys: seq<T>, n: nat)
    requires n <= |xs| + |ys|
    requires LeftTaken(le, xs, ys, n) == |xs| || n - LeftTaken(le, xs, ys, n) == |ys|
    ensures var c := LeftTaken(le, xs, ys, n);
      MergeFrom(le, xs, ys, 0, 0)[n..] == xs[c..] + ys[n - c..]
  {
    var c := LeftTaken(le, xs, ys, n);
    WalkRest(le, xs, ys, n);
    MergeFromDone(le, xs, ys, c, n - c);
  }

  /**
   * The first loop of `mergeSections`: while both runs `A[left..mid]` and
   * `A[mid+1..right]` have keys, copy the head the walk takes to the
   * buffer. On exit one run is used up and `buffer[left..k)` holds the keys
   * of the first `k - left` steps.
   */
  method MergeHeads<T>(le: (T, T) -> bool, a: array<T>, buffer: array<T>, left: nat, mid: nat, right: nat)
      returns (i: nat, j: nat, k: nat)
    requires left <= mid <= right && right < a.Length && right < buffer.Length && a != buffer
    modifies buffer
    ensures left <= i <= mid + 1 <= j <= right + 1 && k == i + j - (mid + 1)
    ensures i == mid + 1 || j == right + 1
    ensures i == left + LeftTaken(le, old(a[left..mid + 1]), old(a[mid + 1..right + 1]), k - left)
    ensures forall t :: left <= t < k ==>
      buffer[t] == MergeFrom(le, old(a[left..mid + 1]), old(a[mid + 1..right + 1]), 0, 0)[t - left]
    ensures forall t :: 0 <= t < buffer.Length && !(left <= t < k) ==> buffer[t] == old(buffer[t])
  {
    ghost var xs, ys := a[left..mid + 1], a[mid + 1..right + 1];
    i, j, k := left, mid + 1, left;
    ghost var n: nat := 0;
    while i <= mid && j <= right
      invariant left <= i <= mid + 1 <= j <= right + 1 && k == i + j - (mid + 1) && n == k - left
      invariant i == left + LeftTaken(le, xs, ys, n)
      invariant forall t :: left <= t < k ==> buffer[t] == MergeFrom(le, xs, ys, 0, 0)[t - left]
      invariant forall t :: 0 <= t < buffer.Length && !(left <= t < k) ==> buffer[t] == old(buffer[t])
      modifies buffer
    {
      i, j := TakeHead(le, a, buffer, left, mid, right, i, j, k, xs, ys, n);
      k, n := k + 1, n + 1;
    }
  }

  /** One pass of the first loop: copy the head the walk takes at step `n` to `buffer[k]` and advance its cursor. */
  method TakeHead<T>(le: (T, T) -> bool, a: array<T>, buffer: array<T>, left: nat, mid: nat, right: nat,
                     i: nat, j: nat, k: nat, ghost xs: seq<T>, ghost ys: seq<T>, ghost n: nat)
      returns (i': nat, j': nat)
    requires left <= i <= mid < j <= right < a.Length && k < buffer.Length && a != buffer
    requires xs == a[left..mid + 1] && ys == a[mid + 1..right + 1]
    requires k == i + j - (mid + 1) && n == k - left && i == left + LeftTaken(le, xs, ys, n)
    modifies buffer
    ensures buffer[k] == MergeFrom(le, xs, ys, 0, 0)[n]
    ensures forall t :: 0 <= t < buffer.Length && t != k ==> buffer[t] == old(buffer[t])
    ensures i' + j' == i + j + 1 && i <= i' <= mid + 1 && j <= j' <= right + 1
    ensures i' == left + LeftTaken(le, xs, ys, n + 1)
  {
    assert a[i] == xs[i - left] && a[j] == ys[j - (mid + 1)];
    TakeStep(le, xs, ys, n, i - left);
    if le(a[i], a[j]) {
      buffer[k] := a[i];
      i', j' := i + 1, j;
    } else {
      buffer[k] := a[j];
      i', j' := i, j + 1;
    }
  }

  /**
   * The second and third loops of `mergeSections`: copy `A[i..last]` (empty
   * when `i == last + 1`) to the buffer from `k` on.
   */
  method Drain<T>(a: array<T>, buffer: array<T>, i: nat, last: nat, k: nat, ghost run: seq<T>, ghost r: nat)
      returns (k': nat)
    requires i <= last + 1 <= a.Length && k + (last + 1 - i) <= buffer.Length && a != buffer
    requires r + (last + 1 - i) == |run| && forall x :: r <= x < |run| ==> run[x] == a[i + (x - r)]
    modifies buffer
    ensures k' == k + (last + 1 - i)
    ensures forall t :: k <= t < k' ==> buffer[t] == run[r + (t - k)]
    ensures forall t :: 0 <= t < buffer.Length && !(k <= t < k') ==> buffer[t] == old(buffer[t])
  {
    var from := i;
    k' := k;
    while from <= last
      invariant i <= from <= last + 1 && k' == k + (from - i)
      invariant forall t :: k <= t < k' ==> buffer[t] == run[r + (t - k)]
      invariant forall t :: 0 <= t < buffer.Length && !(k <= t < k') ==> buffer[t] == old(buffer[t])
      modifies buffer
    {
      assert a[from] == run[r + (from - i)];
      buffer[k'] := a[from];
      from, k' := from + 1, k' + 1;
    }
  }

  /**
   * What the three copying loops leave in the buffer: the first `n` steps
   * of the walk from `left` on, then the rest of the left run, then the rest
   * of the right run. When one run was used up that is the whole merge.
   */
  lemma Assemble<T>(le: (T, T) -> bool, xs: seq<T>, ys: seq<T>, b: seq<T>, left: nat, n: nat, c: nat, k1: nat, k2: nat)
    requires n <= |xs| + |ys| && left + |xs| + |ys| <= |b|
    requires c == LeftTaken(le, xs, ys, n) && (c == |xs| || n - c == |ys|)
    requires k1 == left + n && k2 == k1 + (|xs| - c)
    requires forall t :: left <= t < k1 ==> b[t] == MergeFrom(le, xs, ys, 0, 0)[t - left]
    requires forall t :: k1 <= t < k2 ==> b[t] == xs[c + (t - k1)]
    requires forall t :: k2 <= t < left + |xs| + |ys| ==> b[t] == ys[n - c + (t - k2)]
    ensures forall t :: left <= t < left + |xs| + |ys| ==> b[t] == MergeFrom(le, xs, ys, 0, 0)[t - left]
  {
    var m := MergeFrom(le, xs, ys, 0, 0);
    WalkDone(le, xs, ys, n);
    forall t | left + n <= t < left + |xs| + |ys|
      ensures b[t] == m[t - left]
    {
      assert m[t - left] == m[n..][t - (left + n)];
    }
  }

  /** The last loop of `mergeSections`: copy `buffer[left..right]` back to `A[left..right]`. */
  method CopyBack<T>(a: array<T>, buffer: array<T>, left: nat, right: nat)
    requires left <= right + 1 && right < a.Length && right < buffer.Length && a != buffer
    modifies a
    ensures forall t :: left <= t <= right ==> a[t] == buffer[t]
    ensures forall t :: 0 <= t < a.Length && !(left <= t <= right) ==> a[t] == old(a[t])
  {
    var idx := left;
    while idx <= right
      invariant left <= idx <= right + 1
      invariant forall t :: left <= t < idx ==> a[t] == buffer[t]
      invariant forall t :: 0 <= t < a.Length && !(left <= t < idx) ==> a[t] == old(a[t])
    {
      a[idx] := buffer[idx];
      idx := idx + 1;
    }
  }

  /**
   * The first three loops of `mergeSections`: merge the runs `A[left..mid]`
   * and `A[mid+1..right]` into `buffer[left..right]`.
   */
  method MergeToBuffer<T>(le: (T, T) -> bool, a: array<T>, buffer: array<T>, left: nat, mid: nat, right: nat)
    requires left <= mid <= right < a.Length && right < buffer.Length && a != buffer
    modifies buffer
    ensures forall t :: left <= t <= right ==> buffer[t] == MergeFrom(le, a[left..mid + 1], a[mid + 1..right + 1], 0, 0)[t - left]
    ensures forall t :: 0 <= t < buffer.Length && !(left <= t <= right) ==> buffer[t] == old(buffer[t])
  {
    ghost var xs, ys := a[left..mid + 1], a[mid + 1..right + 1];
    var i, j, k := MergeHeads(le, a, buffer, left, mid, right);
    ghost var n := k - left;
    ghost var c := i - left;
    ghost var k1 := k;
    k := Drain(a, buffer, i, mid, k, xs, c);
    ghost var k2 := k;
    k := Drain(a, buffer, j, right, k, ys, n - c);
    Assemble(le, xs, ys, buffer[..], left, n, c, k1, k2);
  }

  /**
   * `mergeSections`: merge the sorted runs `A[left..mid]` and
   * `A[mid+1..right]` through the buffer and copy the result back. The range
   * then holds `Merge` of the two runs; neither array changes outside it.
   */
  method MergeSections<T>(le: (T, T) -> bool, a: array<T>, buffer: array<T>, left: nat, mid: nat, right: nat)
    requires left <= mid <= right < a.Length && right < buffer.Length && a != buffer
    modifies a, buffer
    ensures a[..] == Spliced(old(a[..]), left, right + 1, MergeFrom(le, old(a[left..mid + 1]), old(a[mid + 1..right + 1]), 0, 0))
    ensures forall t :: 0 <= t < buffer.Length && !(left <= t <= right) ==> buffer[t] == old(buffer[t])
  {
    ghost var s := a[..];
    MergeToBuffer(le, a, buffer, left, mid, right);
    CopyBack(a, buffer, left, right);
    Splice(a[..], s, MergeFrom(le, s[left..mid + 1], s[mid + 1..right + 1], 0, 0), left, right + 1);
  }

  /**
   * What `mergeSortRecursive` leaves in a range holding `s`: ranges of at
   * most one key stay as they are; longer ones are split after the middle
   * key `mid = left + (right - left) / 2`, both halves sorted, then merged.
   */
  function MergeSortOf<T>(le: (T, T) -> bool, s: seq<T>): (r: seq<T>)
    ensures |r| == |s|
    decreases |s|
  {
    if |s| <= 1 then s
    else
      var h := (|s| - 1) / 2 + 1;
      MergeFrom(le, MergeSortOf(le, s[..h]), MergeSortOf(le, s[h..]), 0, 0)
  }

  /** Mergesort keeps every key, and no other. */
  lemma {:induction false} MergeSortOfPermutes<T>(le: (T, T) -> bool, s: seq<T>)
    ensures multiset(MergeSortOf(le, s)) == multiset(s)
    decreases |s|
  {
    if |s| > 1 {
      var h := (|s| - 1) / 2 + 1;
      MergeSortOfPermutes(le, s[..h]);
      MergeSortOfPermutes(le, s[h..]);
      MergePermutes(le, MergeSortOf(le, s[..h]), MergeSortOf(le, s[h..]));
      assert s == s[..h] + s[h..];
    }
  }

  /**
   * Merging sorted runs by `lessEqual` gives a sorted run: the key taken
   * first is at most every key still to come.
   */
  lemma {:induction false} MergeFromSorted(xs: seq<Poscode>, ys: seq<Poscode>, p: nat, q: nat)
    requires p <= |xs| && q <= |ys| && Sorted(xs) && Sorted(ys)
    ensures Sorted(MergeFrom(LessEqual, xs, ys, p, q))
    decreases |xs| - p + |ys| - q
  {
    if p == |xs| {
      SortedDrop(ys, q);
    } else if q == |ys| {
      SortedDrop(xs, p);
    } else {
      SortedDrop(xs, p);
      SortedDrop(ys, q);
      var head := if LessEqual(xs[p], ys[q]) then xs[p] else ys[q];
      var p', q' := if LessEqual(xs[p], ys[q]) then p + 1 else p, if LessEqual(xs[p], ys[q]) then q else q + 1;
      MergeFromSorted(xs, ys, p', q');
      var rest := MergeFrom(LessEqual, xs, ys, p', q');
      MergeFromPermutes(LessEqual, xs, ys, p', q');
      forall w | w in rest
        ensures LessEqual(head, w)
      {
        assert w in multiset(rest);
        if w in xs[p'..] {
          assert w in xs[p..];
          SortedHead(xs[p..], w);
          LessEqualTotal(xs[p], ys[q]);
          if head != xs[p] {
            LessEqualTransitive(head, xs[p], w);
          }
        } else {
          assert w in ys[q'..];
          assert w in ys[q..];
          SortedHead(ys[q..], w);
          if head != ys[q] {
            LessEqualTransitive(head, ys[q], w);
          }
        }
      }
      SortedCons(head, rest);
    }
  }

  /** What `merge_sort` leaves is sorted. */
  lemma {:induction false} MergeSortOfSorted(s: seq<Poscode>)
    ensures Sorted(MergeSortOf(LessEqual, s))
    decreases |s|
  {
    if |s| > 1 {
      var h := (|s| - 1) / 2 + 1;
      MergeSortOfSorted(s[..h]);
      MergeSortOfSorted(s[h..]);
      MergeFromSorted(MergeSortOf(LessEqual, s[..h]), MergeSortOf(LessEqual, s[h..]), 0, 0);
    }
  }

  /**
   * Any sorted arrangement of the keys of `s` is what `merge_sort` makes of
   * `s`, so mergesorting is idempotent and agrees with every other correct
   * sort of position codes.
   */
  lemma SortedIsMergeSortOf(s: seq<Poscode>, t: seq<Poscode>)
    requires Sorted(t) && multiset(t) == multiset(s)
    ensures t == MergeSortOf(LessEqual, s)
  {
    MergeSortOfSorted(s);
    MergeSortOfPermutes(LessEqual, s);
    SortedUnique(t, MergeSortOf(LessEqual, s));
  }

  /** Mergesorting sorted keys changes nothing, and mergesorting twice is mergesorting once. */
  lemma MergeSortOfIdempotent(s: seq<Poscode>)
    ensures Sorted(s) ==> MergeSortOf(LessEqual, s) == s
    ensures MergeSortOf(LessEqual, MergeSortOf(LessEqual, s)) == MergeSortOf(LessEqual, s)
  {
    if Sorted(s) {
      SortedIsMergeSortOf(s, s);
    }
    MergeSortOfSorted(s);
    SortedIsMergeSortOf(MergeSortOf(LessEqual, s), MergeSortOf(LessEqual, s));
  }

  /** The split `MergeSortOf` makes is the one at `mid` for the range `[left, right]`. */
  lemma MergeSortOfRange<T>(le: (T, T) -> bool, s: seq<T>, left: nat, mid: nat, right: nat)
    requires left < right < |s| && mid == left + (right - left) / 2
    ensures MergeSortOf(le, s[left..right + 1])
         == MergeFrom(le, MergeSortOf(le, s[left..mid + 1]), MergeSortOf(le, s[mid + 1..right + 1]), 0, 0)
  {
    var r := s[left..right + 1];
    assert r[..mid + 1 - left] == s[left..mid + 1];
    assert r[mid + 1 - left..] == s[mid + 1..right + 1];
  }

  /**
   * The two recursive calls on values: `s0` is the array before, `s1` after
   * its left half is replaced by `x`, `s2` after its right half is replaced
   * by `y`. The right half is still untouched when it is sorted.
   */
  lemma HalvesRound<T>(s0: seq<T>, s1: seq<T>, s2: seq<T>, left: nat, mid: nat, right: nat, x: seq<T>, y: seq<T>)
    requires left <= mid < right < |s0| && |x| == mid + 1 - left && |y| == right - mid
    requires s1 == Spliced(s0, left, mid + 1, x)
    requires s2 == Spliced(s1, mid + 1, right + 1, y)
    ensures s1[mid + 1..right + 1] == s0[mid + 1..right + 1]
    ensures s2 == Spliced(s0, left, right + 1, x + y)
  {
    SplicedParts(s0, left, mid + 1, x);
    SplicedParts(s1, mid + 1, right + 1, y);
    DropTake(s1, mid + 1, right + 1);
    DropTake(s0, mid + 1, right + 1);
    TakeTake(s1, mid + 1, left);
    DropDrop(s1, mid + 1, right + 1);
    DropDrop(s0, mid + 1, right + 1);
    assert s1[..mid + 1] == s0[..left] + x;
  }

  /** The merge on values: `s1` holds `x + y` in the range, and `s2` the range replaced by `z`. */
  lemma MergedRound<T>(s0: seq<T>, s1: seq<T>, s2: seq<T>, left: nat, mid: nat, right: nat, x: seq<T>, y: seq<T>, z: seq<T>)
    requires left <= mid < right < |s0| && |x| == mid + 1 - left && |y| == right - mid
    requires s1 == Spliced(s0, left, right + 1, x + y)
    requires s2 == Spliced(s1, left, right + 1, z)
    ensures s1[left..mid + 1] == x && s1[mid + 1..right + 1] == y
    ensures s2 == Spliced(s0, left, right + 1, z)
  {
    SplicedParts(s0, left, right + 1, x + y);
    assert s1[left..mid + 1] == s1[left..right + 1][..mid + 1 - left];
    assert s1[mid + 1..right + 1] == s1[left..right + 1][mid + 1 - left..];
  }

  /**
   * `mergeSortRecursive`: sort `A[left..right]` (inclusive bounds) through
   * the shared buffer. The range ends up holding `MergeSortOf` of what it
   * held; the rest of `A` is untouched.
   */
  method MergeSortRecursive<T>(le: (T, T) -> bool, a: array<T>, buffer: array<T>, left: nat, right: nat)
    requires left <= right < a.Length && right < buffer.Length && a != buffer
    modifies a, buffer
    ensures a[..] == Spliced(old(a[..]), left, right + 1, MergeSortOf(le, old(a[left..right + 1])))
    decreases right - left, 1
  {
    if left >= right {
      SplicedSelf(a[..], left, right + 1);
      return;
    }
    var mid := left + (right - left) / 2;
    ghost var s0 := a[..];
    SortHalves(le, a, buffer, left, mid, right);
    ghost var s2 := a[..];
    MergeSections(le, a, buffer, left, mid, right);
    MergedRound(s0, s2, a[..], left, mid, right, MergeSortOf(le, s0[left..mid + 1]),
                MergeSortOf(le, s0[mid + 1..right + 1]), MergeFrom(le, s2[left..mid + 1], s2[mid + 1..right + 1], 0, 0));
    MergeSortOfRange(le, s0, left, mid, right);
  }

  /** The two recursive calls of `mergeSortRecursive`: each half ends up holding `MergeSortOf` of what it held. */
  method SortHalves<T>(le: (T, T) -> bool, a: array<T>, buffer: array<T>, left: nat, mid: nat, right: nat)
    requires left <= mid < right < a.Length && right < buffer.Length && a != buffer
    modifies a, buffer
    ensures a[..] == Spliced(old(a[..]), left, right + 1,
                             MergeSortOf(le, old(a[left..mid + 1])) + MergeSortOf(le, old(a[mid + 1..right + 1])))
    decreases right - left, 0
  {
    ghost var s0 := a[..];
    MergeSortRecursive(le, a, buffer, left, mid);
    ghost var s1 := a[..];
    MergeSortRecursive(le, a, buffer, mid + 1, right);
    HalvesRound(s0, s1, a[..], left, mid, right, MergeSortOf(le, s0[left..mid + 1]), MergeSortOf(le, s1[mid + 1..right + 1]));
  }

  /**
   * `merge_sort`: sort the first `n` keys with a fresh buffer of `n`
   * default keys; fewer than two keys are left alone.
   */
  method MergeSort(a: array<Poscode>, n: nat)
    requires n <= a.Length
    modifies a
    ensures a[..n] == MergeSortOf(LessEqual, old(a[..n]))
    ensures Sorted(a[..n]) && multiset(a[..n]) == multiset(old(a[..n]))
    ensures a[n..] == old(a[n..])
    ensures n < 2 ==> a[..] == old(a[..])
  {
    MergeSortOfSorted(a[..n]);
    MergeSortOfPermutes(LessEqual, a[..n]);
    if n < 2 {
      return;
    }
    var buffer := new Poscode[n](_ => EmptyCode());
    ghost var s := a[..];
    MergeSortRecursive(LessEqual, a, buffer, 0, n - 1);
    assert s[0..n] == s[..n];
    SplicedParts(s, 0, n, MergeSortOf(LessEqual, s[..n]));
  }
}
