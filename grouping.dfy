/**
 * The shape of one counting-sort pass, for any element type and any bucket
 * function `key`: the elements are dealt into buckets `0..count-1`, each
 * bucket keeps the order the elements arrived in, and the buckets are read
 * out in ascending order. `countingSortByPosition` of cpp/src/utils.cpp is
 * this with `key` the bucket of the character at one position.
 */
module Grouping {

  /** The elements of `s` that go to bucket `b`, in their order in `s`. */
  function Run<T>(s: seq<T>, key: T -> nat, b: nat): seq<T>
    decreases |s|
  {
    if s == [] then []
    else Run(s[..|s| - 1], key, b) + (if key(s[|s| - 1]) == b then [s[|s| - 1]] else [])
  }

  /** Buckets `0..b-1` read out one after another. */
  function Grouped<T>(s: seq<T>, key: T -> nat, b: nat): seq<T>
    decreases b, s
  {
    if b == 0 then [] else Grouped(s, key, b - 1) + Run(s, key, b - 1)
  }

  /** The positions of `s[..i]` whose element goes to bucket `b`, ascending: a bucket's chain of node slots. */
  function IndexRun<T>(s: seq<T>, key: T -> nat, b: nat, i: nat): seq<nat>
    requires i <= |s|
    decreases i
  {
    if i == 0 then []
    else IndexRun(s, key, b, i - 1) + (if key(s[i - 1]) == b then [i - 1] else [])
  }

  /** `x` before `y` by bucket, and by `le` within one bucket. */
  predicate KeyThen<T>(key: T -> nat, le: (T, T) -> bool, x: T, y: T)
  {
    key(x) < key(y) || (key(x) == key(y) && le(x, y))
  }

  /** Every element of `s` goes to bucket `b`. */
  ghost predicate InBucket<T>(s: seq<T>, key: T -> nat, b: nat)
  {
    forall t :: 0 <= t < |s| ==> key(s[t]) == b
  }

  /** Every element of `s` goes to a bucket below `b`. */
  ghost predicate KeysBelow<T>(s: seq<T>, key: T -> nat, b: nat)
  {
    forall t :: 0 <= t < |s| ==> key(s[t]) < b
  }

  /** Every earlier element is related by `le` to every later one. */
  ghost predicate SortedBy<T>(s: seq<T>, le: (T, T) -> bool)
  {
    forall i, j :: 0 <= i < j < |s| ==> le(s[i], s[j])
  }

  // ---------------------------------------------------------------------
  // Runs

  lemma RunSnoc<T>(s: seq<T>, x: T, key: T -> nat, b: nat)
    ensures Run(s + [x], key, b) == Run(s, key, b) + (if key(x) == b then [x] else [])
  {
    assert (s + [x])[..|s|] == s;
  }

  /** A chain holds slots below `i` whose elements go to bucket `b`. */
  lemma {:induction false} IndexRunBelow<T>(s: seq<T>, key: T -> nat, b: nat, i: nat)
    requires i <= |s|
    ensures forall t :: 0 <= t < |IndexRun(s, key, b, i)| ==> IndexRun(s, key, b, i)[t] < i && key(s[IndexRun(s, key, b, i)[t]]) == b
    decreases i
  {
    if i > 0 {
      IndexRunBelow(s, key, b, i - 1);
    }
  }

  /** Reading a chain of slots gives the run. */
  lemma {:induction false} IndexRunKeys<T>(s: seq<T>, key: T -> nat, b: nat, i: nat)
    requires i <= |s|
    ensures |IndexRun(s, key, b, i)| == |Run(s[..i], key, b)|
    ensures forall t :: 0 <= t < |IndexRun(s, key, b, i)| ==> IndexRun(s, key, b, i)[t] < i && s[IndexRun(s, key, b, i)[t]] == Run(s[..i], key, b)[t]
    decreases i
  {
    IndexRunBelow(s, key, b, i);
    if i > 0 {
      IndexRunKeys(s, key, b, i - 1);
      assert s[..i] == s[..i - 1] + [s[i - 1]];
      RunSnoc(s[..i - 1], s[i - 1], key, b);
    }
  }

  /** The chain of all of `s` lists, in order, the slots of the run of bucket `b`. */
  lemma ChainKeys<T>(s: seq<T>, key: T -> nat, b: nat)
    ensures |IndexRun(s, key, b, |s|)| == |Run(s, key, b)|
    ensures forall t :: 0 <= t < |Run(s, key, b)| ==> IndexRun(s, key, b, |s|)[t] < |s| && s[IndexRun(s, key, b, |s|)[t]] == Run(s, key, b)[t]
  {
    IndexRunKeys(s, key, b, |s|);
    assert s[..|s|] == s;
  }

  /** A chain lists its slots in ascending order. */
  lemma {:induction false} IndexRunAscending<T>(s: seq<T>, key: T -> nat, b: nat, i: nat)
    requires i <= |s|
    ensures forall t, u :: 0 <= t < u < |IndexRun(s, key, b, i)| ==> IndexRun(s, key, b, i)[t] < IndexRun(s, key, b, i)[u]
    decreases i
  {
    if i > 0 {
      IndexRunAscending(s, key, b, i - 1);
      IndexRunBelow(s, key, b, i - 1);
    }
  }

  /** Every slot of `s[..i]` whose element goes to bucket `b` is on the chain. */
  lemma {:induction false} IndexRunComplete<T>(s: seq<T>, key: T -> nat, b: nat, i: nat, k: nat)
    requires k < i <= |s| && key(s[k]) == b
    ensures k in IndexRun(s, key, b, i)
    decreases i
  {
    if k < i - 1 {
      IndexRunComplete(s, key, b, i - 1, k);
    }
  }

  /** Every element of the run of bucket `b` goes to bucket `b`. */
  lemma {:induction false} RunInBucket<T>(s: seq<T>, key: T -> nat, b: nat)
    ensures InBucket(Run(s, key, b), key, b)
    decreases |s|
  {
    if s != [] {
      RunInBucket(s[..|s| - 1], key, b);
    }
  }

  /** A run is a subsequence of `s`: its elements sit at ascending slots of `s` in bucket `b`. */
  lemma RunSubsequence<T>(s: seq<T>, key: T -> nat, b: nat) returns (slots: seq<nat>)
    ensures |slots| == |Run(s, key, b)|
    ensures forall t :: 0 <= t < |slots| ==> slots[t] < |s| && s[slots[t]] == Run(s, key, b)[t]
    ensures forall t, u :: 0 <= t < u < |slots| ==> slots[t] < slots[u]
    ensures InBucket(Run(s, key, b), key, b)
  {
    slots := IndexRun(s, key, b, |s|);
    IndexRunBelow(s, key, b, |s|);
    IndexRunKeys(s, key, b, |s|);
    IndexRunAscending(s, key, b, |s|);
    assert s[..|s|] == s;
  }

  /** The run of a concatenation is the concatenation of the runs. */
  lemma {:induction false} RunAppend<T>(s: seq<T>, t: seq<T>, key: T -> nat, b: nat)
    ensures Run(s + t, key, b) == Run(s, key, b) + Run(t, key, b)
    decreases |t|
  {
    if t == [] {
      assert s + t == s;
    } else {
      var init, x := t[..|t| - 1], t[|t| - 1];
      assert s + t == (s + init) + [x];
      assert t == init + [x];
      RunSnoc(s + init, x, key, b);
      RunSnoc(init, x, key, b);
      RunAppend(s, init, key, b);
    }
  }

  /** Elements all in bucket `b` are their own run, and no other bucket's. */
  lemma {:induction false} RunOfBucket<T>(s: seq<T>, key: T -> nat, b: nat, c: nat)
    requires InBucket(s, key, b)
    ensures Run(s, key, c) == if c == b then s else []
    decreases |s|
  {
    if s != [] {
      var init := s[..|s| - 1];
      assert forall t :: 0 <= t < |init| ==> init[t] == s[t];
      RunOfBucket(init, key, b, c);
      assert s == init + [s[|s| - 1]];
    }
  }

  /** No element of `s` goes to a bucket at or above `b`. */
  lemma {:induction false} NoRunAbove<T>(s: seq<T>, key: T -> nat, b: nat, c: nat)
    requires KeysBelow(s, key, b) && b <= c
    ensures Run(s, key, c) == []
    decreases |s|
  {
    if s != [] {
      var init := s[..|s| - 1];
      assert forall t :: 0 <= t < |init| ==> init[t] == s[t];
      NoRunAbove(init, key, b, c);
    }
  }

  // ---------------------------------------------------------------------
  // Grouping

  lemma {:induction false} GroupedBelow<T>(s: seq<T>, key: T -> nat, b: nat)
    ensures KeysBelow(Grouped(s, key, b), key, b)
    decreases b
  {
    if b > 0 {
      var init, run := Grouped(s, key, b - 1), Run(s, key, b - 1);
      GroupedBelow(s, key, b - 1);
      var _ := RunSubsequence(s, key, b - 1);
      var g := init + run;
      assert Grouped(s, key, b) == g;
      forall t | 0 <= t < |g|
        ensures key(g[t]) < b
      {
        if t < |init| {
          assert g[t] == init[t];
        } else {
          assert g[t] == run[t - |init|];
        }
      }
    }
  }

  /** An element at or above bucket `b` does not change buckets `0..b-1`. */
  lemma {:induction false} GroupedSnocAbove<T>(s: seq<T>, x: T, key: T -> nat, b: nat)
    requires b <= key(x)
    ensures Grouped(s + [x], key, b) == Grouped(s, key, b)
    decreases b
  {
    if b > 0 {
      GroupedSnocAbove(s, x, key, b - 1);
      RunSnoc(s, x, key, b - 1);
    }
  }

  /** An element below bucket `b` adds itself to buckets `0..b-1`. */
  lemma {:induction false} GroupedSnocBelow<T>(s: seq<T>, x: T, key: T -> nat, b: nat)
    requires key(x) < b
    ensures multiset(Grouped(s + [x], key, b)) == multiset(Grouped(s, key, b)) + multiset{x}
    decreases b, 1
  {
    if key(x) == b - 1 {
      SnocLastBucket(s, x, key, b);
    } else {
      SnocEarlierBucket(s, x, key, b);
    }
  }

  lemma SnocLastBucket<T>(s: seq<T>, x: T, key: T -> nat, b: nat)
    requires key(x) == b - 1
    ensures multiset(Grouped(s + [x], key, b)) == multiset(Grouped(s, key, b)) + multiset{x}
  {
    SnocLastGrouped(s, x, key, b);
  }

  /** An element of the last bucket lands at the end. */
  lemma SnocLastGrouped<T>(s: seq<T>, x: T, key: T -> nat, b: nat)
    requires key(x) == b - 1
    ensures Grouped(s + [x], key, b) == Grouped(s, key, b) + [x]
  {
    var g, r := Grouped(s, key, b - 1), Run(s, key, b - 1);
    RunSnoc(s, x, key, b - 1);
    GroupedSnocAbove(s, x, key, b - 1);
    assert g + (r + [x]) == (g + r) + [x];
  }

  lemma {:induction false} SnocEarlierBucket<T>(s: seq<T>, x: T, key: T -> nat, b: nat)
    requires key(x) < b - 1
    ensures multiset(Grouped(s + [x], key, b)) == multiset(Grouped(s, key, b)) + multiset{x}
    decreases b, 0
  {
    var g, g', r := Grouped(s, key, b - 1), Grouped(s + [x], key, b - 1), Run(s, key, b - 1);
    RunSnoc(s, x, key, b - 1);
    GroupedSnocBelow(s, x, key, b - 1);
    assert Grouped(s + [x], key, b) == g' + r;
    AddedFirst(g, g', r, x);
  }

  lemma AddedFirst<T>(g: seq<T>, g': seq<T>, r: seq<T>, x: T)
    requires multiset(g') == multiset(g) + multiset{x}
    ensures multiset(g' + r) == multiset(g + r) + multiset{x}
  {
  }

  /** Grouping into enough buckets is a permutation. */
  lemma {:induction false} GroupedPermutes<T>(s: seq<T>, key: T -> nat, count: nat)
    requires KeysBelow(s, key, count)
    ensures multiset(Grouped(s, key, count)) == multiset(s)
    decreases |s|
  {
    if s == [] {
      SameBucketGrouped(s, key, 0, count);
    } else {
      var init, x := s[..|s| - 1], s[|s| - 1];
      assert s == init + [x];
      assert forall t :: 0 <= t < |init| ==> init[t] == s[t];
      GroupedPermutes(init, key, count);
      assert key(x) < count;
      GroupedSnocBelow(init, x, key, count);
      assert multiset(s) == multiset(init) + multiset{x};
    }
  }

  /** The run of bucket `c` is the same read off the grouped sequence as off the input. */
  lemma {:induction false} GroupedRun<T>(s: seq<T>, key: T -> nat, b: nat, c: nat)
    ensures Run(Grouped(s, key, b), key, c) == if c < b then Run(s, key, c) else []
    decreases b
  {
    if b > 0 {
      var init, run := Grouped(s, key, b - 1), Run(s, key, b - 1);
      assert Grouped(s, key, b) == init + run;
      var left, right := Run(init, key, c), Run(run, key, c);
      RunAppend(init, run, key, c);
      GroupedRun(s, key, b - 1, c);
      RunInBucket(s, key, b - 1);
      RunOfBucket(run, key, b - 1, c);
      if c < b - 1 {
        assert right == [] && left + right == left;
      } else if c == b - 1 {
        assert left == [] && left + right == right;
      } else {
        assert left == [] && right == [];
      }
    }
  }

  /**
   * Grouping is stable: read off the result, the elements of any one bucket
   * are those of the input, in the input's order.
   */
  lemma GroupedStable<T>(s: seq<T>, key: T -> nat, count: nat, c: nat)
    requires KeysBelow(s, key, count)
    ensures Run(Grouped(s, key, count), key, c) == Run(s, key, c)
  {
    GroupedRun(s, key, count, c);
    if c >= count {
      NoRunAbove(s, key, count, c);
    }
  }

  /** Elements that share one bucket pass through grouping unchanged. */
  lemma {:induction false} SameBucketGrouped<T>(s: seq<T>, key: T -> nat, b: nat, count: nat)
    requires InBucket(s, key, b)
    ensures Grouped(s, key, count) == if b < count then s else []
    decreases count
  {
    if count > 0 {
      SameBucketGrouped(s, key, b, count - 1);
      RunOfBucket(s, key, b, count - 1);
    }
  }

  /** The elements of `s` that `keep` selects, in their order in `s`. */
  function Filter<T>(s: seq<T>, keep: T -> bool): seq<T>
    decreases |s|
  {
    if s == [] then []
    else Filter(s[..|s| - 1], keep) + (if keep(s[|s| - 1]) then [s[|s| - 1]] else [])
  }

  lemma {:induction false} FilterAppend<T>(s: seq<T>, t: seq<T>, keep: T -> bool)
    ensures Filter(s + t, keep) == Filter(s, keep) + Filter(t, keep)
    decreases |t|
  {
    if t == [] {
      assert s + t == s;
    } else {
      var u, x := t[..|t| - 1], t[|t| - 1];
      var tail := if keep(x) then [x] else [];
      assert (s + t)[..|s + t| - 1] == s + u;
      assert (s + t)[|s + t| - 1] == x;
      assert Filter(s + t, keep) == Filter(s + u, keep) + tail;
      assert Filter(t, keep) == Filter(u, keep) + tail;
      FilterAppend(s, u, keep);
    }
  }

  /** Selecting only elements of bucket `b` from the run of `b` is selecting them from the whole. */
  lemma {:induction false} FilterRun<T>(s: seq<T>, key: T -> nat, b: nat, keep: T -> bool)
    requires forall x :: keep(x) ==> key(x) == b
    ensures Filter(Run(s, key, b), keep) == Filter(s, keep)
    decreases |s|
  {
    if s != [] {
      var init, x := s[..|s| - 1], s[|s| - 1];
      FilterRun(init, key, b, keep);
      FilterAppend(Run(init, key, b), if key(x) == b then [x] else [], keep);
      assert Filter([x], keep) == if keep(x) then [x] else [] by {
        assert [x][..0] == [];
      }
      if key(x) != b {
        assert Filter([], keep) == [];
      }
    }
  }

  /**
   * Grouping is stable in the strong sense: the elements of one bucket
   * that any selection picks come out in the order they went in.
   */
  lemma FilterGrouped<T>(s: seq<T>, key: T -> nat, count: nat, b: nat, keep: T -> bool)
    requires KeysBelow(s, key, count)
    requires forall x :: keep(x) ==> key(x) == b
    ensures Filter(Grouped(s, key, count), keep) == Filter(s, keep)
  {
    FilterRun(Grouped(s, key, count), key, b, keep);
    GroupedStable(s, key, count, b);
    FilterRun(s, key, b, keep);
  }

  // ---------------------------------------------------------------------
  // Order

  lemma SortedByConcat<T>(xs: seq<T>, ys: seq<T>, le: (T, T) -> bool)
    requires SortedBy(xs, le) && SortedBy(ys, le)
    requires forall i, j :: 0 <= i < |xs| && 0 <= j < |ys| ==> le(xs[i], ys[j])
    ensures SortedBy(xs + ys, le)
  {
    var s := xs + ys;
    forall i, j | 0 <= i < j < |s|
      ensures le(s[i], s[j])
    {
      if j < |xs| {
        assert s[i] == xs[i] && s[j] == xs[j];
      } else if i >= |xs| {
        assert s[i] == ys[i - |xs|] && s[j] == ys[j - |xs|];
      } else {
        assert s[i] == xs[i] && s[j] == ys[j - |xs|];
      }
    }
  }

  /** A run of an `le`-sorted sequence is `le`-sorted. */
  lemma RunSorted<T>(s: seq<T>, key: T -> nat, b: nat, le: (T, T) -> bool)
    requires SortedBy(s, le)
    ensures SortedBy(Run(s, key, b), le)
  {
    var slots := RunSubsequence(s, key, b);
    var r := Run(s, key, b);
    forall t, u | 0 <= t < u < |r|
      ensures le(r[t], r[u])
    {
      assert r[t] == s[slots[t]] && r[u] == s[slots[u]];
    }
  }

  /**
   * Grouping an `le`-sorted sequence sorts it by bucket first and by `le`
   * within a bucket: the step that makes least-significant-digit radix sort
   * work.
   */
  lemma {:induction false} GroupedSorted<T>(s: seq<T>, key: T -> nat, le: (T, T) -> bool, b: nat)
    requires SortedBy(s, le)
    ensures SortedBy(Grouped(s, key, b), (x: T, y: T) => KeyThen(key, le, x, y))
    decreases b
  {
    if b > 0 {
      var init, run := Grouped(s, key, b - 1), Run(s, key, b - 1);
      var order := (x: T, y: T) => KeyThen(key, le, x, y);
      GroupedSorted(s, key, le, b - 1);
      assert SortedBy(init, order);
      RunSorted(s, key, b - 1, le);
      var _ := RunSubsequence(s, key, b - 1);
      assert SortedBy(run, order) by {
        forall i, j | 0 <= i < j < |run|
          ensures order(run[i], run[j])
        {
        }
      }
      GroupedBelow(s, key, b - 1);
      forall i, j | 0 <= i < |init| && 0 <= j < |run|
        ensures order(init[i], run[j])
      {
      }
      SortedByConcat(init, run, order);
      assert Grouped(s, key, b) == init + run;
    }
  }

  /** The buckets below `b` come out first: a smaller grouping is a prefix of a larger one. */
  lemma {:induction false} GroupedPrefix<T>(s: seq<T>, key: T -> nat, b: nat, c: nat)
    requires b <= c
    ensures Grouped(s, key, b) <= Grouped(s, key, c)
    decreases c
  {
    if b < c {
      GroupedPrefix(s, key, b, c - 1);
    }
  }
}
