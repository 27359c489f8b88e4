/**
 * Least-significant-digit radix sort for any element type: `keyAt(q)` is
 * the bucket function of digit `q`, and the passes group by digit
 * `p - 1`, then `p - 2`, ..., then 0. `radix_sort` of cpp/src/utils.cpp is
 * this with six digits, the characters of a key.
 */
module LsdPasses {
  import opened Grouping

  /** The passes at digits `p - 1` down to 0, in that order. */
  function Passes<T>(s: seq<T>, keyAt: nat -> T -> nat, count: nat, p: nat): seq<T>
    decreases p, s
  {
    if p == 0 then s else Passes(Grouped(s, keyAt(p - 1), count), keyAt, count, p - 1)
  }

  /** `x` is at most `y` comparing digits `q`, ..., `len - 1`, the first most significant. */
  predicate LexLe<T>(keyAt: nat -> T -> nat, len: nat, x: T, y: T, q: nat)
    decreases len - q
  {
    q >= len ||
    keyAt(q)(x) < keyAt(q)(y) ||
    (keyAt(q)(x) == keyAt(q)(y) && LexLe(keyAt, len, x, y, q + 1))
  }

  /** The digit order from digit `q` as a relation. */
  function LexFrom<T>(keyAt: nat -> T -> nat, len: nat, q: nat): (T, T) -> bool
  {
    (x, y) => LexLe(keyAt, len, x, y, q)
  }

  /** The passes permute their input. */
  lemma {:induction false} PassesPermute<T>(s: seq<T>, keyAt: nat -> T -> nat, count: nat, p: nat)
    requires forall q: nat, x: T :: keyAt(q)(x) < count
    ensures multiset(Passes(s, keyAt, count, p)) == multiset(s)
    decreases p, 1
  {
    if p == 0 {
    } else {
      PassStepPermutes(s, keyAt, count, p - 1);
    }
  }

  lemma {:induction false} PassStepPermutes<T>(s: seq<T>, keyAt: nat -> T -> nat, count: nat, q: nat)
    requires forall q: nat, x: T :: keyAt(q)(x) < count
    ensures multiset(Passes(s, keyAt, count, q + 1)) == multiset(s)
    decreases q + 1, 0
  {
    var t := Grouped(s, keyAt(q), count);
    assert Passes(s, keyAt, count, q + 1) == Passes(t, keyAt, count, q);
    assert KeysBelow(s, keyAt(q), count);
    GroupedPermutes(s, keyAt(q), count);
    PassesPermute(t, keyAt, count, q);
  }

  /** A pass at digit `q` turns order from digit `q + 1` into order from digit `q`. */
  lemma PassSorts<T>(s: seq<T>, keyAt: nat -> T -> nat, count: nat, len: nat, q: nat)
    requires q < len
    requires SortedBy(s, LexFrom(keyAt, len, q + 1))
    ensures SortedBy(Grouped(s, keyAt(q), count), LexFrom(keyAt, len, q))
  {
    var key, le := keyAt(q), LexFrom(keyAt, len, q + 1);
    GroupedSorted(s, key, le, count);
    var r := Grouped(s, key, count);
    forall i, j | 0 <= i < j < |r|
      ensures LexLe(keyAt, len, r[i], r[j], q)
    {
      assert KeyThen(key, le, r[i], r[j]);
    }
  }

  /** Passes at digits `p - 1` down to 0 extend order from digit `p` to order from digit 0. */
  lemma {:induction false} PassesSorted<T>(s: seq<T>, keyAt: nat -> T -> nat, count: nat, len: nat, p: nat)
    requires p <= len
    requires SortedBy(s, LexFrom(keyAt, len, p))
    ensures SortedBy(Passes(s, keyAt, count, p), LexFrom(keyAt, len, 0))
    decreases p, 1
  {
    if p == 0 {
    } else {
      PassStepSorted(s, keyAt, count, len, p - 1);
    }
  }

  lemma {:induction false} PassStepSorted<T>(s: seq<T>, keyAt: nat -> T -> nat, count: nat, len: nat, q: nat)
    requires q < len
    requires SortedBy(s, LexFrom(keyAt, len, q + 1))
    ensures SortedBy(Passes(s, keyAt, count, q + 1), LexFrom(keyAt, len, 0))
    decreases q + 1, 0
  {
    var t := Grouped(s, keyAt(q), count);
    assert Passes(s, keyAt, count, q + 1) == Passes(t, keyAt, count, q);
    PassSorts(s, keyAt, count, len, q);
    PassesSorted(t, keyAt, count, len, q);
  }

  /** `len` passes sort by all `len` digits, whatever the input order. */
  lemma LsdSorts<T>(s: seq<T>, keyAt: nat -> T -> nat, count: nat, len: nat)
    ensures SortedBy(Passes(s, keyAt, count, len), LexFrom(keyAt, len, 0))
  {
    assert SortedBy(s, LexFrom(keyAt, len, len));
    PassesSorted(s, keyAt, count, len, len);
  }

  /**
   * The passes are stable: elements that agree on every digit below `p`
   * (each digit `q` is `digit(q)` for all of them) come out in the order they
   * went in, whatever else `keep` selects among them.
   */
  lemma {:induction false} PassesStable<T>(s: seq<T>, keyAt: nat -> T -> nat, count: nat, p: nat,
                                           digit: nat -> nat, keep: T -> bool)
    requires forall q: nat, x: T :: keyAt(q)(x) < count
    requires forall q: nat, x: T :: q < p && keep(x) ==> keyAt(q)(x) == digit(q)
    ensures Filter(Passes(s, keyAt, count, p), keep) == Filter(s, keep)
    decreases p, 1
  {
    if p > 0 {
      PassStepStable(s, keyAt, count, p - 1, digit, keep);
    }
  }

  lemma {:induction false} PassStepStable<T>(s: seq<T>, keyAt: nat -> T -> nat, count: nat, q: nat,
                                             digit: nat -> nat, keep: T -> bool)
    requires forall q: nat, x: T :: keyAt(q)(x) < count
    requires forall r: nat, x: T :: r < q + 1 && keep(x) ==> keyAt(r)(x) == digit(r)
    ensures Filter(Passes(s, keyAt, count, q + 1), keep) == Filter(s, keep)
    decreases q + 1, 0
  {
    var key := keyAt(q);
    var t := Grouped(s, key, count);
    assert Passes(s, keyAt, count, q + 1) == Passes(t, keyAt, count, q);
    PassesStable(t, keyAt, count, q, digit, keep);
    assert KeysBelow(s, key, count);
    assert forall x :: keep(x) ==> key(x) == digit(q);
    FilterGrouped(s, key, count, digit(q), keep);
  }

  /** Elements that share bucket `b` at every digit go through every pass unchanged. */
  lemma {:induction false} SharedBucketPasses<T>(s: seq<T>, keyAt: nat -> T -> nat, count: nat, p: nat, b: nat)
    requires b < count
    requires forall t, q :: 0 <= t < |s| && 0 <= q < p ==> keyAt(q)(s[t]) == b
    ensures Passes(s, keyAt, count, p) == s
    decreases p, 1
  {
    if p == 0 {
    } else {
      SharedBucketStep(s, keyAt, count, p - 1, b);
    }
  }

  lemma {:induction false} SharedBucketStep<T>(s: seq<T>, keyAt: nat -> T -> nat, count: nat, q: nat, b: nat)
    requires b < count
    requires forall t, r :: 0 <= t < |s| && 0 <= r < q + 1 ==> keyAt(r)(s[t]) == b
    ensures Passes(s, keyAt, count, q + 1) == s
    decreases q + 1, 0
  {
    assert InBucket(s, keyAt(q), b);
    SameBucketGrouped(s, keyAt(q), b, count);
    assert Passes(s, keyAt, count, q + 1) == Passes(s, keyAt, count, q);
    SharedBucketPasses(s, keyAt, count, q, b);
  }
}
