/**
 * What `radix_sort` of cpp/src/utils.cpp computes, on values: the passes of
 * `LsdPasses` with the bucket of a key's character at each position as its
 * digits. One call of `countingSortByPosition` at `position` is
 * `CountingPass`; `radix_sort` applies it at positions 5, 4, ..., 0.
 */
module RadixSpec {
  import opened Wrappers
  import opened Poscodes
  import opened KeyOrder
  import opened CharMapping
  import opened Grouping
  import opened LsdPasses
  import opened MergeSortEngine
  import opened SeqFacts

  /** `CODE_LENGTH` of `radix_sort`: one pass per key position. */
  const CODE_LENGTH: nat := 6

  /** Every key has a character at each of the positions `0..len-1`. */
  ghost predicate LongKeys(s: seq<Poscode>, len: nat)
  {
    forall t :: 0 <= t < |s| ==> len <= |s[t].data|
  }

  /**
   * The outcome of `countingSortByPosition` reading character `position` of
   * every key in turn: the out-of-range error of the first key too short to
   * have one, or success when every key is long enough.
   */
  function KeyCheck(s: seq<Poscode>, position: nat): (o: Outcome<KeyError>)
    ensures o.Pass? <==> LongKeys(s, position + 1)
    decreases |s|
  {
    if s == [] then Pass
    else
      var last := s[|s| - 1];
      assert s[..|s| - 1][..|s| - 1] == s[..|s| - 1];
      match KeyCheck(s[..|s| - 1], position)
      case Fail(e) => Fail(e)
      case Pass => if |last.data| <= position then Fail(OutOfRange(position, |last.data|)) else Pass
  }

  /** A failed check reports the first key that is too short, with its length. */
  lemma {:induction false} KeyCheckFirstShort(s: seq<Poscode>, position: nat) returns (t: nat)
    requires KeyCheck(s, position).Fail?
    ensures t < |s| && |s[t].data| <= position && LongKeys(s[..t], position + 1)
    ensures KeyCheck(s, position).error == OutOfRange(position, |s[t].data|)
    decreases |s|
  {
    var init := s[..|s| - 1];
    if KeyCheck(init, position).Fail? {
      t := KeyCheckFirstShort(init, position);
      assert s[..t] == init[..t];
    } else {
      t := |s| - 1;
      assert s[..t] == init;
    }
  }

  /** Once a prefix of the keys fails the check, the keys after it are never read. */
  lemma {:induction false} KeyCheckPrefix(s: seq<Poscode>, position: nat, i: nat)
    requires i <= |s| && KeyCheck(s[..i], position).Fail?
    ensures KeyCheck(s, position) == KeyCheck(s[..i], position)
    decreases |s|
  {
    if i < |s| {
      var init := s[..|s| - 1];
      assert init[..i] == s[..i];
      KeyCheckPrefix(init, position, i);
    } else {
      assert s[..i] == s;
    }
  }

  /** Rearranging the keys keeps them long enough. */
  lemma LongKeysPermuted(s: seq<Poscode>, t: seq<Poscode>, len: nat)
    requires multiset(t) == multiset(s) && LongKeys(s, len)
    ensures LongKeys(t, len)
  {
    forall k | 0 <= k < |t|
      ensures len <= |t[k].data|
    {
      assert t[k] in multiset(s);
      var u :| 0 <= u < |s| && s[u] == t[k];
    }
  }

  /**
   * The bucket of a key's character at `position`. For a key too short to
   * have one the value 0 is never consulted: `radix_sort` stops with an
   * error before any pass would use it.
   */
  function BucketAt(x: Poscode, position: nat): nat
  {
    if position < |x.data| then Bucket(x.data[position]) else 0
  }

  /** The digits of a key: its characters' buckets, position by position. */
  function BucketKeys(): nat -> Poscode -> nat
  {
    position => x => BucketAt(x, position)
  }

  /** One call of `countingSortByPosition` at `position`. */
  function CountingPass(s: seq<Poscode>, position: nat): seq<Poscode>
  {
    Grouped(s, BucketKeys()(position), BucketTotal)
  }

  /** `radix_sort`: passes at positions `CODE_LENGTH - 1` down to 0. */
  function RadixOf(s: seq<Poscode>): seq<Poscode>
  {
    Passes(s, BucketKeys(), BucketTotal, CODE_LENGTH)
  }

  /** Bucket order: the buckets of positions `q`, ..., `CODE_LENGTH - 1`, the first most significant. */
  predicate BucketLe(x: Poscode, y: Poscode, q: nat)
  {
    LexLe(BucketKeys(), CODE_LENGTH, x, y, q)
  }

  lemma BucketKeysInRange()
    ensures forall q: nat, x: Poscode :: BucketKeys()(q)(x) < BucketTotal
  {
    forall q: nat, x: Poscode
      ensures BucketKeys()(q)(x) < BucketTotal
    {
      if q < |x.data| {
        BucketBound(x.data[q]);
      }
    }
  }

  /** A counting pass is a permutation of its input. */
  lemma CountingPassPermutes(s: seq<Poscode>, position: nat)
    ensures multiset(CountingPass(s, position)) == multiset(s)
  {
    BucketKeysInRange();
    assert KeysBelow(s, BucketKeys()(position), BucketTotal);
    GroupedPermutes(s, BucketKeys()(position), BucketTotal);
  }

  /**
   * A counting pass is stable: the keys of any one bucket come out in the
   * order they went in.
   */
  lemma CountingPassStable(s: seq<Poscode>, position: nat, b: nat)
    ensures Run(CountingPass(s, position), BucketKeys()(position), b) == Run(s, BucketKeys()(position), b)
  {
    BucketKeysInRange();
    assert KeysBelow(s, BucketKeys()(position), BucketTotal);
    GroupedStable(s, BucketKeys()(position), BucketTotal, b);
  }

  /** A counting pass orders the keys by the bucket of their character at `position`. */
  lemma CountingPassOrdered(s: seq<Poscode>, position: nat)
    ensures forall i, j :: 0 <= i < j < |CountingPass(s, position)| ==>
      BucketAt(CountingPass(s, position)[i], position) <= BucketAt(CountingPass(s, position)[j], position)
  {
    var key, any := BucketKeys()(position), (x: Poscode, y: Poscode) => true;
    assert SortedBy(s, any);
    GroupedSorted(s, key, any, BucketTotal);
    var r := CountingPass(s, position);
    forall i, j | 0 <= i < j < |r|
      ensures BucketAt(r[i], position) <= BucketAt(r[j], position)
    {
      assert KeyThen(key, any, r[i], r[j]);
    }
  }

  /** A counting pass keeps the number of keys. */
  lemma CountingPassLength(s: seq<Poscode>, position: nat)
    ensures |CountingPass(s, position)| == |s|
  {
    CountingPassPermutes(s, position);
    assert |multiset(CountingPass(s, position))| == |multiset(s)|;
  }

  /** The first of the remaining passes is a counting pass at the highest remaining position. */
  lemma RadixStep(s: seq<Poscode>, q: nat)
    ensures Passes(s, BucketKeys(), BucketTotal, q + 1) == Passes(CountingPass(s, q), BucketKeys(), BucketTotal, q)
  {
  }

  /**
   * `radix_sort` sorts by buckets: the result holds the input's keys and is
   * in bucket order over all `CODE_LENGTH` positions.
   */
  lemma RadixSorted(s: seq<Poscode>)
    ensures multiset(RadixOf(s)) == multiset(s)
    ensures forall i, j :: 0 <= i < j < |RadixOf(s)| ==> BucketLe(RadixOf(s)[i], RadixOf(s)[j], 0)
  {
    BucketKeysInRange();
    PassesPermute(s, BucketKeys(), BucketTotal, CODE_LENGTH);
    LsdSorts(s, BucketKeys(), BucketTotal, CODE_LENGTH);
    var r := RadixOf(s);
    forall i, j | 0 <= i < j < |r|
      ensures BucketLe(r[i], r[j], 0)
    {
      assert LexFrom(BucketKeys(), CODE_LENGTH, 0)(r[i], r[j]);
    }
  }

  /**
   * `radix_sort` is stable: keys whose characters fall into the same buckets
   * as those of `v` at every position come out in their input order.
   * `keep` may narrow the selection further.
   */
  lemma RadixStable(s: seq<Poscode>, v: Poscode, keep: Poscode -> bool)
    requires forall x: Poscode, q: nat :: q < CODE_LENGTH && keep(x) ==> BucketAt(x, q) == BucketAt(v, q)
    ensures Filter(RadixOf(s), keep) == Filter(s, keep)
  {
    BucketKeysInRange();
    var digit := (q: nat) => BucketAt(v, q);
    forall q: nat, x: Poscode | q < CODE_LENGTH && keep(x)
      ensures BucketKeys()(q)(x) == digit(q)
    {
    }
    PassesStable(s, BucketKeys(), BucketTotal, CODE_LENGTH, digit, keep);
  }

  // ---------------------------------------------------------------------
  // Agreement with the byte order of the comparison sorts

  /** A digit, or a letter of the one case `upper` selects. */
  predicate CodeChar(c: char, upper: bool)
  {
    ('0' <= c <= '9') || (if upper then 'A' <= c <= 'Z' else 'a' <= c <= 'z')
  }

  /** A key of exactly `CODE_LENGTH` digits and letters of one case. */
  ghost predicate SingleCaseCode(x: Poscode, upper: bool)
  {
    |x.data| == CODE_LENGTH && forall k :: 0 <= k < |x.data| ==> CodeChar(x.data[k], upper)
  }

  /** On digits and letters of one case the classifier is one-to-one and keeps the byte order. */
  lemma CodeCharBuckets(c: char, d: char, upper: bool)
    requires CodeChar(c, upper) && CodeChar(d, upper)
    ensures Bucket(c) < Bucket(d) <==> c < d
    ensures Bucket(c) == Bucket(d) <==> c == d
  {
  }

  lemma {:induction false} BucketLeSuffix(x: Poscode, y: Poscode, upper: bool, q: nat)
    requires SingleCaseCode(x, upper) && SingleCaseCode(y, upper) && q <= CODE_LENGTH
    requires BucketLe(x, y, q)
    ensures StringLess(x.data[q..], y.data[q..]) || x.data[q..] == y.data[q..]
    decreases CODE_LENGTH - q
  {
    if q < CODE_LENGTH {
      var a, b := x.data[q..], y.data[q..];
      assert a[0] == x.data[q] && b[0] == y.data[q];
      assert a[1..] == x.data[q + 1..] && b[1..] == y.data[q + 1..];
      CodeCharBuckets(x.data[q], y.data[q], upper);
      assert BucketKeys()(q)(x) == Bucket(x.data[q]) && BucketKeys()(q)(y) == Bucket(y.data[q]);
      if BucketAt(x, q) == BucketAt(y, q) {
        BucketLeSuffix(x, y, upper, q + 1);
        if a[1..] == b[1..] {
          assert a == [a[0]] + a[1..] && b == [b[0]] + b[1..];
        }
      }
    }
  }

  /** For such keys the bucket order is `lessEqual`. */
  lemma BucketLeIsLessEqual(x: Poscode, y: Poscode, upper: bool)
    requires SingleCaseCode(x, upper) && SingleCaseCode(y, upper)
    requires BucketLe(x, y, 0)
    ensures LessEqual(x, y)
  {
    BucketLeSuffix(x, y, upper, 0);
    assert x.data[0..] == x.data && y.data[0..] == y.data;
  }

  /**
   * On keys of exactly `CODE_LENGTH` digits and letters of a single case,
   * `radix_sort` sorts in the byte order of `lessEqual`, and so produces
   * exactly what `merge_sort` (and any other correct sort) produces.
   */
  lemma RadixAgrees(s: seq<Poscode>, upper: bool)
    requires forall t :: 0 <= t < |s| ==> SingleCaseCode(s[t], upper)
    ensures Sorted(RadixOf(s))
    ensures RadixOf(s) == MergeSortOf(LessEqual, s)
  {
    var r := RadixOf(s);
    RadixSorted(s);
    forall t | 0 <= t < |r|
      ensures SingleCaseCode(r[t], upper)
    {
      assert r[t] in multiset(s);
      var u :| 0 <= u < |s| && s[u] == r[t];
    }
    forall i, j | 0 <= i < j < |r|
      ensures LessEqual(r[i], r[j])
    {
      BucketLeIsLessEqual(r[i], r[j], upper);
    }
    SortedIsMergeSortOf(s, r);
  }

  /**
   * So for such keys the one sorted arrangement of the input is what
   * `radix_sort` produces.
   */
  lemma RadixIsSortedArrangement(s: seq<Poscode>, t: seq<Poscode>, upper: bool)
    requires forall k :: 0 <= k < |s| ==> SingleCaseCode(s[k], upper)
    requires Sorted(t) && multiset(t) == multiset(s)
    ensures RadixOf(s) == t
  {
    RadixAgrees(s, upper);
    SortedIsMergeSortOf(s, t);
  }

  /** A worked example: three upper-case codes come out in byte order. */
  lemma RadixExample(x: Poscode, y: Poscode, z: Poscode)
    requires x == Poscode("B2C001") && y == Poscode("A1B002") && z == Poscode("B2C000")
    ensures RadixOf([x, y, z]) == [y, z, x]
  {
    var s, t := [x, y, z], [y, z, x];
    assert SingleCaseCode(x, true) && SingleCaseCode(y, true) && SingleCaseCode(z, true);
    assert forall k :: 0 <= k < |s| ==> SingleCaseCode(s[k], true) by {
      assert s[0] == x && s[1] == y && s[2] == z;
    }
    assert StringLess(y.data, z.data) && StringLess(z.data, x.data);
    SortedTriple(y, z, x);
    RotateThree(x, y, z);
    RadixIsSortedArrangement(s, t, true);
  }

  /** Two keys in strict bucket order stay where they are. */
  lemma RadixPair(x: Poscode, y: Poscode)
    requires !BucketLe(y, x, 0)
    ensures RadixOf([x, y]) == [x, y]
  {
    RadixSorted([x, y]);
    PairArrangement(RadixOf([x, y]), x, y);
  }

  /** Two keys out of byte order come out of `merge_sort` the other way round. */
  lemma MergePair(x: Poscode, y: Poscode)
    requires LessThan(y, x)
    ensures MergeSortOf(LessEqual, [x, y]) == [y, x]
  {
    SortedPair(y, x);
    assert multiset([y, x]) == multiset([x, y]);
    SortedIsMergeSortOf([x, y], [y, x]);
  }

  /**
   * With letters of both cases `radix_sort` and `merge_sort` disagree: the
   * classifier sends 'a' to bucket 10 and 'B' to 11, while in byte order
   * 'B' (66) comes before 'a' (97).
   */
  lemma MixedCaseDisagrees(x: Poscode, y: Poscode)
    requires x == Poscode("a00000") && y == Poscode("B00000")
    ensures RadixOf([x, y]) == [x, y]
    ensures MergeSortOf(LessEqual, [x, y]) == [y, x]
  {
    assert BucketAt(x, 0) == 10 && BucketAt(y, 0) == 11;
    assert !BucketLe(y, x, 0);
    assert StringLess(y.data, x.data);
    RadixPair(x, y);
    MergePair(x, y);
  }

  /** Keys whose every character is in bucket 0 go through `radix_sort` unchanged. */
  lemma ZeroBucketKeys(s: seq<Poscode>)
    requires forall t, k :: 0 <= t < |s| && 0 <= k < CODE_LENGTH ==> BucketKeys()(k)(s[t]) == 0
    ensures RadixOf(s) == s
  {
    SharedBucketPasses(s, BucketKeys(), BucketTotal, CODE_LENGTH, 0);
  }

  /**
   * A character that is neither a digit nor a letter shares bucket 0 with
   * '0', so `radix_sort` leaves "000000" before "-00000" although '-' (45)
   * comes before '0' (48) in byte order.
   */
  lemma OtherCharacterDisagrees(x: Poscode, y: Poscode)
    requires x == Poscode("000000") && y == Poscode("-00000")
    ensures RadixOf([x, y]) == [x, y]
    ensures MergeSortOf(LessEqual, [x, y]) == [y, x]
  {
    var s := [x, y];
    forall t, k | 0 <= t < |s| && 0 <= k < CODE_LENGTH
      ensures BucketKeys()(k)(s[t]) == 0
    {
      assert s[t].data[k] == '0' || s[t].data[k] == '-';
    }
    assert StringLess(y.data, x.data);
    ZeroBucketKeys(s);
    MergePair(x, y);
  }
}
