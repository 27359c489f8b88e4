/**
 * Facts about the keys a sequence holds, shared by the three sort engines:
 * a rearrangement confined to one range keeps the other cells, and the
 * multiset of keys of a whole sequence is that of its pieces.
 */
module SeqFacts {

  /** Splitting a sequence into three pieces splits its multiset of keys. */
  lemma ThreeParts<T>(s: seq<T>, lo: nat, hi: nat)
    requires lo <= hi <= |s|
    ensures multiset(s) == multiset(s[..lo]) + multiset(s[hi..]) + multiset(s[lo..hi])
  {
    assert s == s[..lo] + s[lo..hi] + s[hi..];
  }

  /** Multiset sums cancel a common summand. */
  lemma Cancel<T>(m: multiset<T>, x: multiset<T>, y: multiset<T>)
    ensures m + x == m + y <==> x == y
  {
    if m + x == m + y {
      assert forall v :: x[v] == (m + x)[v] - m[v];
      assert forall v :: y[v] == (m + y)[v] - m[v];
    }
  }

  /**
   * A rearrangement confined to [lo, hi) keeps the keys of [lo, hi) exactly
   * when it keeps those of the whole sequence.
   */
  lemma SliceMultiset<T>(s: seq<T>, t: seq<T>, lo: nat, hi: nat)
    requires lo <= hi <= |s| == |t|
    requires forall k :: 0 <= k < |s| && !(lo <= k < hi) ==> s[k] == t[k]
    ensures multiset(s) == multiset(t) <==> multiset(s[lo..hi]) == multiset(t[lo..hi])
  {
    assert s[..lo] == t[..lo];
    assert s[hi..] == t[hi..];
    ThreeParts(s, lo, hi);
    ThreeParts(t, lo, hi);
    Cancel(multiset(s[..lo]) + multiset(s[hi..]), multiset(s[lo..hi]), multiset(t[lo..hi]));
  }

  /** A cell of a rearranged range holds a key that some cell of the original range held. */
  lemma PermutedMember<T>(s: seq<T>, t: seq<T>, lo: nat, hi: nat, j: nat) returns (j': nat)
    requires lo <= j < hi <= |s| && hi <= |t|
    requires multiset(t[lo..hi]) == multiset(s[lo..hi])
    ensures lo <= j' < hi && t[j] == s[j']
  {
    assert t[j] == t[lo..hi][j - lo];
    assert t[j] in multiset(s[lo..hi]);
    var k :| 0 <= k < hi - lo && s[lo..hi][k] == t[j];
    j' := lo + k;
  }

  /** The keys of a non-empty sequence are its head's and its tail's. */
  lemma HeadTail<T>(s: seq<T>)
    requires |s| > 0
    ensures multiset(s) == multiset{s[0]} + multiset(s[1..])
  {
    assert s == [s[0]] + s[1..];
  }

  /** The keys from `p` on are the key at `p` and those after it. */
  lemma DropOne<T>(s: seq<T>, p: nat)
    requires p < |s|
    ensures multiset(s[p..]) == multiset{s[p]} + multiset(s[p + 1..])
  {
    assert s[p..] == [s[p]] + s[p + 1..];
  }

  /** `s` with the range [lo, hi) replaced by `m`. */
  function Spliced<T>(s: seq<T>, lo: nat, hi: nat, m: seq<T>): (r: seq<T>)
    requires lo <= hi <= |s|
  {
    s[..lo] + m + s[hi..]
  }

  /** Slicing a spliced sequence gives back `m` where it went and `s` around it. */
  lemma SplicedParts<T>(s: seq<T>, lo: nat, hi: nat, m: seq<T>)
    requires lo <= hi <= |s| && |m| == hi - lo
    ensures |Spliced(s, lo, hi, m)| == |s|
    ensures Spliced(s, lo, hi, m)[..lo] == s[..lo]
    ensures Spliced(s, lo, hi, m)[lo..hi] == m
    ensures Spliced(s, lo, hi, m)[hi..] == s[hi..]
  {
    var r := Spliced(s, lo, hi, m);
    assert r[..lo] == s[..lo];
    assert r[lo..hi] == m;
    assert r[hi..] == s[hi..];
  }

  /** A sequence that agrees with `m` on [lo, hi) and with `s` elsewhere is `s` with that range replaced by `m`. */
  lemma Splice<T>(t: seq<T>, s: seq<T>, m: seq<T>, lo: nat, hi: nat)
    requires |t| == |s| && lo + |m| == hi <= |s|
    requires forall k :: lo <= k < hi ==> t[k] == m[k - lo]
    requires forall k :: 0 <= k < |s| && !(lo <= k < hi) ==> t[k] == s[k]
    ensures t == Spliced(s, lo, hi, m)
  {
  }

  /** A sequence is itself with any range replaced by what it holds there. */
  lemma SplicedSelf<T>(s: seq<T>, lo: nat, hi: nat)
    requires lo <= hi <= |s|
    ensures s == Spliced(s, lo, hi, s[lo..hi])
  {
    assert s == s[..lo] + s[lo..hi] + s[hi..];
  }

  /** A prefix is a shorter prefix followed by the slice between the two. */
  lemma TakeJoin<T>(s: seq<T>, i: nat, j: nat)
    requires i <= j <= |s|
    ensures s[..j] == s[..i] + s[i..j]
  {
  }

  /** Slices of slices are slices. */
  lemma TakeTake<T>(s: seq<T>, n: nat, m: nat)
    requires m <= n <= |s|
    ensures s[..n][..m] == s[..m]
  {
  }

  lemma DropTake<T>(s: seq<T>, lo: nat, hi: nat)
    requires lo <= hi <= |s|
    ensures s[lo..][..hi - lo] == s[lo..hi]
  {
  }

  lemma DropDrop<T>(s: seq<T>, lo: nat, hi: nat)
    requires lo <= hi <= |s|
    ensures s[lo..][hi - lo..] == s[hi..]
  {
  }

  /** A rotation of three elements keeps their multiset. */
  lemma RotateThree<T>(x: T, y: T, z: T)
    ensures multiset([y, z, x]) == multiset([x, y, z])
  {
    assert [y, z, x] == [y] + [z] + [x] && [x, y, z] == [x] + [y] + [z];
  }

  /** The only arrangements of two elements are the two orders. */
  lemma PairArrangement<T>(r: seq<T>, x: T, y: T)
    requires multiset(r) == multiset([x, y])
    ensures r == [x, y] || r == [y, x]
  {
    assert |r| == |multiset(r)| == 2;
    assert r[0] in multiset(r) && r[1] in multiset(r);
  }
}
