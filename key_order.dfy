/**
 * The order every comparison sort uses: `lessThan` and `lessEqual` of
 * cpp/src/utils.cpp, which compare the keys' strings with std::string's
 * `<` and `<=`, that is byte-wise lexicographically. Dafny's own `<` on
 * sequences means "proper prefix", so the lexicographic order is defined
 * here and proved to be a total order.
 */
module KeyOrder {
  import opened Poscodes

  /**
   * std::string's `<`: compare character by character (by code, which for
   * one-byte characters is unsigned byte order); a proper prefix is smaller.
   */
  predicate StringLess(a: string, b: string)
    decreases |a|
  {
    if |a| == 0 then |b| > 0
    else if |b| == 0 then false
    else if a[0] != b[0] then a[0] < b[0]
    else StringLess(a[1..], b[1..])
  }

  /** `k` is where `a` and `b` first part: they agree before `k`, and there `a` ends or has the smaller character. */
  ghost predicate FirstDifference(a: string, b: string, k: nat)
  {
    k <= |a| && k <= |b| && a[..k] == b[..k] &&
    ((k == |a| && k < |b|) || (k < |a| && k < |b| && a[k] < b[k]))
  }

  /** The recursive comparison is the textbook lexicographic order. */
  lemma {:induction false} StringLessIff(a: string, b: string)
    ensures StringLess(a, b) <==> exists k: nat :: FirstDifference(a, b, k)
  {
    if StringLess(a, b) {
      var k := StringLessWitness(a, b);
      assert FirstDifference(a, b, k);
    }
    if exists k: nat :: FirstDifference(a, b, k) {
      var k: nat :| FirstDifference(a, b, k);
      WitnessStringLess(a, b, k);
    }
  }

  lemma {:induction false} StringLessWitness(a: string, b: string) returns (k: nat)
    requires StringLess(a, b)
    ensures FirstDifference(a, b, k)
    decreases |a|
  {
    if |a| == 0 || a[0] != b[0] {
      k := 0;
    } else {
      var k' := StringLessWitness(a[1..], b[1..]);
      k := k' + 1;
      assert a[..k] == [a[0]] + a[1..][..k'];
      assert b[..k] == [b[0]] + b[1..][..k'];
    }
  }

  lemma {:induction false} WitnessStringLess(a: string, b: string, k: nat)
    requires FirstDifference(a, b, k)
    ensures StringLess(a, b)
    decreases k
  {
    if k > 0 {
      assert a[0] == a[..k][0] == b[..k][0] == b[0];
      assert a[1..][..k - 1] == a[..k][1..];
      assert b[1..][..k - 1] == b[..k][1..];
      WitnessStringLess(a[1..], b[1..], k - 1);
    }
  }

  lemma {:induction false} StringLessIrreflexive(a: string)
    ensures !StringLess(a, a)
    decreases |a|
  {
    if |a| > 0 {
      StringLessIrreflexive(a[1..]);
    }
  }

  lemma {:induction false} StringLessTransitive(a: string, b: string, c: string)
    requires StringLess(a, b) && StringLess(b, c)
    ensures StringLess(a, c)
    decreases |a|
  {
    if |a| > 0 && a[0] == b[0] && b[0] == c[0] {
      StringLessTransitive(a[1..], b[1..], c[1..]);
    }
  }

  /** Any two strings are equal or ordered one way, and never both ways. */
  lemma {:induction false} StringLessTrichotomy(a: string, b: string)
    ensures a == b || StringLess(a, b) || StringLess(b, a)
    ensures !(StringLess(a, b) && StringLess(b, a))
    decreases |a|
  {
    if |a| > 0 && |b| > 0 && a[0] == b[0] {
      StringLessTrichotomy(a[1..], b[1..]);
      if a[1..] == b[1..] {
        assert a == [a[0]] + a[1..] && b == [b[0]] + b[1..];
      }
    }
  }

  /**
   * `lessThan` of cpp/src/utils.cpp: the keys' strings in std::string order
   * (see `StringLessIff`); never between a key and itself. `LessThanTotal`
   * shows it is a strict total order.
   */
  predicate LessThan(lhs: Poscode, rhs: Poscode): (r: bool)
    ensures r ==> lhs != rhs
  {
    StringLessIrreflexive(GetData(lhs));
    StringLess(GetData(lhs), GetData(rhs))
  }

  /** `lessThan` is a strict total order: exactly one of less, equal and greater holds. */
  lemma LessThanTotal(x: Poscode, y: Poscode)
    ensures x == y || LessThan(x, y) || LessThan(y, x)
    ensures !(LessThan(x, y) && LessThan(y, x))
  {
    StringLessTrichotomy(x.data, y.data);
  }

  /**
   * `lessEqual` of cpp/src/utils.cpp: std::string's `<=`, which is "not
   * greater". Because the order is total this is "less or the same key".
   */
  predicate LessEqual(lhs: Poscode, rhs: Poscode): (r: bool)
    ensures r <==> LessThan(lhs, rhs) || lhs == rhs
  {
    StringLessTrichotomy(GetData(lhs), GetData(rhs));
    StringLessIrreflexive(GetData(lhs));
    !StringLess(GetData(rhs), GetData(lhs))
  }

  lemma LessEqualTotal(x: Poscode, y: Poscode)
    ensures LessEqual(x, y) || LessEqual(y, x)
  {
  }

  /** Keys that tie under `lessEqual` both ways are the same key. */
  lemma LessEqualAntisymmetric(x: Poscode, y: Poscode)
    requires LessEqual(x, y) && LessEqual(y, x)
    ensures x == y
  {
    StringLessTrichotomy(x.data, y.data);
  }

  lemma LessEqualTransitive(x: Poscode, y: Poscode, z: Poscode)
    requires LessEqual(x, y) && LessEqual(y, z)
    ensures LessEqual(x, z)
  {
    if x != y && y != z {
      StringLessTransitive(x.data, y.data, z.data);
    }
  }

  lemma LessThanLessEqual(x: Poscode, y: Poscode, z: Poscode)
    requires LessThan(x, y) && LessEqual(y, z)
    ensures LessThan(x, z)
  {
    if y != z {
      StringLessTransitive(x.data, y.data, z.data);
    }
  }

  /** Not less than the pivot means at least the pivot. */
  lemma NotLessThan(x: Poscode, y: Poscode)
    requires !LessThan(x, y)
    ensures LessEqual(y, x)
  {
  }

  /** Non-decreasing in the key order: every earlier key is at most every later key. */
  ghost predicate Sorted(s: seq<Poscode>)
  {
    forall i, j :: 0 <= i < j < |s| ==> LessEqual(s[i], s[j])
  }

  /** Every key of `xs` is at most every key of `ys`. */
  ghost predicate AllLessEqual(xs: seq<Poscode>, ys: seq<Poscode>)
  {
    forall v, w :: v in xs && w in ys ==> LessEqual(v, w)
  }

  /** Adjacent pairs in order are enough for the whole sequence to be in order. */
  lemma {:induction false} AdjacentSorted(s: seq<Poscode>)
    requires forall i :: 0 < i < |s| ==> LessEqual(s[i - 1], s[i])
    ensures Sorted(s)
    decreases |s|
  {
    if |s| > 1 {
      var t := s[..|s| - 1];
      assert forall i :: 0 <= i < |t| ==> t[i] == s[i];
      AdjacentSorted(t);
      forall i, j | 0 <= i < j < |s|
        ensures LessEqual(s[i], s[j])
      {
        if j < |s| - 1 {
          assert t[i] == s[i] && t[j] == s[j];
        } else if i < |s| - 2 {
          assert t[i] == s[i] && t[|s| - 2] == s[|s| - 2];
          LessEqualTransitive(s[i], s[|s| - 2], s[|s| - 1]);
        }
      }
    }
  }

  /** A key at most every key of a sorted sequence can go in front of it. */
  lemma SortedCons(v: Poscode, s: seq<Poscode>)
    requires Sorted(s) && forall w :: w in s ==> LessEqual(v, w)
    ensures Sorted([v] + s)
  {
    var r := [v] + s;
    forall i, j | 0 <= i < j < |r|
      ensures LessEqual(r[i], r[j])
    {
      assert r[j] == s[j - 1];
      if i > 0 {
        assert r[i] == s[i - 1];
      }
    }
  }

  /** Every suffix of a sorted sequence is sorted. */
  lemma SortedDrop(s: seq<Poscode>, p: nat)
    requires Sorted(s) && p <= |s|
    ensures Sorted(s[p..])
  {
    var t := s[p..];
    forall i, j | 0 <= i < j < |t|
      ensures LessEqual(t[i], t[j])
    {
      assert t[i] == s[p + i] && t[j] == s[p + j];
    }
  }

  /** The first key of a sorted sequence is at most every key in it. */
  lemma SortedHead(s: seq<Poscode>, v: Poscode)
    requires Sorted(s) && v in s
    ensures LessEqual(s[0], v)
  {
    var i :| 0 <= i < |s| && s[i] == v;
    if i > 0 {
      assert LessEqual(s[0], s[i]);
    }
  }

  lemma SortedTail(s: seq<Poscode>)
    requires Sorted(s) && |s| > 0
    ensures Sorted(s[1..])
  {
    var t := s[1..];
    forall i, j | 0 <= i < j < |t|
      ensures LessEqual(t[i], t[j])
    {
      assert t[i] == s[i + 1] && t[j] == s[j + 1];
    }
  }

  /**
   * There is only one sorted arrangement of a multiset of keys: two sorted
   * sequences holding the same keys are equal. This is why the three engines
   * can be compared at all, and why ties under the byte order (equal keys)
   * leave nothing for stability to decide.
   */
  lemma {:induction false} SortedUnique(s: seq<Poscode>, t: seq<Poscode>)
    requires Sorted(s) && Sorted(t) && multiset(s) == multiset(t)
    ensures s == t
    decreases |s|
  {
    if |s| == 0 {
      assert |t| == |multiset(t)| == 0;
    } else {
      assert |t| == |multiset(t)| == |multiset(s)| == |s|;
      assert s[0] in multiset(t) && t[0] in multiset(s);
      SortedHead(t, s[0]);
      SortedHead(s, t[0]);
      LessEqualAntisymmetric(s[0], t[0]);
      assert s == [s[0]] + s[1..] && t == [t[0]] + t[1..];
      assert multiset(s[1..]) == multiset(s) - multiset{s[0]};
      assert multiset(t[1..]) == multiset(t) - multiset{t[0]};
      SortedTail(s);
      SortedTail(t);
      SortedUnique(s[1..], t[1..]);
    }
  }

  lemma SortedPair(x: Poscode, y: Poscode)
    requires LessEqual(x, y)
    ensures Sorted([x, y])
  {
  }

  lemma SortedTriple(x: Poscode, y: Poscode, z: Poscode)
    requires LessEqual(x, y) && LessEqual(y, z)
    ensures Sorted([x, y, z])
  {
    LessEqualTransitive(x, y, z);
  }
}
