/**
 * The character classifier of cpp/src/utils.cpp: a 256-entry lookup table
 * that sends a character to one of 36 radix buckets. Digits go to 0..9 and
 * letters of either case to 10..35; every other byte keeps the table's
 * initial 0, so it shares bucket 0 with '0'.
 */
module CharMapping {

  /** `static_cast<unsigned char>`: the low eight bits of a character's code. */
  function ByteOf(c: char): (b: nat)
    ensures b < 256
    ensures (c as int) < 256 ==> b == c as int
  {
    (c as int) % 256
  }

  /** What the table holds at byte `k` once the constructor has run. */
  function TableEntry(k: nat): nat
  {
    if '0' as int <= k <= '9' as int then k - '0' as int
    else if 'A' as int <= k <= 'Z' as int then k - 'A' as int + 10
    else if 'a' as int <= k <= 'z' as int then k - 'a' as int + 10
    else 0
  }

  /** The whole table the constructor builds. */
  function Table(): (t: seq<nat>)
    ensures |t| == 256
    ensures forall k :: 0 <= k < 256 ==> t[k] == TableEntry(k)
  {
    seq(256, k requires 0 <= k => TableEntry(k))
  }

  /** The bucket of a character: the table entry for its byte. */
  function Bucket(c: char): nat
  {
    TableEntry(ByteOf(c))
  }

  /** The number of buckets, `bucketCount()`. */
  const BucketTotal: nat := 36

  class CharMapper {
    /** The 256-entry table. The constructor fills it; nothing writes it afterwards. */
    const mapping: seq<nat>

    /** The table is the 256-entry one the constructor builds. */
    ghost predicate Valid()
    {
      mapping == Table()
    }

    constructor ()
      ensures Valid()
    {
      var table := new nat[256](_ => 0);
      for i := 0 to 10
        invariant forall k :: 0 <= k < 256 ==>
          table[k] == if '0' as int <= k < '0' as int + i then k - '0' as int else 0
      {
        table['0' as int + i] := i;
      }
      for i := 0 to 26
        invariant forall k :: 0 <= k < 256 ==>
          table[k] == if 'A' as int <= k < 'A' as int + i then k - 'A' as int + 10
                      else if 'a' as int <= k < 'a' as int + i then k - 'a' as int + 10
                      else if '0' as int <= k <= '9' as int then k - '0' as int
                      else 0
      {
        table['A' as int + i] := 10 + i;
        table['a' as int + i] := 10 + i;
      }
      assert table[..] == Table() by {
        forall k | 0 <= k < 256 ensures table[..][k] == Table()[k] {
          assert table[..][k] == table[k];
        }
      }
      mapping := table[..];
    }

    /** `bucketIndex`: the table lookup agrees with `Bucket` and lands in one of the 36 buckets. */
    function BucketIndex(value: char): (r: nat)
      requires Valid()
      ensures r == Bucket(value)
      ensures r < BucketCount()
    {
      mapping[ByteOf(value)]
    }

    /** `bucketCount()`: exactly the buckets the table uses, every one of them by some character. */
    function BucketCount(): (r: nat)
      ensures forall c: char :: Bucket(c) < r
      ensures forall b: nat :: b < r ==> Bucket(BucketChar(b)) == b
    {
      BucketsOnto();
      BucketTotal
    }
  }

  /** Digits '0'..'9' go to buckets 0..9, in order. */
  lemma DigitBuckets(c: char)
    requires '0' <= c <= '9'
    ensures Bucket(c) == c as int - '0' as int
  {
  }

  /** Upper- and lower-case forms of a letter share one bucket in 10..35. */
  lemma LetterBuckets(i: nat)
    requires i < 26
    ensures Bucket(('A' as int + i) as char) == 10 + i
    ensures Bucket(('a' as int + i) as char) == 10 + i
  {
  }

  /** Any other one-byte character falls into bucket 0, together with '0'. */
  lemma OtherBuckets(c: char)
    requires (c as int) < 256
    requires !('0' <= c <= '9') && !('A' <= c <= 'Z') && !('a' <= c <= 'z')
    ensures Bucket(c) == 0 == Bucket('0')
  {
  }

  lemma BucketBound(c: char)
    ensures Bucket(c) < BucketTotal
  {
  }

  /** A character of bucket `b`: the digit for 0..9, the upper-case letter for 10..35. */
  function BucketChar(b: nat): char
  {
    if b < 10 then ('0' as int + b) as char
    else if b < BucketTotal then ('A' as int + (b - 10)) as char
    else '0'
  }

  /** The 36 buckets are all used and none other is. */
  lemma BucketsOnto()
    ensures forall c: char :: Bucket(c) < BucketTotal
    ensures forall b: nat :: b < BucketTotal ==> Bucket(BucketChar(b)) == b
  {
    forall b: nat | b < BucketTotal
      ensures Bucket(BucketChar(b)) == b
    {
      if b < 10 {
        DigitBuckets(BucketChar(b));
      } else {
        LetterBuckets(b - 10);
      }
    }
  }
}
