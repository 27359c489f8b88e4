/**
 * `countingSortByPosition` and `radix_sort` of cpp/src/utils.cpp. A pass
 * threads every key's slot onto the linked list of its bucket, in input
 * order, then walks the 36 lists in bucket order copying the keys into the
 * output array. `radix_sort` runs six such passes, position 5 down to 0,
 * swapping the roles of the caller's array and a scratch buffer after each.
 */
module RadixSortEngine {
  import opened Wrappers
  import opened Poscodes
  import opened CharMapping
  import opened IndexLists
  import opened Grouping
  import opened LsdPasses
  import opened RadixSpec
  import opened SeqFacts
  import opened BucketLists

  /** Set up the node of key `i` and push it onto the list of its bucket `b`. */
  method AddNode(buckets: seq<IndexLinkedList>, nodes: array<Node>, ghost s: seq<Poscode>,
                 ghost key: Poscode -> nat, i: nat, b: nat)
    requires Buckets(buckets, nodes, s, key, i, 0) && i < |s| && b == key(s[i]) && b < BucketTotal
    modifies nodes, buckets[b]
    ensures Buckets(buckets, nodes, s, key, i + 1, 0)
  {
    ghost var before := nodes[..];
    nodes[i] := Node(i, None);
    forall c | 0 <= c < |buckets|
      ensures buckets[c].Valid(nodes)
    {
      IndexRunBelow(s, key, c, i);
      LinkedFrame(buckets[c].first, buckets[c].last, buckets[c].Chain, before, nodes[..]);
    }
    LinkNode(buckets, nodes, s, key, i, b);
  }

  /** The `pushBack` half of `AddNode`: the other lists keep their nodes. */
  method LinkNode(buckets: seq<IndexLinkedList>, nodes: array<Node>, ghost s: seq<Poscode>,
                  ghost key: Poscode -> nat, i: nat, b: nat)
    requires Buckets(buckets, nodes, s, key, i, 0) && i < |s| && b == key(s[i]) && b < BucketTotal
    requires nodes[i] == Node(i, None)
    modifies nodes, buckets[b]
    ensures Buckets(buckets, nodes, s, key, i + 1, 0)
  {
    ghost var before := nodes[..];
    ghost var tail := buckets[b].last;
    IndexRunBelow(s, key, b, i);
    buckets[b].PushBack(Some(i), nodes);
    assert tail.Some? ==> key(s[tail.value]) == b;
    forall c | 0 <= c < |buckets| && c != b
      ensures buckets[c].Valid(nodes) && buckets[c].Chain == IndexRun(s, key, c, i + 1)
    {
      IndexRunBelow(s, key, c, i);
      LinkedFrame(buckets[c].first, buckets[c].last, buckets[c].Chain, before, nodes[..]);
    }
  }

  /**
   * Walk `list` from its head, copying the key each node names to the
   * output from `start` on: `run` lists the keys of `s` at the slots of the
   * chain, in chain order.
   */
  method CopyChain(list: IndexLinkedList, nodes: array<Node>, input: array<Poscode>, output: array<Poscode>,
                   ghost s: seq<Poscode>, start: nat, ghost run: seq<Poscode>) returns (end: nat)
    requires list.Valid(nodes) && |list.Chain| == |run|
    requires nodes.Length == |s| && forall k :: 0 <= k < |s| ==> nodes[k].index == k
    requires |s| <= input.Length && s == input[..|s|] && input != output
    requires forall t :: 0 <= t < |run| ==> list.Chain[t] < |s| && s[list.Chain[t]] == run[t]
    requires start + |run| <= output.Length
    modifies output
    ensures end == start + |run|
    ensures output[start..end] == run
    ensures forall k :: 0 <= k < output.Length && !(start <= k < end) ==> output[k] == old(output[k])
  {
    ghost var chain := list.Chain;
    var node := list.Head(nodes);
    end := start;
    ghost var j := 0;
    while node.Some?
      invariant 0 <= j <= |chain| && end == start + j
      invariant node == if j < |chain| then Some(chain[j]) else None
      invariant forall k :: 0 <= k < output.Length ==> output[k] == if start <= k < end then run[k - start] else old(output[k])
      decreases |chain| - j
    {
      output[end] := input[nodes[node.value].index];
      node := nodes[node.value].next;
      end, j := end + 1, j + 1;
    }
    assert output[start..end] == run by {
      forall k | 0 <= k < |run| ensures output[start..end][k] == run[k] {
        assert output[start + k] == run[k];
      }
    }
  }

  /**
   * Walk `list`, the list of bucket `b`, copying the keys it names to the
   * output from `start` on. Before the walk the output holds the keys of the
   * buckets below `b`; after it, those of the buckets up to `b`.
   */
  method CollectList(list: IndexLinkedList, nodes: array<Node>, input: array<Poscode>, output: array<Poscode>,
                     ghost s: seq<Poscode>, ghost key: Poscode -> nat, b: nat, start: nat) returns (end: nat)
    requires list.Valid(nodes) && list.Chain == IndexRun(s, key, b, |s|)
    requires nodes.Length == |s| && forall k :: 0 <= k < |s| ==> nodes[k].index == k
    requires |s| <= input.Length && s == input[..|s|] && input != output
    requires start == |Grouped(s, key, b)| && |Grouped(s, key, b + 1)| <= output.Length
    requires output[..start] == Grouped(s, key, b)
    modifies output
    ensures end == |Grouped(s, key, b + 1)|
    ensures output[..end] == Grouped(s, key, b + 1)
    ensures forall k :: end <= k < output.Length ==> output[k] == old(output[k])
  {
    ghost var run := Run(s, key, b);
    assert Grouped(s, key, b + 1) == Grouped(s, key, b) + run;
    ChainKeys(s, key, b);
    ghost var before := output[..start];
    end := CopyChain(list, nodes, input, output, s, start, run);
    assert output[..start] == before by {
      forall k | 0 <= k < start ensures output[..start][k] == before[k] {
        assert output[k] == old(output[k]);
      }
    }
    TakeJoin(output[..], start, end);
  }

  /** `CollectList` on the list of `bucket`, while the lists from `bucket` on are intact. */
  method CollectBucket(buckets: seq<IndexLinkedList>, nodes: array<Node>, input: array<Poscode>,
                       output: array<Poscode>, ghost s: seq<Poscode>, ghost key: Poscode -> nat, bucket: nat, start: nat)
    returns (end: nat)
    requires |s| <= input.Length && |s| <= output.Length && input != output && s == input[..|s|]
    requires bucket < |buckets| && Buckets(buckets, nodes, s, key, |s|, bucket)
    requires |Grouped(s, key, BucketTotal)| == |s|
    requires start == |Grouped(s, key, bucket)| <= |s| && output[..start] == Grouped(s, key, bucket)
    modifies output
    ensures end == |Grouped(s, key, bucket + 1)| <= |s|
    ensures output[..end] == Grouped(s, key, bucket + 1)
    ensures output[|s|..] == old(output[|s|..])
  {
    GroupedPrefix(s, key, bucket + 1, BucketTotal);
    end := CollectList(buckets[bucket], nodes, input, output, s, key, bucket, start);
    assert output[|s|..] == old(output[|s|..]) by {
      forall k | 0 <= k < output.Length - |s| ensures output[|s|..][k] == old(output[|s|..])[k] {
        assert output[|s| + k] == old(output[|s| + k]);
      }
    }
  }

  /**
   * The first loop of `countingSortByPosition`: read character `position`
   * of each key in turn and push its node onto the list of its bucket. A key
   * too short to have the character stops the loop with its error.
   */
  method FillBuckets(buckets: seq<IndexLinkedList>, nodes: array<Node>, input: array<Poscode>, ghost s: seq<Poscode>,
                     n: nat, position: nat, mapper: CharMapper) returns (o: Outcome<KeyError>)
    requires n <= input.Length && s == input[..n] && mapper.Valid()
    requires Buckets(buckets, nodes, s, BucketKeys()(position), 0, 0)
    modifies nodes, buckets
    ensures o == KeyCheck(s, position)
    ensures o.Pass? ==> Buckets(buckets, nodes, s, BucketKeys()(position), n, 0)
  {
    ghost var key := BucketKeys()(position);
    for i := 0 to n
      invariant Buckets(buckets, nodes, s, key, i, 0)
      invariant KeyCheck(s[..i], position) == Pass
    {
      assert input[i] == s[i];
      var value := GetValue(input[i], position);
      assert s[..i + 1][..i] == s[..i];
      if value.Err? {
        o := Fail(value.error);
        KeyCheckPrefix(s, position, i + 1);
        return;
      }
      var bucket := mapper.BucketIndex(value.value);
      AddNode(buckets, nodes, s, key, i, bucket);
    }
    assert s[..n] == s;
    o := Pass;
  }

  /**
   * The second loop of `countingSortByPosition`: walk the lists in bucket
   * order, copying the keys they name to the output, and clear each list
   * after its walk.
   */
  method DrainBuckets(buckets: seq<IndexLinkedList>, nodes: array<Node>, input: array<Poscode>,
                      output: array<Poscode>, ghost s: seq<Poscode>, n: nat, ghost key: Poscode -> nat)
    requires n <= input.Length && n <= output.Length && input != output && s == input[..n]
    requires Buckets(buckets, nodes, s, key, |s|, 0)
    requires |Grouped(s, key, BucketTotal)| == |s|
    modifies output, buckets
    ensures output[..n] == Grouped(s, key, BucketTotal)
    ensures output[n..] == old(output[n..])
  {
    var outIndex := 0;
    for bucket := 0 to |buckets|
      invariant Buckets(buckets, nodes, s, key, |s|, bucket)
      invariant outIndex == |Grouped(s, key, bucket)| <= |s|
      invariant output[..outIndex] == Grouped(s, key, bucket)
      invariant output[n..] == old(output[n..])
    {
      outIndex := DrainOne(buckets, nodes, input, output, s, key, bucket, outIndex);
    }
  }

  /** One round of the second loop: walk the list of `bucket`, then clear it. */
  method DrainOne(buckets: seq<IndexLinkedList>, nodes: array<Node>, input: array<Poscode>,
                  output: array<Poscode>, ghost s: seq<Poscode>, ghost key: Poscode -> nat, bucket: nat, start: nat)
    returns (end: nat)
    requires |s| <= input.Length && |s| <= output.Length && input != output && s == input[..|s|]
    requires bucket < |buckets| && Buckets(buckets, nodes, s, key, |s|, bucket)
    requires |Grouped(s, key, BucketTotal)| == |s|
    requires start == |Grouped(s, key, bucket)| <= |s| && output[..start] == Grouped(s, key, bucket)
    modifies output, buckets[bucket]
    ensures Buckets(buckets, nodes, s, key, |s|, bucket + 1)
    ensures end == |Grouped(s, key, bucket + 1)| <= |s|
    ensures output[..end] == Grouped(s, key, bucket + 1)
    ensures output[|s|..] == old(output[|s|..])
  {
    end := CollectBucket(buckets, nodes, input, output, s, key, bucket, start);
    buckets[bucket].Clear();
  }

  /**
   * `countingSortByPosition`: a stable distribution of the first `n` keys of
   * `input` into `output` by the bucket of their character at `position`.
   * A key too short to have that character raises the out-of-range error
   * before anything is written. `n == 0` returns at once.
   */
  method CountingSortByPosition(input: array<Poscode>, output: array<Poscode>, n: nat,
                                position: nat, mapper: CharMapper) returns (o: Outcome<KeyError>)
    requires n <= input.Length && n <= output.Length && input != output
    requires mapper.Valid()
    modifies output
    ensures o == KeyCheck(input[..n], position)
    ensures o.Fail? ==> output[..] == old(output[..])
    ensures o.Pass? ==> output[..n] == CountingPass(input[..n], position)
    ensures output[n..] == old(output[n..])
  {
    if n == 0 {
      assert input[..n] == [];
      CountingPassLength(input[..n], position);
      return Pass;
    }
    var buckets: seq<IndexLinkedList> := [];
    var nodes := new Node[n](_ => DefaultNode);
    while |buckets| < BucketTotal
      invariant |buckets| <= BucketTotal
      invariant forall b, c :: 0 <= b < c < |buckets| ==> buckets[b] != buckets[c]
      invariant forall c :: 0 <= c < |buckets| ==> fresh(buckets[c]) && buckets[c].Valid(nodes) && buckets[c].Chain == []
      invariant output[..] == old(output[..])
    {
      var list := new IndexLinkedList();
      buckets := buckets + [list];
    }
    ghost var s := input[..n];
    o := FillBuckets(buckets, nodes, input, s, n, position, mapper);
    if o.Fail? {
      return;
    }
    CountingPassLength(s, position);
    DrainBuckets(buckets, nodes, input, output, s, n, BucketKeys()(position));
  }

  /** One pass of `radix_sort`'s loop: the counting pass at `pos - 1` from `source` into `destination`. */
  method RadixPass(source: array<Poscode>, destination: array<Poscode>, n: nat, pos: nat, mapper: CharMapper)
    returns (o: Outcome<KeyError>)
    requires 0 < pos && n <= source.Length && n <= destination.Length && source != destination
    requires mapper.Valid()
    modifies destination
    ensures o == KeyCheck(source[..n], pos - 1)
    ensures o.Fail? ==> destination[..] == old(destination[..])
    ensures o.Pass? ==> Passes(source[..n], BucketKeys(), BucketTotal, pos) ==
                        Passes(destination[..n], BucketKeys(), BucketTotal, pos - 1)
    ensures o.Pass? && LongKeys(source[..n], pos) ==> LongKeys(destination[..n], pos)
    ensures destination[n..] == old(destination[n..])
  {
    o := CountingSortByPosition(source, destination, n, pos - 1, mapper);
    if o.Pass? {
      RadixStep(source[..n], pos - 1);
      CountingPassPermutes(source[..n], pos - 1);
      LongKeysPermuted(source[..n], destination[..n], pos);
    }
  }

  /**
   * The loop of `radix_sort` after its first pass: the passes at positions
   * 4 down to 0, alternating between the scratch buffer and `a`. With an
   * odd number of them left, the last one writes into `a`.
   */
  method LaterPasses(a: array<Poscode>, buffer: array<Poscode>, n: nat, mapper: CharMapper, ghost s: seq<Poscode>)
    requires n <= a.Length && n <= buffer.Length && a != buffer && mapper.Valid()
    requires RadixOf(s) == Passes(buffer[..n], BucketKeys(), BucketTotal, CODE_LENGTH - 1)
    requires LongKeys(buffer[..n], CODE_LENGTH - 1)
    modifies a, buffer
    ensures a[..n] == RadixOf(s)
    ensures a[n..] == old(a[n..])
  {
    var source, destination := buffer, a;
    var pos: nat := CODE_LENGTH - 1;
    while pos > 0
      invariant pos < CODE_LENGTH
      invariant source == (if pos == 1 || pos == 3 || pos == 5 then buffer else a)
      invariant destination == (if pos == 1 || pos == 3 || pos == 5 then a else buffer)
      invariant RadixOf(s) == Passes(source[..n], BucketKeys(), BucketTotal, pos)
      invariant LongKeys(source[..n], pos)
      invariant a[n..] == old(a[n..])
      decreases pos
    {
      var o := RadixPass(source, destination, n, pos, mapper);
      source, destination, pos := destination, source, pos - 1;
    }
    if source != a {
      assert false;
    }
  }

  /**
   * `radix_sort`: fewer than two keys are left alone; otherwise six counting
   * passes, position 5 down to 0, alternate between `a` and a scratch buffer.
   * The number of passes is even, so the last one writes into `a` and the
   * copy-back of the source never runs. Only the first pass can fail, since
   * the later ones see the same keys rearranged.
   */
  method RadixSort(a: array<Poscode>, n: nat) returns (o: Outcome<KeyError>)
    requires n <= a.Length
    modifies a
    ensures n < 2 ==> o == Pass && a[..] == old(a[..])
    ensures 2 <= n ==> o == KeyCheck(old(a[..n]), CODE_LENGTH - 1)
    ensures 2 <= n && o.Pass? ==> a[..n] == RadixOf(old(a[..n]))
    ensures o.Fail? ==> a[..] == old(a[..])
    ensures a[n..] == old(a[n..])
  {
    if n < 2 {
      return Pass;
    }
    var mapper := new CharMapper();
    var buffer := new Poscode[n];
    ghost var s := a[..n];
    o := RadixPass(a, buffer, n, CODE_LENGTH, mapper);
    if o.Fail? {
      return;
    }
    LaterPasses(a, buffer, n, mapper, s);
  }
}
