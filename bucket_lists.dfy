/**
 * The state `countingSortByPosition` of cpp/src/utils.cpp keeps between its
 * two loops: one `IndexLinkedList` per bucket over a shared node arena.
 */
module BucketLists {
  import opened Poscodes
  import opened CharMapping
  import opened IndexLists
  import opened Grouping

  /**
   * The bucket lists while a pass runs: 36 distinct lists over one node
   * arena; the slots of the first `i` keys hold their own index; and each
   * list `c` from `from` on threads, in input order, the slots of the first
   * `i` keys whose bucket is `c`.
   */
  ghost predicate Buckets(buckets: seq<IndexLinkedList>, nodes: array<Node>, s: seq<Poscode>,
                          key: Poscode -> nat, i: nat, from: nat)
    reads buckets, nodes
  {
    |buckets| == BucketTotal && nodes.Length == |s| && i <= |s| &&
    (forall b, c :: 0 <= b < c < |buckets| ==> buckets[b] != buckets[c]) &&
    (forall k :: 0 <= k < i ==> nodes[k].index == k) &&
    (forall c :: from <= c < |buckets| ==> buckets[c].Valid(nodes) && buckets[c].Chain == IndexRun(s, key, c, i))
  }
}
