/**
 * `IndexLinkedList` of cpp/src/utils.cpp: an append-only singly linked list
 * of indices with a tail pointer. The nodes are not owned by the list; they
 * live in a vector the caller allocates once per radix pass. The model keeps
 * that vector as an array of `Node` values (an arena) and a pointer to a node
 * as the node's slot in it, with `None` for nullptr.
 */
module IndexLists {
  import opened Wrappers

  /** `IndexLinkedList::Node`: an index and the slot of the next node. */
  datatype Node = Node(index: nat, next: Option<nat>)

  /** `Node{}`: index 0 and no successor. */
  const DefaultNode: Node := Node(0, None)

  /**
   * In arena `ns`, the slots of `chain` are linked in order, from `first`
   * to `last`, and the last one ends the list. (No slot then occurs twice
   * as the last: every other slot of the chain has a successor.)
   */
  ghost predicate Linked(first: Option<nat>, last: Option<nat>, chain: seq<nat>, ns: seq<Node>)
  {
    (chain == [] ==> first == None && last == None) &&
    (chain != [] ==>
      first == Some(chain[0]) && last == Some(chain[|chain| - 1]) &&
      (forall k :: 0 <= k < |chain| ==> chain[k] < |ns|) &&
      ns[chain[|chain| - 1]].next == None &&
      (forall k :: 0 <= k < |chain| - 1 ==> ns[chain[k]].next == Some(chain[k + 1])))
  }

  /** The indices a walk from the head visits, in order. */
  ghost function IndicesAlong(chain: seq<nat>, ns: seq<Node>): (r: seq<nat>)
    requires forall k :: 0 <= k < |chain| ==> chain[k] < |ns|
    ensures |r| == |chain|
    ensures forall k :: 0 <= k < |chain| ==> r[k] == ns[chain[k]].index
  {
    seq(|chain|, k requires 0 <= k < |chain| => ns[chain[k]].index)
  }

  /** Changing nodes that are not on a chain does not disturb it. */
  lemma LinkedFrame(first: Option<nat>, last: Option<nat>, chain: seq<nat>, ns: seq<Node>, ns': seq<Node>)
    requires Linked(first, last, chain, ns)
    requires |ns'| == |ns|
    requires forall k :: 0 <= k < |chain| ==> ns'[chain[k]] == ns[chain[k]]
    ensures Linked(first, last, chain, ns')
    ensures IndicesAlong(chain, ns') == IndicesAlong(chain, ns)
  {
  }

  class IndexLinkedList {
    var first: Option<nat>
    var last: Option<nat>
    /** The slots on the list, from `first` to `last`. */
    ghost var Chain: seq<nat>

    ghost predicate Valid(nodes: array<Node>)
      reads this, nodes
    {
      Linked(first, last, Chain, nodes[..])
    }

    /** The indices stored on the list, in insertion order. */
    ghost function Indices(nodes: array<Node>): seq<nat>
      reads this, nodes
      requires Valid(nodes)
    {
      IndicesAlong(Chain, nodes[..])
    }

    constructor ()
      ensures first == None && last == None && Chain == []
      ensures forall nodes: array<Node> :: Valid(nodes)
    {
      first, last := None, None;
      Chain := [];
    }

    /**
     * `pushBack`: link `node` after the tail. A null node changes nothing.
     * The only caller clears a node's link and pushes it once, which is
     * what the second precondition asks.
     */
    method PushBack(node: Option<nat>, nodes: array<Node>)
      requires Valid(nodes)
      requires node.Some? ==> node.value < nodes.Length && nodes[node.value].next == None && node.value !in Chain
      modifies this, nodes
      ensures Valid(nodes)
      ensures node.None? ==> Chain == old(Chain) && first == old(first) && last == old(last) && nodes[..] == old(nodes[..])
      ensures node.Some? ==> Chain == old(Chain) + [node.value]
      ensures node.Some? ==> Indices(nodes) == old(Indices(nodes)) + [nodes[node.value].index]
      ensures old(last).None? ==> nodes[..] == old(nodes[..])
      ensures old(last).Some? && node.Some? ==>
        nodes[..] == old(nodes[..])[old(last).value := old(nodes[..])[old(last).value].(next := node)]
    {
      if node.None? {
        return;
      }
      if first.None? {
        first := node;
        last := node;
        Chain := [node.value];
        return;
      }
      var tail := last.value;
      nodes[tail] := nodes[tail].(next := node);
      last := node;
      Chain := Chain + [node.value];
      assert forall k :: 0 <= k < |Chain| - 1 ==> Chain[k] != node.value;
    }

    /** `head()`: the first node, null exactly when the list is empty. */
    function Head(nodes: array<Node>): (h: Option<nat>)
      reads this, nodes
      requires Valid(nodes)
      ensures h.None? <==> Chain == []
      ensures h.Some? ==> h.value == Chain[0] && h.value < nodes.Length
    {
      first
    }

    /** `clear()`: forget the nodes; `head()` is null afterwards. */
    method Clear()
      modifies this
      ensures first == None && last == None && Chain == []
      ensures forall nodes: array<Node> :: Valid(nodes)
    {
      first, last := None, None;
      Chain := [];
    }
  }
}
