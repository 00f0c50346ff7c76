/** The singly linked list of lists.c: nodes that own a copy of some bytes, joined through nodeSig. */
module Lists {
  import opened Bytes

  // dataLength is kept in a uint16_t.
  const LENGTH_RANGE := 0x1_0000

  /** Only the link of a node changes once it is made. */
  class Node {
    var nodeSig: Node?
    const dataLength: nat
    const data: bytes

    constructor (data: bytes, dataLength: nat)
      ensures nodeSig == null && this.data == data && this.dataLength == dataLength % LENGTH_RANGE
    {
      nodeSig := null;
      this.data := data;
      this.dataLength := dataLength % LENGTH_RANGE;
    }
  }

  /** list_new_node: no node for no data. */
  method NewNode(data: bytes) returns (n: Node?)
    ensures n == null <==> |data| == 0
    ensures n != null ==> fresh(n) && n.nodeSig == null && n.data == data && n.dataLength == |data| % 0x1_0000
  {
    if |data| > 0 {
      n := new Node(data, |data|);
    } else {
      n := null;
    }
  }

  /** The data of the nodes, first to last. */
  ghost function DataOf(nodes: seq<Node>): (c: seq<bytes>)
    ensures |c| == |nodes| && forall i | 0 <= i < |nodes| :: c[i] == nodes[i].data
  {
    seq(|nodes|, i requires 0 <= i < |nodes| => nodes[i].data)
  }

  /** Each node points to the next and the last one to nothing. */
  ghost predicate Chained(nodes: seq<Node>)
    reads nodes
  {
    && (forall i | 0 <= i < |nodes| - 1 :: nodes[i].nodeSig == nodes[i + 1])
    && (|nodes| > 0 ==> nodes[|nodes| - 1].nodeSig == null)
    && (forall i, j | 0 <= i < j < |nodes| :: nodes[i] != nodes[j])
  }

  /** A list head, and the chain that hangs from it. */
  class List {
    var head: Node?
    ghost var spine: seq<Node>
    ghost var repr: set<Node>

    ghost predicate Valid()
      reads this, repr
    {
      && head == (if |spine| == 0 then null else spine[0])
      && (forall i | 0 <= i < |spine| :: spine[i] in repr)
      && Chained(spine)
    }

    constructor ()
      ensures Valid() && spine == [] && repr == {}
    {
      head, spine, repr := null, [], {};
    }

    /** list_push_node: walk to the last node and hang the new one there, with whatever hangs from it. */
    method Push(node: Node, ghost chain: seq<Node>)
      requires Valid() && Chained(chain) && |chain| > 0 && chain[0] == node
      requires forall i | 0 <= i < |chain| :: chain[i] !in repr
      modifies this, repr
      ensures Valid() && spine == old(spine) + chain && repr == old(repr) + set n | n in chain
    {
      if head != null {
        var aux := head;
        ghost var k := 0;
        while aux.nodeSig != null
          invariant 0 <= k < |spine| && aux == spine[k]
          invariant aux.nodeSig == if k + 1 < |spine| then spine[k + 1] else null
          decreases |spine| - k
        {
          aux := aux.nodeSig;
          k := k + 1;
        }
        aux.nodeSig := node;
      } else {
        head := node;
      }
      spine, repr := spine + chain, repr + set n | n in chain;
    }

    /** list_pull_node: the first node, or null. */
    method Pull() returns (node: Node?)
      requires Valid()
      modifies this
      ensures Valid() && repr == old(repr) && (node == null <==> |old(spine)| == 0)
      ensures node == null ==> spine == []
      ensures node != null ==> node == old(spine)[0] && spine == old(spine)[1..]
    {
      node := null;
      if head != null {
        node := head;
        head := head.nodeSig;
        spine := spine[1..];
      }
    }

    /** list_delete: pull until nothing is left. */
    method Delete()
      requires Valid()
      modifies this
      ensures Valid() && spine == [] && repr == old(repr)
    {
      while head != null
        invariant Valid() && repr == old(repr)
        decreases |spine|
      {
        var node := Pull();
      }
    }
  }
}
