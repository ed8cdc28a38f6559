/** The tree's records: items, colours, nodes, the shared sentinel and the comparator's law. */
module Nodes {

  datatype Color = BLACK | RED

  /** An interface value: nil, or a reference known only by its identity. */
  datatype Item = Nil | Ref(addr: nat)

  type CompareFunc = (Item, Item) -> int

  class Node {
    var keyValue: Item
    var parent: Node?
    var leftChild: Node?
    var rightChild: Node?
    var color: Color

    /** The package variable LEAF: black, no key, nil links. */
    constructor Sentinel()
      ensures IsSentinel(this)
    {
      keyValue, parent, leftChild, rightChild, color := Nil, null, null, null, BLACK;
    }

    /** createNode: red, all three links at the sentinel. */
    constructor Create(key: Item, leaf: Node)
      ensures keyValue == key && parent == leaf && leftChild == leaf && rightChild == leaf && color == RED
    {
      keyValue, parent, leftChild, rightChild, color := key, leaf, leaf, leaf, RED;
    }
  }

  ghost predicate IsSentinel(x: Node)
    reads x
  {
    x.keyValue == Nil && x.parent == null && x.leftChild == null && x.rightChild == null && x.color == BLACK
  }

  /** A lawful comparator: a total preorder on non-nil items. Only the sign of a result means anything. */
  ghost predicate Lawful(cmp: CompareFunc) {
    && (forall a: Item, b: Item :: a != Nil && b != Nil ==> (cmp(a, b) < 0 <==> cmp(b, a) > 0))
    && (forall a: Item, b: Item, c: Item ::
          a != Nil && b != Nil && c != Nil && cmp(a, b) <= 0 && cmp(b, c) <= 0 ==> cmp(a, c) <= 0)
  }

  ghost function KeysOf(order: seq<Node>): (keys: seq<Item>)
    reads (set n | n in order)`keyValue
    ensures |keys| == |order| && forall i :: 0 <= i < |order| ==> keys[i] == order[i].keyValue
  {
    if order == [] then []
    else
      var last := |order| - 1;
      assert forall n :: n in order[..last] ==> n in order;
      KeysOf(order[..last]) + [order[last].keyValue]
  }
}
