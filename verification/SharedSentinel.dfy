/** Trees over one shared sentinel do not disturb each other; searching and walking a tree. */
module SharedSentinel {
  import opened Nodes
  import opened Shapes
  import opened Trees
  import opened ShapeTrees
  import opened ColorRules
  import opened KeyOrder
  import opened DeleteOutcome
  import opened Traversal
  import opened RBtrees

  /** The two trees have no node in common, but the same sentinel. */
  ghost predicate Separate(a: RBtree, b: RBtree)
    reads a, b
  {
    a != b && a.LEAF == b.LEAF && a.g.cell.Keys !! b.g.cell.Keys
  }

  /** Inserting into one tree adds the key to it, or finds its item, and leaves the other and the sentinel as they were. */
  method InsertBeside(a: RBtree, b: RBtree, key: Item) returns (item: Item)
    requires a.Valid() && b.Valid() && Separate(a, b)
    modifies a`root, a`g, a.g.cell.Keys`parent, a.g.cell.Keys`leftChild, a.g.cell.Keys`rightChild, a.g.cell.Keys`color
    ensures b.Valid() && Separate(a, b) && IsSentinel(a.LEAF) && (key != Nil ==> a.Valid())
    ensures b.g == old(b.g) && b.root == old(b.root) && b.Keys() == old(b.Keys())
    ensures key != Nil ==> item == LookUp(a.Compare, old(a.Contents()), key)
    ensures item == Nil ==> a.Contents() == old(a.Contents()) + {key}
    ensures item != Nil ==> a.Contents() == old(a.Contents())
  {
    hide Weak, Sorted, Lawful, RBtree.Valid, RBtree.Matches, Recorded, IsSentinel, RBtree.Keys, Linked, DeletedFrom, LookUp, KeysOf;
    BlackLeaf(b);
    OwnNodes(b);
    item := a.Insert(key);
    SentinelOf(a);
    assert Separate(a, b);
    assert b.Valid();
    assert b.Keys() == old(b.Keys());
  }

  /** So does deleting from it, although the fix-up may write the sentinel's colour, and even where it gets stuck. */
  method DeleteBeside(a: RBtree, b: RBtree, key: Item) returns (item: Item, met: bool)
    requires a.Valid() && b.Valid() && Separate(a, b)
    modifies a`root, a`g, a.g.cell.Keys`parent, a.g.cell.Keys`leftChild, a.g.cell.Keys`rightChild, a.g.cell.Keys`color
    modifies a.LEAF`color
    ensures b.Valid() && Separate(a, b) && IsSentinel(a.LEAF) && (!met ==> a.Valid())
    ensures b.g == old(b.g) && b.root == old(b.root) && b.Keys() == old(b.Keys())
    ensures met <==> key != Nil && exists d :: d in old(a.g).cell && old(a.Compare(d.keyValue, key)) == 0 && DeleteStuck(old(a.g), d)
    ensures !met ==> item == if key == Nil then Nil else LookUp(a.Compare, old(a.Contents()), key)
    ensures !met ==> a.Contents() == if item == Nil then old(a.Contents()) else old(a.Contents()) - {item}
  {
    hide Weak, Sorted, Lawful, RBtree.Valid, RBtree.Matches, Recorded, IsSentinel, RBtree.Keys;
    hide DeleteStuck, Linked, DeletedFrom, LookUp, KeysOf;
    BlackLeaf(a);
    BlackLeaf(b);
    OwnNodes(b);
    item, met := a.Delete(key);
    SentinelOf(a);
    assert Separate(a, b);
    assert b.LEAF.color == old(b.LEAF.color);
    assert b.Valid();
    assert b.Keys() == old(b.Keys());
  }

  lemma HeightInNodes(t: RBtree)
    requires t.Valid() && Linked(t.g) && Balanced(t.g)
    ensures Pow2(Height(TreeOf(t.g))) <= (|t.Keys()| + 1) * (|t.Keys()| + 1)
  {
    WeakMeaning(t.g);
    TreeInOrder(t.g);
    t.ValidParts();
    HeightBound(TreeOf(t.g));
  }

  /** In a red-black tree of n nodes the loop of FindNode takes at most 2 * log2(n + 1) turns. */
  method SearchIsShort(t: RBtree, key: Item) returns (found: Node?, ghost turns: nat)
    requires t.Valid() && Linked(t.g) && Balanced(t.g)
    ensures Pow2(turns) <= (|t.Keys()| + 1) * (|t.Keys()| + 1)
    ensures key != Nil ==> (found == null <==> !Holds(t.Compare, t.Contents(), key))
    ensures key != Nil && found != null ==> found.keyValue == LookUp(t.Compare, t.Contents(), key)
  {
    hide Pow2, Height, TreeOf, Linked, Balanced, Weak, Sorted, Lawful;
    HeightInNodes(t);
    ghost var keys := t.Keys();
    found, turns := t.FindNode(key);
    assert t.Keys() == keys;
    Pow2Monotone(turns, Height(TreeOf(t.g)));
  }

  /** In an ordered tree, stepping from the first node meets the keys in strictly increasing order. */
  lemma WalkInKeyOrder(t: RBtree)
    requires t.Valid() && t.g.order != []
    ensures Linked(t.g) && t.g.order[0] in t.g.cell
    ensures var w := Walk(t.g, t.g.order[0]);
            |w| == |t.Keys()| && forall i, j :: 0 <= i < j < |w| ==> t.Compare(w[i].keyValue, w[j].keyValue) < 0
  {
    hide *;
    t.ValidParts();
    WalkMeetsAll(t.g);
    TreeInOrder(t.g);
    KeysRise(t);
  }

  lemma KeysRise(t: RBtree)
    requires Sorted(t.Compare, t.Keys())
    ensures |t.Keys()| == |t.g.order|
    ensures forall i, j :: 0 <= i < j < |t.g.order| ==> t.Compare(t.g.order[i].keyValue, t.g.order[j].keyValue) < 0
  {
    assert forall i :: 0 <= i < |t.Keys()| ==> t.Keys()[i] == t.g.order[i].keyValue;
  }

  lemma SentinelOf(t: RBtree)
    requires t.Matches()
    ensures t.LEAF.color == BLACK && IsSentinel(t.LEAF) && t.LEAF !in t.g.cell.Keys
  {}

  lemma BlackLeaf(t: RBtree)
    requires t.Valid()
    ensures t.LEAF.color == BLACK && IsSentinel(t.LEAF) && t.LEAF !in t.g.cell.Keys
  {
    hide Weak, Sorted, Lawful;
    SentinelOf(t);
  }

  lemma OwnNodes(t: RBtree)
    requires t.Valid()
    ensures forall n :: n in t.g.order ==> n in t.g.cell
  {
    hide Sorted, Lawful;
    t.ValidParts();
  }
}
