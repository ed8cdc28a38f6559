/** The mutable red-black tree. */
module RBtrees {
  import opened Nodes
  import opened Shapes
  import opened BlackCounts
  import opened Trees
  import opened ShapeTrees
  import opened ColorRules
  import opened InsertSteps
  import opened FieldWrites
  import opened KeyOrder
  import opened DeleteSteps
  import opened DeleteFixup
  import opened Unlinking
  import opened DeleteWrites
  import opened Traversal
  import opened DeleteOutcome

  /** Before became after by adding z at position p: nothing else moves, and one slot of black counts splits. */
  ghost predicate AddedAt(before: Shape<Node>, after: Shape<Node>, z: Node, p: int) {
    && Linked(before) && Linked(after) && 0 <= p <= |before.order| && p < |BlackDepths(TreeOf(before))|
    && after.order == before.order[..p] + [z] + before.order[p..] && after.cell.Keys == before.cell.Keys + {z}
    && exists k :: 0 <= k <= 1 && BlackDepths(TreeOf(after)) == Plus(k, Twice(BlackDepths(TreeOf(before)), p))
  }

  lemma AddedIntro(before: Shape<Node>, after: Shape<Node>, z: Node, p: int)
    requires Linked(before) && Linked(after) && 0 <= p <= |before.order| && p < |BlackDepths(TreeOf(before))|
    requires after.order == before.order[..p] + [z] + before.order[p..] && after.cell.Keys == before.cell.Keys + {z}
    requires exists k :: 0 <= k <= 1 && BlackDepths(TreeOf(after)) == Plus(k, Twice(BlackDepths(TreeOf(before)), p))
    ensures AddedAt(before, after, z, p)
  {}

  class RBtree {
    var root: Node
    const LEAF: Node
    const Compare: CompareFunc
    ghost var g: Shape<Node>

    /** An empty tree over the shared sentinel. */
    constructor InitTree(compare: CompareFunc, leaf: Node)
      requires IsSentinel(leaf)
      ensures Matches() && g == Empty(leaf) && g.cell.Keys == {} && LEAF == leaf && Compare == compare
      ensures Lawful(compare) ==> Valid() && Contents() == {} && Balanced(g)
    {
      root, LEAF, Compare := leaf, leaf, compare;
      g := Empty(leaf);
      new;
      EmptyLinked(leaf);
    }

    /** The fields of this tree and of all its nodes are those recorded in g. */
    ghost predicate Matches()
      reads this, LEAF, g.cell.Keys
    {
      root == g.root && Recorded(g, LEAF)
    }

    lemma Fields(n: Node)
      requires Matches() && (n in g.cell || n == LEAF)
      ensures Recorded(g, LEAF) && g.leaf == LEAF && LEAF !in g.cell && root == g.root && n.color == ColorOf(g, n)
      ensures n in g.cell ==>
                n.color == g.cell[n].color && n.leftChild == g.cell[n].left && n.rightChild == g.cell[n].right && n.parent == g.cell[n].parent
    {
      Traversal.Fields(g, LEAF, n);
    }

    // ---------- single field writes, recorded in g ----------

    method SetLeft(n: Node, c: Node)
      requires Matches() && n in g.cell
      modifies n`leftChild, this`g
      ensures Matches() && g == WithLeft(old(g), n, c)
      ensures n.leftChild == c && g.cell.Keys == old(g.cell.Keys) && g.leaf == old(g.leaf)
    {
      n.leftChild := c;
      g := WithLeft(g, n, c);
      assert forall m {:trigger Mirrors(g, m)} :: m in g.cell ==> old(Mirrors(g, m)) ==> Mirrors(g, m);
    }

    method SetRight(n: Node, c: Node)
      requires Matches() && n in g.cell
      modifies n`rightChild, this`g
      ensures Matches() && g == WithRight(old(g), n, c)
      ensures n.rightChild == c && g.cell.Keys == old(g.cell.Keys) && g.leaf == old(g.leaf)
    {
      n.rightChild := c;
      g := WithRight(g, n, c);
      assert forall m {:trigger Mirrors(g, m)} :: m in g.cell ==> old(Mirrors(g, m)) ==> Mirrors(g, m);
    }

    method SetParent(n: Node, p: Node)
      requires Matches() && n in g.cell
      modifies n`parent, this`g
      ensures Matches() && g == WithParent(old(g), n, p)
      ensures n.parent == p && g.cell.Keys == old(g.cell.Keys) && g.leaf == old(g.leaf)
    {
      n.parent := p;
      g := WithParent(g, n, p);
      assert forall m {:trigger Mirrors(g, m)} :: m in g.cell ==> old(Mirrors(g, m)) ==> Mirrors(g, m);
    }

    method SetRoot(c: Node)
      requires Matches()
      modifies this`root, this`g
      ensures Matches() && g == old(g).(root := c)
    {
      root := c;
      g := g.(root := c);
      assert forall m {:trigger Mirrors(g, m)} :: m in g.cell ==> old(Mirrors(g, m)) ==> Mirrors(g, m);
    }

    /** The sentinel may be painted too, but only black. */
    method SetColor(n: Node, c: Color)
      requires Matches() && (n in g.cell || (n == LEAF && c == BLACK))
      modifies n`color, this`g
      ensures Matches() && g == WithColor(old(g), n, c) && g.cell.Keys == old(g.cell.Keys) && g.leaf == old(g.leaf)
    {
      n.color := c;
      g := WithColor(g, n, c);
      assert forall m {:trigger Mirrors(g, m)} :: m in g.cell ==> old(Mirrors(g, m)) ==> Mirrors(g, m);
    }

    /** Replaces the recorded positions, or drops a node that has been unlinked; the fields stay as they are. */
    ghost method Adopt(h: Shape<Node>)
      requires Matches() && KeepsFields(g, h)
      modifies this`g
      ensures Matches() && g == h
    {
      assert forall m {:trigger Mirrors(g, m)} :: m in h.cell ==> Mirrors(g, m) && SameFields(g, h, m);
      g := h;
      assert forall m {:trigger Mirrors(g, m)} :: m in g.cell ==> old(Mirrors(g, m)) ==> Mirrors(g, m);
    }

    // ---------- rotations ----------

    /** "If c is not the sentinel, its parent becomes p." */
    method LinkBack(c: Node, p: Node)
      requires Matches() && (c in g.cell || c == LEAF)
      modifies this`g, (if c == LEAF then {} else {c})`parent
      ensures Matches() && g == Adopted(old(g), c, p) && g.cell.Keys == old(g.cell.Keys) && g.leaf == old(g.leaf)
    {
      if c != LEAF {
        SetParent(c, p);
      }
    }

    /** "Whatever pointed down at node now points at temp": the root, or one child link of node's parent p. */
    method Replace(p: Node, node: Node, temp: Node)
      requires Matches() && (p in g.cell || p == LEAF)
      modifies this`g, this`root, (if p == LEAF then {} else {p})`leftChild, (if p == LEAF then {} else {p})`rightChild
      ensures Matches() && g == Rehang(old(g), p, node, temp) && g.cell.Keys == old(g.cell.Keys) && g.leaf == old(g.leaf)
    {
      if p == LEAF {
        SetRoot(temp);
      } else {
        assert Mirrors(g, p);
        if node == p.leftChild {
          SetLeft(p, temp);
        } else {
          SetRight(p, temp);
        }
      }
    }

    /** The six link writes of a left rotation. */
    method TurnLeft(node: Node, temp: Node)
      requires Matches() && Apart(g, node, temp) && temp == g.cell[node].right
      requires g.cell[temp].left in g.cell || g.cell[temp].left == LEAF
      requires g.cell[node].parent in g.cell || g.cell[node].parent == LEAF
      modifies this`root, this`g, g.cell.Keys`parent, g.cell.Keys`leftChild, g.cell.Keys`rightChild
      ensures Matches() && g == RotateWrites(old(g), node, temp)
    {
      assert Mirrors(g, node) && Mirrors(g, temp);
      var mid: Node, p: Node := temp.leftChild, node.parent;
      SetRight(node, mid);
      LinkBack(mid, node);
      SetParent(temp, p);
      Replace(p, node, temp);
      SetLeft(temp, node);
      SetParent(node, temp);
    }

    method rotateToLeft(node: Node)
      requires Matches() && Linked(g) && node in g.cell
      modifies this`root, this`g, g.cell.Keys`parent, g.cell.Keys`leftChild, g.cell.Keys`rightChild
      ensures Matches() && Linked(g) && g.order == old(g.order) && g.cell.Keys == old(g.cell.Keys)
      ensures old(g.cell[node].right) == LEAF ==> g == old(g)
      ensures old(g.cell[node].right) != LEAF ==>
                && IsChild(old(g), node, old(g.cell[node].right))
                && g == Rotate(old(g), node, old(g.cell[node].right))
    {
      hide *;
      ghost var g0 := g;
      Fields(node);
      LinksStay(g, node);
      var temp: Node := node.rightChild;
      if temp == LEAF {
        return;
      }
      LinksStay(g, temp);
      RotateWritesSame(g0, node, temp);
      SameKeepsFields(RotateWrites(g0, node, temp), Rotate(g0, node, temp));
      RotateLinked(g0, node, temp);
      RotateKeepsNodes(g0, node, temp);
      TurnLeft(node, temp);
      Adopt(Rotate(g0, node, temp));
    }

    /** The six link writes of a right rotation. */
    method TurnRight(node: Node, temp: Node)
      requires Matches() && Apart(g, node, temp) && temp == g.cell[node].left && temp != g.cell[node].right
      requires g.cell[temp].right in g.cell || g.cell[temp].right == LEAF
      requires g.cell[node].parent in g.cell || g.cell[node].parent == LEAF
      modifies this`root, this`g, g.cell.Keys`parent, g.cell.Keys`leftChild, g.cell.Keys`rightChild
      ensures Matches() && g == RotateWrites(old(g), node, temp)
    {
      assert Mirrors(g, node) && Mirrors(g, temp);
      var mid: Node, p: Node := temp.rightChild, node.parent;
      SetLeft(node, mid);
      LinkBack(mid, node);
      SetParent(temp, p);
      Replace(p, node, temp);
      SetRight(temp, node);
      SetParent(node, temp);
    }

    /**
     Rotates node down to the right under its left child. The left link is written before the sentinel
     guard, so a sentinel left child leaves a nil link behind.
     */
    method rotateToRight(node: Node)
      requires Matches() && Linked(g) && node in g.cell
      modifies this`root, this`g, g.cell.Keys`parent, g.cell.Keys`leftChild, g.cell.Keys`rightChild
      ensures g.order == old(g.order) && g.cell.Keys == old(g.cell.Keys)
      ensures old(g.cell[node].left) == LEAF ==>
                && g == old(g) && root == old(root)
                && node.leftChild == null && node.rightChild == old(node.rightChild)
                && node.parent == old(node.parent) && node.color == old(node.color)
                && forall n :: n in g.cell && n != node ==> Mirrors(g, n)
      ensures old(g.cell[node].left) != LEAF ==>
                && Matches() && Linked(g) && IsChild(old(g), node, old(g.cell[node].left))
                && g == Rotate(old(g), node, old(g.cell[node].left))
    {
      ghost var g0 := g;
      Fields(node);
      LinksStay(g, node);
      var temp: Node := node.leftChild;
      if temp == LEAF {
        node.leftChild := temp.rightChild;
        forall n | n in g.cell && n != node ensures Mirrors(g, n) {
          assert old(Mirrors(g, n));
        }
        return;
      }
      hide *;
      LinksStay(g, temp);
      RotateWritesSame(g0, node, temp);
      SameKeepsFields(RotateWrites(g0, node, temp), Rotate(g0, node, temp));
      RotateLinked(g0, node, temp);
      RotateKeepsNodes(g0, node, temp);
      TurnRight(node, temp);
      Adopt(Rotate(g0, node, temp));
    }

    // ---------- insertion fix-up ----------

    method PaintBlackRed(a: Node, b: Node)
      requires Matches() && a in g.cell && b in g.cell && a != b
      modifies this`g, a`color, b`color
      ensures Matches() && g == Paint(old(g), map[a := BLACK, b := RED])
      ensures g.order == old(g.order) && g.cell.Keys == old(g.cell.Keys)
    {
      PaintTwo(g, a, BLACK, b, RED);
      SetColor(a, BLACK);
      SetColor(b, RED);
    }

    method PaintBlackBlackRed(a: Node, b: Node, c: Node)
      requires Matches() && a in g.cell && b in g.cell && c in g.cell && a != b && a != c && b != c
      modifies this`g, a`color, b`color, c`color
      ensures Matches() && g == Recolor(old(g), a, b, c)
      ensures g.order == old(g.order) && g.cell.Keys == old(g.cell.Keys)
    {
      PaintThree(g, a, BLACK, b, BLACK, c, RED);
      SetColor(a, BLACK);
      SetColor(b, BLACK);
      SetColor(c, RED);
    }

    /** One turn of the loop when the parent p of node is a right child. */
    method FixInsertRight(node: Node, p: Node, gp: Node) returns (next: Node)
      requires Matches() && Collision(g, node, p, gp) && p == g.cell[gp].right
      modifies this`root, this`g, g.cell.Keys`parent, g.cell.Keys`leftChild, g.cell.Keys`rightChild, g.cell.Keys`color
      ensures Matches() && Colliding(g, next) && g.order == old(g.order) && g.cell.Keys == old(g.cell.Keys)
      ensures BlackDepths(TreeOf(g)) == old(BlackDepths(TreeOf(g))) && Climb(g, next) < Climb(old(g), node)
    {
      hide *;
      next := node;
      CollisionLinks(g, node, p, gp);
      Fields(gp);
      Fields(p);
      var temp: Node := gp.leftChild;
      Fields(temp);
      if temp.color == RED {
        RecolorStep(g, node, p, temp, gp);
        PaintBlackBlackRed(p, temp, gp);
        next := gp;
      } else {
        if node == p.leftChild {
          InnerStep(g, node, p, gp);
          next := p;
          rotateToRight(p);
          CollisionLinks(g, p, node, gp);
          OuterStep(g, p, node, gp);
          PaintBlackRed(node, gp);
        } else {
          OuterStep(g, node, p, gp);
          PaintBlackRed(p, gp);
        }
        rotateToLeft(gp);
      }
    }

    /** One turn of the loop when the parent p of node is a left child. */
    method FixInsertLeft(node: Node, p: Node, gp: Node) returns (next: Node)
      requires Matches() && Collision(g, node, p, gp) && p == g.cell[gp].left
      modifies this`root, this`g, g.cell.Keys`parent, g.cell.Keys`leftChild, g.cell.Keys`rightChild, g.cell.Keys`color
      ensures Matches() && Colliding(g, next) && g.order == old(g.order) && g.cell.Keys == old(g.cell.Keys)
      ensures BlackDepths(TreeOf(g)) == old(BlackDepths(TreeOf(g))) && Climb(g, next) < Climb(old(g), node)
    {
      hide *;
      next := node;
      CollisionLinks(g, node, p, gp);
      Fields(gp);
      Fields(p);
      var temp: Node := gp.rightChild;
      Fields(temp);
      if temp.color == RED {
        RecolorStep(g, node, p, temp, gp);
        PaintBlackBlackRed(p, temp, gp);
        next := gp;
      } else {
        if node == p.rightChild {
          InnerStep(g, node, p, gp);
          next := p;
          rotateToLeft(p);
          CollisionLinks(g, p, node, gp);
          OuterStep(g, p, node, gp);
          PaintBlackRed(node, gp);
        } else {
          OuterStep(g, node, p, gp);
          PaintBlackRed(p, gp);
        }
        rotateToRight(gp);
      }
    }

    method fixInsertCollisions(start: Node)
      requires Matches() && Colliding(g, start)
      modifies this`root, this`g, g.cell.Keys`parent, g.cell.Keys`leftChild, g.cell.Keys`rightChild, g.cell.Keys`color
      ensures Matches() && Weak(g) && g.order == old(g.order) && g.cell.Keys == old(g.cell.Keys)
      ensures exists k :: 0 <= k <= 1 && BlackDepths(TreeOf(g)) == Plus(k, old(BlackDepths(TreeOf(g))))
    {
      hide *;
      var node := start;
      LoopHead(g, node);
      ghost var depths := BlackDepths(TreeOf(g));
      Fields(node);
      Fields(g.cell[node].parent);
      while node.parent.color == RED && node.parent.parent != LEAF
        invariant node.parent != null && (node.parent in g.cell || node.parent == LEAF)
        invariant Matches() && Colliding(g, node) && g.order == old(g.order) && g.cell.Keys == old(g.cell.Keys)
        invariant Linked(g) && node in g.cell && BlackDepths(TreeOf(g)) == depths
        decreases Climb(g, node)
      {
        LoopHead(g, node);
        Fields(node);
        var p: Node := node.parent;
        Fields(p);
        var gp: Node := p.parent;
        Fields(gp);
        CollisionLinks(g, node, p, gp);
        if p == gp.rightChild {
          node := FixInsertRight(node, p, gp);
        } else {
          node := FixInsertLeft(node, p, gp);
        }
        LoopHead(g, node);
        Fields(node);
      }
      LoopHead(g, node);
      Fields(node);
      Fields(g.cell[node].parent);
      SettleWeak(g, node);
      BlackenRootDepths(g);
      Fields(LEAF);
      PaintOne(g, root);
      ghost var k := if ColorOf(g, g.root) == RED then 1 else 0;
      SetColor(root, BLACK);
      assert BlackDepths(TreeOf(g)) == Plus(k, depths);
    }

    // ---------- searching ----------

    /** The stored keys in in-order sequence. */
    ghost function Keys(): seq<Item>
      reads this, (set n | n in g.order)`keyValue
    {
      KeysOf(g.order)
    }

    /** The weak invariant: fields as recorded, well linked, root black, no red-red edge, keys strictly increasing. */
    ghost predicate Valid()
      reads this, LEAF, g.cell.Keys, (set n | n in g.order)`keyValue
    {
      Matches() && Weak(g) && Lawful(Compare) && Sorted(Compare, Keys())
    }

    /** The stored items, as the set that the finite map consists of. */
    ghost function Contents(): set<Item>
      reads this, (set n | n in g.order)`keyValue
    {
      Elements(Keys())
    }

    lemma ValidParts()
      requires Valid()
      ensures Matches() && Linked(g) && Weak(g) && Lawful(Compare) && Sorted(Compare, Keys())
      ensures |Keys()| == |g.order| && Contents() == Elements(Keys()) && Keys() == KeysOf(g.order)
    {}

    /** One turn of a search loop: what comparing with the key of cur, between lo and hi, tells. */
    lemma SearchStep(key: Item, cur: Node, lo: int, hi: int)
      requires Valid() && cur in g.cell && Bounds(g, cur, lo, hi) && 0 <= lo <= hi <= |Keys()|
      requires key != Nil ==> Separates(Compare, Keys(), key, lo, hi)
      ensures 0 <= lo <= g.cell[cur].pos < hi <= |Keys()|
      ensures cur.keyValue != Nil
      ensures key != Nil && Compare(cur.keyValue, key) == 0 ==> Holds(Compare, Contents(), key) && LookUp(Compare, Contents(), key) == cur.keyValue
      ensures key != Nil && Compare(cur.keyValue, key) < 0 ==> Separates(Compare, Keys(), key, g.cell[cur].pos + 1, hi)
      ensures key != Nil && Compare(cur.keyValue, key) > 0 ==> Separates(Compare, Keys(), key, lo, g.cell[cur].pos)
    {
      Descend(g, cur, lo, hi);
      var k := g.cell[cur].pos;
      assert Keys()[k] == cur.keyValue;
      if key == Nil {
      } else if Compare(cur.keyValue, key) == 0 {
        SortedUnique(Compare, Keys(), key, cur.keyValue);
      } else if Compare(cur.keyValue, key) < 0 {
        NarrowRight(Compare, Keys(), key, lo, k, hi);
      } else {
        NarrowLeft(Compare, Keys(), key, lo, k, hi);
      }
    }

    /** The same, comparing the other way round, for a key that is not stored. */
    lemma SlotStep(key: Item, cur: Node, lo: int, hi: int)
      requires Valid() && cur in g.cell && Bounds(g, cur, lo, hi) && 0 <= lo <= hi <= |Keys()|
      requires key != Nil ==> Separates(Compare, Keys(), key, lo, hi) && !Holds(Compare, Contents(), key)
      ensures 0 <= lo <= g.cell[cur].pos < hi <= |Keys()|
      ensures key != Nil && Compare(key, cur.keyValue) < 0 ==> Separates(Compare, Keys(), key, lo, g.cell[cur].pos)
      ensures key != Nil && Compare(key, cur.keyValue) >= 0 ==> Separates(Compare, Keys(), key, g.cell[cur].pos + 1, hi)
    {
      SearchStep(key, cur, lo, hi);
    }

    lemma NothingStored(key: Item)
      requires Valid() && root == LEAF
      ensures LookUp(Compare, Contents(), key) == Nil && !Holds(Compare, Contents(), key)
    {
      EmptyShape(g);
    }

    lemma SearchStart(key: Item)
      requires Valid()
      ensures |Keys()| == |g.order| && Separates(Compare, Keys(), key, 0, |g.order|)
    {}

    lemma NothingFound(key: Item)
      requires !Holds(Compare, Contents(), key)
      ensures LookUp(Compare, Contents(), key) == Nil
    {}

    lemma FoundCompares(n: Node, key: Item)
      requires n.keyValue != Nil && n.keyValue == LookUp(Compare, Contents(), key)
      ensures Compare(n.keyValue, key) == 0
    {}

    lemma KeysNotNil()
      requires Valid()
      ensures Nil !in Contents()
    {}

    /** At most one node's key compares equal to key. */
    lemma OneNode(key: Item, d: Node, e: Node)
      requires Valid() && key != Nil && d in g.cell && e in g.cell
      requires Compare(d.keyValue, key) == 0 && Compare(e.keyValue, key) == 0
      ensures d == e
    {
      var i, j := g.cell[d].pos, g.cell[e].pos;
      assert Keys()[i] == d.keyValue && Keys()[j] == e.keyValue;
      SameClass(Compare, d.keyValue, e.keyValue, key);
      SameIndex(Compare, Keys(), i, j);
    }

    /** No other node compares equal. */
    lemma OnlyNode(key: Item, d: Node)
      requires Valid() && key != Nil && d in g.cell && Compare(d.keyValue, key) == 0
      ensures forall e :: e in g.cell && Compare(e.keyValue, key) == 0 ==> e == d
    {
      forall e | e in g.cell && Compare(e.keyValue, key) == 0 ensures e == d {
        OneNode(key, d, e);
      }
    }

    lemma NothingCompares(key: Item)
      requires Valid() && !Holds(Compare, Contents(), key)
      ensures forall d :: d in g.cell ==> Compare(d.keyValue, key) != 0
    {
      forall d | d in g.cell ensures Compare(d.keyValue, key) != 0 {
        assert Keys()[g.cell[d].pos] == d.keyValue;
      }
    }

    lemma KeyStored(n: Node)
      requires Matches() && Linked(g) && n in g.cell
      ensures n.keyValue in Contents()
    {
      assert Keys()[g.cell[n].pos] == n.keyValue;
    }

    /** steps counts the turns of the loop. For a nil key, which the comparator's law says nothing about, the search still ends. */
    method FindNode(key: Item) returns (found: Node?, ghost steps: nat)
      requires Valid()
      ensures steps <= Height(TreeOf(g))
      ensures found != null ==> found in g.cell && found.keyValue != Nil && Compare(found.keyValue, key) == 0
      ensures key != Nil ==> (found == null <==> !Holds(Compare, Contents(), key))
      ensures key != Nil && found != null ==> found.keyValue == LookUp(Compare, Contents(), key)
    {
      hide *;
      ValidParts();
      RootBounds(g);
      Fields(LEAF);
      SearchStart(key);
      var cur: Node := root;
      ghost var lo, hi := 0, |g.order|;
      steps := 0;
      while cur != LEAF
        invariant 0 <= lo <= hi <= |Keys()| && (key != Nil ==> Separates(Compare, Keys(), key, lo, hi))
        invariant (cur == LEAF || cur in g.cell) && Bounds(g, cur, lo, hi)
        invariant steps + Height(Subtree(g, cur)) <= Height(TreeOf(g))
        decreases hi - lo
      {
        steps := steps + 1;
        Fields(cur);
        Descend(g, cur, lo, hi);
        SearchStep(key, cur, lo, hi);
        var result := Compare(cur.keyValue, key);
        if result == 0 {
          return cur, steps;
        } else if result < 0 {
          lo := g.cell[cur].pos + 1;
          cur := cur.rightChild;
        } else {
          hi := g.cell[cur].pos;
          cur := cur.leftChild;
        }
      }
      LeafBounds(g, lo, hi);
      if key != Nil { SeparatedAbsent(Compare, Keys(), key, lo); }
      found := null;
    }

    method FindKey(key: Item) returns (item: Item)
      requires Valid()
      ensures item != Nil ==> item in Contents() && Compare(item, key) == 0
      ensures key != Nil ==> item == LookUp(Compare, Contents(), key)
      ensures key != Nil ==> (item == Nil <==> !Holds(Compare, Contents(), key))
    {
      hide *;
      ValidParts();
      RootBounds(g);
      Fields(LEAF);
      SearchStart(key);
      var found: Node := root;
      ghost var lo, hi := 0, |g.order|;
      while found != LEAF
        invariant 0 <= lo <= hi <= |Keys()| && (key != Nil ==> Separates(Compare, Keys(), key, lo, hi))
        invariant (found == LEAF || found in g.cell) && Bounds(g, found, lo, hi)
        decreases hi - lo
      {
        Fields(found);
        Descend(g, found, lo, hi);
        SearchStep(key, found, lo, hi);
        var result := Compare(found.keyValue, key);
        if result == 0 {
          KeyStored(found);
          return found.keyValue;
        } else if result < 0 {
          lo := g.cell[found].pos + 1;
          found := found.rightChild;
        } else {
          hi := g.cell[found].pos;
          found := found.leftChild;
        }
      }
      LeafBounds(g, lo, hi);
      if key != Nil { SeparatedAbsent(Compare, Keys(), key, lo); }
      item := Nil;
    }

    // ---------- insertion ----------

    /** The one child link that makes the new node z, whose parent link is set, part of the tree. */
    method HangOn(q: Node, onLeft: bool, z: Node)
      requires Matches() && Linked(g) && Free(g, q, onLeft) && z !in g.cell && z != LEAF
      requires z.leftChild == LEAF && z.rightChild == LEAF && z.parent == q && z.color == RED
      modifies this`g, q`leftChild, q`rightChild
      ensures Matches() && g == Attach(old(g), q, onLeft, z)
    {
      if onLeft {
        q.leftChild := z;
      } else {
        q.rightChild := z;
      }
      g := Attach(g, q, onLeft, z);
      forall n | n in g.cell ensures Mirrors(g, n) {
        if n != z { assert old(Mirrors(g, n)); }
      }
    }

    /** The new node becomes the root of an empty tree. */
    method Plant(z: Node)
      requires Matches() && g == Empty(LEAF) && z != LEAF
      requires z.leftChild == LEAF && z.rightChild == LEAF && z.parent == LEAF && z.color == RED
      modifies this`g, this`root
      ensures Matches() && g == Single(LEAF, z)
    {
      root := z;
      g := Single(LEAF, z);
      forall n | n in g.cell ensures Mirrors(g, n) {}
    }

    /** What the finished insertion of z at position p of the sequence o means for the keys. */
    lemma InsertDone(o: seq<Node>, z: Node, p: int, key: Item)
      requires Matches() && Weak(g) && Lawful(Compare) && Sorted(Compare, KeysOf(o)) && key != Nil && z.keyValue == key
      requires 0 <= p <= |o| && |KeysOf(o)| == |o| && Separates(Compare, KeysOf(o), key, p, p)
      requires g.order == o[..p] + [z] + o[p..]
      ensures Valid() && Keys() == Inserted(KeysOf(o), p, key)
      ensures Contents() == Elements(KeysOf(o)) + {key}
    {
      AttachedKeys(o, p, z);
      InsertSorted(Compare, KeysOf(o), key, p);
      InsertElements(KeysOf(o), key, p);
    }

    lemma InsertKeys(o: seq<Node>, z: Node, p: int, key: Item)
      requires z.keyValue == key && 0 <= p <= |o| && g.order == o[..p] + [z] + o[p..]
      ensures |KeysOf(o)| == |o| && Contents() == Elements(KeysOf(o)) + {key}
    {
      AttachedKeys(o, p, z);
      InsertElements(KeysOf(o), key, p);
    }

    /** Finds the free link where insert belongs, at in-order position p, and hangs it there. */
    method LinkNew(insert: Node) returns (ghost p: int)
      requires Valid() && (insert.keyValue != Nil ==> !Holds(Compare, Contents(), insert.keyValue))
      requires insert !in g.cell && insert != LEAF && insert.parent == LEAF
      requires insert.leftChild == LEAF && insert.rightChild == LEAF && insert.color == RED
      modifies this`root, this`g, insert`parent, g.cell.Keys`leftChild, g.cell.Keys`rightChild
      ensures Matches() && Linked(g) && Colliding(g, insert) && g.cell.Keys == old(g.cell.Keys) + {insert}
      ensures Linked(old(g)) && 0 <= p <= |old(g).order| && p < |BlackDepths(TreeOf(old(g)))|
      ensures g.order == old(g).order[..p] + [insert] + old(g).order[p..]
      ensures |KeysOf(old(g).order)| == |old(g).order|
      ensures insert.keyValue != Nil ==> Separates(Compare, KeysOf(old(g).order), insert.keyValue, p, p)
      ensures BlackDepths(TreeOf(g)) == Twice(BlackDepths(TreeOf(old(g))), p)
    {
      hide *;
      ghost var g0, key := g, insert.keyValue;
      ValidParts();
      RootBounds(g);
      Fields(LEAF);
      SearchStart(key);
      var lastNode: Node := LEAF;
      var temp: Node := root;
      ghost var lo, hi, onLeft := 0, |g.order|, false;
      while temp != LEAF
        invariant Valid() && g == g0 && insert !in g.cell && (key != Nil ==> !Holds(Compare, Contents(), key))
        invariant 0 <= lo <= hi <= |Keys()| && (key != Nil ==> Separates(Compare, Keys(), key, lo, hi))
        invariant (temp == LEAF || temp in g.cell) && Bounds(g, temp, lo, hi)
        invariant lastNode == LEAF || lastNode in g.cell
        invariant lastNode == LEAF ==> temp == root
        invariant temp == LEAF && lastNode != LEAF ==>
                    Free(g, lastNode, onLeft) && Slot(g, lastNode, onLeft) == lo
                    && (onLeft <==> Compare(key, lastNode.keyValue) < 0)
        decreases hi - lo
      {
        ValidParts();
        Fields(temp);
        Descend(g, temp, lo, hi);
        SlotStep(key, temp, lo, hi);
        lastNode := temp;
        var result := Compare(insert.keyValue, temp.keyValue);
        onLeft := result < 0;
        if result < 0 {
          hi := g.cell[temp].pos;
          temp := temp.leftChild;
        } else {
          lo := g.cell[temp].pos + 1;
          temp := temp.rightChild;
        }
      }
      LeafBounds(g, lo, hi);
      p := lo;
      insert.parent := lastNode;
      ValidParts();
      if lastNode == LEAF {
        EmptyShape(g);
        SingleStep(LEAF, insert);
        Plant(insert);
      } else {
        AttachStep(g, lastNode, onLeft, insert);
        var result := Compare(insert.keyValue, lastNode.keyValue);
        HangOn(lastNode, result < 0, insert);
      }
    }

    /**
     A key that compares equal to a stored one changes nothing, and the stored item is returned. Any other key
     is added, the fix-up keeps the weak invariant, and the tree is balanced afterwards exactly when it was before.
     A nil key is added too unless the comparator finds it equal to a stored one; the tree is then no longer ordered.
     */
    method Insert(key: Item) returns (item: Item)
      requires Valid()
      modifies this`root, this`g, g.cell.Keys`parent, g.cell.Keys`leftChild, g.cell.Keys`rightChild, g.cell.Keys`color
      ensures Matches() && Weak(g) && fresh(g.cell.Keys - old(g.cell.Keys))
      ensures key != Nil ==> Valid()
      ensures key != Nil ==> item == LookUp(Compare, old(Contents()), key)
      ensures key != Nil ==> (item == Nil <==> !old(Holds(Compare, Contents(), key)))
      ensures item != Nil ==> g == old(g) && Keys() == old(Keys()) && item in old(Contents()) && Compare(item, key) == 0
      ensures item == Nil ==>
                && Contents() == old(Contents()) + {key}
                && (Balanced(g) <==> Balanced(old(g)))
                && exists z: Node, p :: fresh(z) && z.keyValue == key && AddedAt(old(g), g, z, p)
    {
      hide *;
      ValidParts();
      RootBounds(g);
      Fields(LEAF);
      ghost var g0 := g;
      var localKey := Nil;
      if root != LEAF {
        localKey := FindKey(key);
      } else {
        NothingStored(key);
      }
      if localKey != Nil {
        return localKey;
      }
      var insert := new Node.Create(key, LEAF);
      ghost var p := LinkNew(insert);
      ghost var h := g;
      fixInsertCollisions(insert);
      WeakLinked(g);
      InsertKeys(g0.order, insert, p, key);
      if key != Nil {
        InsertDone(g0.order, insert, p, key);
        ValidParts();
      }
      PlusTwice(g0, h, g, p);
      AddedIntro(g0, g, insert, p);
      item := Nil;
    }

    // ---------- deletion fix-up ----------

    /** The three colour writes before the last rotation: temp takes p's colour, then p and far turn black. */
    method PaintLast(temp: Node, p: Node, far: Node)
      requires Matches() && temp in g.cell && p in g.cell && (far in g.cell || far == LEAF)
      modifies this`g, temp`color, p`color, far`color
      ensures Matches() && g == HandDown(old(g), temp, p, far)
    {
      Fields(p);
      SetColor(temp, p.color);
      SetColor(p, BLACK);
      SetColor(far, BLACK);
    }

    /** The turn of the loop for a left child, once its sibling temp is black. */
    method FixLevelLeft(node: Node, p: Node, sibling: Node) returns (next: Node, ghost done: bool)
      requires Matches() && Level(g, node, p, sibling) && p in g.cell && node == g.cell[p].left
      modifies this`root, this`g, g.cell.Keys`parent, g.cell.Keys`leftChild, g.cell.Keys`rightChild, g.cell.Keys`color, LEAF`color
      ensures Matches() && g.order == old(g.order) && g.cell.Keys == old(g.cell.Keys)
      ensures Linked(old(g)) && node in old(g).cell && Linked(g)
      ensures !done ==> Climbing(g, next) && next in g.cell && SameClimb(old(g), node, g, next)
      ensures !done ==> g.cell[next].hi - g.cell[next].lo > old(g).cell[node].hi - old(g).cell[node].lo
      ensures done ==> next == root && Weak(g) && Settles(old(g), node, g) && !Stuck(old(g), node)
    {
      hide *;
      ghost var g0 := g;
      LevelParts(g, node, p, sibling);
      LevelDeficit(g, node, p, sibling);
      DeficitLinks(g, node, p, sibling);
      Fields(p);
      Fields(sibling);
      Fields(LEAF);
      var temp: Node, near: Node, far: Node := sibling, sibling.leftChild, sibling.rightChild;
      Fields(near);
      Fields(far);
      if near.color == BLACK && far.color == BLACK {
        MoveUpTurn(g, node, p, temp);
        PaintRed(g, temp);
        SetColor(temp, RED);
        return p, false;
      }
      if far.color == BLACK {
        InnerNephewHere(g, p, node, temp);
        DoubleTurn(g, node, p, temp);
        PaintBlackRed(near, temp);
        rotateToRight(temp);
        ghost var h := g;
        DoubleEnd(g0, g, node, p, temp, near);
        FarRedParts(g, node, p, near, temp);
        Fields(temp);
        Fields(near);
        temp := temp.parent.rightChild;
        far := temp.rightChild;
      } else {
        FarTurn(g, node, p, temp);
      }
      PaintLast(temp, p, far);
      rotateToLeft(p);
      WeakLinked(g);
      Fields(LEAF);
      next, done := root, true;
    }

    /** The turn of the loop for a right child, once its sibling temp is black. */
    method FixLevelRight(node: Node, p: Node, sibling: Node) returns (next: Node, ghost done: bool)
      requires Matches() && Level(g, node, p, sibling) && p in g.cell && node != g.cell[p].left
      modifies this`root, this`g, g.cell.Keys`parent, g.cell.Keys`leftChild, g.cell.Keys`rightChild, g.cell.Keys`color, LEAF`color
      ensures Matches() && g.order == old(g.order) && g.cell.Keys == old(g.cell.Keys)
      ensures Linked(old(g)) && node in old(g).cell && Linked(g)
      ensures !done ==> Climbing(g, next) && next in g.cell && SameClimb(old(g), node, g, next)
      ensures !done ==> g.cell[next].hi - g.cell[next].lo > old(g).cell[node].hi - old(g).cell[node].lo
      ensures done ==> next == root && Weak(g) && Settles(old(g), node, g) && !Stuck(old(g), node)
    {
      hide *;
      ghost var g0 := g;
      LevelParts(g, node, p, sibling);
      LevelDeficit(g, node, p, sibling);
      DeficitLinks(g, node, p, sibling);
      Fields(p);
      Fields(sibling);
      Fields(LEAF);
      var temp: Node, near: Node, far: Node := sibling, sibling.rightChild, sibling.leftChild;
      Fields(near);
      Fields(far);
      if near.color == BLACK && far.color == BLACK {
        MoveUpTurn(g, node, p, temp);
        PaintRed(g, temp);
        SetColor(temp, RED);
        return p, false;
      }
      if far.color == BLACK {
        InnerNephewHere(g, p, node, temp);
        DoubleTurn(g, node, p, temp);
        PaintBlackRed(near, temp);
        rotateToLeft(temp);
        ghost var h := g;
        DoubleEnd(g0, g, node, p, temp, near);
        FarRedParts(g, node, p, near, temp);
        Fields(temp);
        Fields(near);
        temp := temp.parent.leftChild;
        far := temp.leftChild;
      } else {
        FarTurn(g, node, p, temp);
      }
      PaintLast(temp, p, far);
      rotateToRight(p);
      WeakLinked(g);
      Fields(LEAF);
      next, done := root, true;
    }

    /**
     One turn of the loop for a left child. Where the sibling is the sentinel, at once or after the first rotation, the
     source reads the colour of its nil child: the run is over, and met tells so.
     */
    method FixDeleteLeft(node: Node, p: Node) returns (next: Node, met: bool, ghost done: bool)
      requires Matches() && Climbing(g, node) && Enters(g, node) && node in g.cell && p == g.cell[node].parent
      requires p in g.cell && node == g.cell[p].left
      modifies this`root, this`g, g.cell.Keys`parent, g.cell.Keys`leftChild, g.cell.Keys`rightChild, g.cell.Keys`color, LEAF`color
      ensures Matches() && g.order == old(g.order) && g.cell.Keys == old(g.cell.Keys)
      ensures Linked(old(g)) && node in old(g).cell && Linked(g)
      ensures met ==> Stuck(old(g), node)
      ensures !met && !done ==> Climbing(g, next) && next in g.cell && SameClimb(old(g), node, g, next)
      ensures !met && !done ==> g.cell[next].hi - g.cell[next].lo > old(g).cell[node].hi - old(g).cell[node].lo
      ensures !met && done ==> next == root && Weak(g) && Settles(old(g), node, g) && !Stuck(old(g), node)
    {
      hide *;
      ghost var g0 := g;
      ClimbingParts(g, node);
      EntersMeaning(g, node);
      RisingLinks(g, node);
      LinksStay(g, p);
      Fields(p);
      Fields(LEAF);
      var temp: Node := p.rightChild;
      Fields(temp);
      EntersMeaning(g, temp);
      if temp.color == RED {
        RedSiblingStuck(g, node, p, temp);
        ghost var near := Near(g, p, node, temp);
        if near in g.cell { RedSiblingTurn(g, node, p, temp); }
        PaintBlackRed(temp, p);
        rotateToLeft(p);
        Fields(node);
        Fields(p);
        temp := node.parent.rightChild;
        Fields(temp);
        if temp == LEAF {
          return node, true, false;
        }
        DeficitLinks(g, node, p, near);
        EntersMeaning(g, near);
      } else if temp == LEAF {
        return node, true, false;
      } else {
        SameClimbSelf(g, node);
      }
      ghost var g1 := g;
      next, done := FixLevelLeft(node, p, temp);
      met := false;
      SameClimbParts(g0, node, g1, node);
      if done {
        SameSettles(g0, node, g1, node, g);
      } else {
        SameClimbTrans(g0, node, g1, node, g, next);
      }
    }

    /**
     One turn of the loop for a right child. Where the sibling is the sentinel, at once or after the first rotation, the
     source reads the colour of its nil child: the run is over, and met tells so.
     */
    method FixDeleteRight(node: Node, p: Node) returns (next: Node, met: bool, ghost done: bool)
      requires Matches() && Climbing(g, node) && Enters(g, node) && node in g.cell && p == g.cell[node].parent
      requires p in g.cell && node != g.cell[p].left
      modifies this`root, this`g, g.cell.Keys`parent, g.cell.Keys`leftChild, g.cell.Keys`rightChild, g.cell.Keys`color, LEAF`color
      ensures Matches() && g.order == old(g.order) && g.cell.Keys == old(g.cell.Keys)
      ensures Linked(old(g)) && node in old(g).cell && Linked(g)
      ensures met ==> Stuck(old(g), node)
      ensures !met && !done ==> Climbing(g, next) && next in g.cell && SameClimb(old(g), node, g, next)
      ensures !met && !done ==> g.cell[next].hi - g.cell[next].lo > old(g).cell[node].hi - old(g).cell[node].lo
      ensures !met && done ==> next == root && Weak(g) && Settles(old(g), node, g) && !Stuck(old(g), node)
    {
      hide *;
      ghost var g0 := g;
      ClimbingParts(g, node);
      EntersMeaning(g, node);
      RisingLinks(g, node);
      LinksStay(g, p);
      Fields(p);
      Fields(LEAF);
      var temp: Node := p.leftChild;
      Fields(temp);
      EntersMeaning(g, temp);
      if temp.color == RED {
        RedSiblingStuck(g, node, p, temp);
        ghost var near := Near(g, p, node, temp);
        if near in g.cell { RedSiblingTurn(g, node, p, temp); }
        PaintBlackRed(temp, p);
        rotateToRight(p);
        Fields(node);
        Fields(p);
        temp := node.parent.leftChild;
        Fields(temp);
        if temp == LEAF {
          return node, true, false;
        }
        DeficitLinks(g, node, p, near);
        EntersMeaning(g, near);
      } else if temp == LEAF {
        return node, true, false;
      } else {
        SameClimbSelf(g, node);
      }
      ghost var g1 := g;
      next, done := FixLevelRight(node, p, temp);
      met := false;
      SameClimbParts(g0, node, g1, node);
      if done {
        SameSettles(g0, node, g1, node, g);
      } else {
        SameClimbTrans(g0, node, g1, node, g, next);
      }
    }

    /**
     Paints start black if it is red, the root or the sentinel. Otherwise it climbs from start, which stands for one
     more black than it shows. The run meets the sentinel as a sibling, and so follows a nil link, exactly when
     Stuck says so. Otherwise it restores the colour rules and supplies the black, except where it comes to a double
     rotation below a red parent.
     */
    method fixDeleteCollisions(start: Node) returns (met: bool)
      requires Matches() && (start in g.cell || start == LEAF) && Around(g, start)
      modifies this`root, this`g, g.cell.Keys`parent, g.cell.Keys`leftChild, g.cell.Keys`rightChild, g.cell.Keys`color, LEAF`color
      ensures Matches() && Linked(g) && g.order == old(g.order) && g.cell.Keys == old(g.cell.Keys)
      ensures Linked(old(g)) && (met <==> Stuck(old(g), start))
      ensures !met ==> Weak(g)
      ensures !Enters(old(g), start) ==> g == Blacken(old(g), start)
      ensures !met && Enters(old(g), start) ==> start in old(g).cell && Settles(old(g), start, g)
    {
      hide *;
      ghost var g0, done := g, false;
      var node := start;
      AroundLinked(g, node);
      EntersMeaning(g, node);
      if Enters(g, node) {
        EnterClimbing(g, node);
        SameClimbSelf(g, node);
      } else {
        StuckEnters(g, node);
      }
      Fields(node);
      Fields(LEAF);
      while node != root && node.color == BLACK && node != LEAF
        invariant Matches() && Linked(g) && g.order == g0.order && g.cell.Keys == g0.cell.Keys
        invariant node in g.cell || node == LEAF
        invariant Enters(g, node) <==> node != root && node.color == BLACK && node != LEAF
        invariant !Enters(g0, start) ==> g == g0 && node == start && !done
        invariant Enters(g0, start) && !done ==> node in g.cell && Climbing(g, node) && SameClimb(g0, start, g, node)
        invariant done ==> Enters(g0, start) && node == root && Weak(g) && Settles(g0, start, g) && !Stuck(g0, start)
        decreases Rise(g, node)
      {
        Fields(node);
        Fields(LEAF);
        EntersMeaning(g, node);
        RisingLinks(g, node);
        RisePositive(g, node);
        SameClimbParts(g0, start, g, node);
        ghost var g1, n1 := g, node;
        var p: Node := node.parent;
        Fields(p);
        if node == p.leftChild {
          node, met, done := FixDeleteLeft(node, p);
        } else {
          node, met, done := FixDeleteRight(node, p);
        }
        if met {
          return;
        }
        if done {
          SameSettles(g0, start, g1, n1, g);
          WeakLinked(g);
          RiseRoot(g);
          Fields(LEAF);
        } else {
          SameClimbTrans(g0, start, g1, n1, g, node);
          RiseBound(g, node);
        }
        Fields(node);
        EntersMeaning(g, node);
      }
      met := false;
      Fields(node);
      EntersMeaning(g, node);
      Fields(LEAF);
      PaintOne(g, node);
      if done {
        WeakRootBlack(g);
        BlackenBlack(g, node);
      } else if Enters(g0, start) {
        SameClimbParts(g0, start, g, node);
        ClimbEnds(g, node);
        WeakLinked(Blacken(g, node));
        SameSettles(g0, start, g, node, Blacken(g, node));
      } else {
        BlackenWeak(g, node);
        WeakLinked(Blacken(g, node));
      }
      SetColor(node, BLACK);
    }

    // ---------- deletion ----------

    /** nodeB takes nodeA's place below nodeA's parent, or as the root. */
    method switchNodes(nodeA: Node, nodeB: Node)
      requires Matches() && nodeA in g.cell && (nodeB in g.cell || nodeB == LEAF)
      requires g.cell[nodeA].parent in g.cell || g.cell[nodeA].parent == LEAF
      modifies this`root, this`g, g.cell.Keys`parent, g.cell.Keys`leftChild, g.cell.Keys`rightChild
      ensures Matches() && g == Switch(old(g), nodeA, nodeB) && g.cell.Keys == old(g.cell.Keys) && g.leaf == old(g.leaf)
    {
      Fields(nodeA);
      var p: Node := nodeA.parent;
      Replace(p, nodeA, nodeB);
      LinkBack(nodeB, p);
    }

    /** min moves into d's place, with d's left child and colour. */
    method MoveInto(d: Node, min: Node)
      requires Matches() && d in g.cell && min in g.cell && d != min && g.cell[d].parent != d
      requires g.cell[d].parent in g.cell || g.cell[d].parent == LEAF
      requires g.cell[d].left in g.cell || g.cell[d].left == LEAF
      modifies this`root, this`g, g.cell.Keys`parent, g.cell.Keys`leftChild, g.cell.Keys`rightChild, g.cell.Keys`color
      ensures Matches() && g == TakeOver(old(g), d, min)
    {
      switchNodes(d, min);
      Fields(d);
      SetLeft(min, d.leftChild);
      Fields(min);
      LinkBack(min.leftChild, min);
      Fields(d);
      SetColor(min, d.color);
    }

    /** d, which has two children, is replaced by its in-order successor, and not copied over. */
    method deleteNode(d: Node) returns (temp: Node, nodeColor: Color)
      requires Matches() && Linked(g) && d in g.cell && !Spliceable(g, d)
      modifies this`root, this`g, g.cell.Keys`parent, g.cell.Keys`leftChild, g.cell.Keys`rightChild, g.cell.Keys`color
      ensures Matches() && g == Unlink(old(g), d) && temp == Filler(old(g), d) && nodeColor == ColorOf(old(g), Spliced(old(g), d))
    {
      hide *;
      ghost var g0 := g;
      TwoChildren(g, d);
      Fields(d);
      var min := TreeFirstNode(d.rightChild, LEAF, g);
      DeleteWritesSame(g, d);
      PairParts(g, d, min);
      Fields(min);
      nodeColor := min.color;
      temp := min.rightChild;
      Fields(temp);
      if min.parent == d && temp != LEAF {
        SetParent(temp, min);
        DirectParts(g0, d, min);
      } else {
        switchNodes(min, temp);
        ViaParts(g0, d, min);
        Fields(d);
        SetRight(min, d.rightChild);
        Fields(min);
        LinkBack(min.rightChild, min);
        ViaMoved(g0, d, min);
      }
      MoveInto(d, min);
      Adopt(Unlink(g0, d));
    }

    method deleteCheckSwitch(delete: Node) returns (temp: Node, nodeColor: Color)
      requires Matches() && Linked(g) && delete in g.cell
      modifies this`root, this`g, g.cell.Keys`parent, g.cell.Keys`leftChild, g.cell.Keys`rightChild, g.cell.Keys`color
      ensures Matches() && g == Unlink(old(g), delete) && temp == Filler(old(g), delete)
      ensures nodeColor == ColorOf(old(g), Spliced(old(g), delete))
    {
      hide *;
      ghost var g0 := g;
      Fields(delete);
      ChildCount(g, delete);
      nodeColor := delete.color;
      if delete.leftChild == LEAF {
        OneChild(g, delete);
        temp := delete.rightChild;
        switchNodes(delete, delete.rightChild);
        Adopt(Unlink(g0, delete));
      } else if delete.rightChild == LEAF {
        OneChild(g, delete);
        temp := delete.leftChild;
        switchNodes(delete, delete.leftChild);
        Adopt(Unlink(g0, delete));
      } else {
        temp, nodeColor := deleteNode(delete);
      }
    }

    /** What the finished deletion of d means for the keys. */
    lemma DeleteDone(before: Shape<Node>, d: Node, key: Item)
      requires Matches() && Weak(g) && Lawful(Compare) && key != Nil
      requires DeletedFrom(before, g, d) && |KeysOf(before.order)| == |before.order| && Sorted(Compare, KeysOf(before.order))
      requires before.order[before.cell[d].pos] == d && d.keyValue == LookUp(Compare, Elements(KeysOf(before.order)), key)
      ensures Valid() && Contents() == Elements(KeysOf(before.order)) - {d.keyValue}
      ensures Keys() == Removed(KeysOf(before.order), before.cell[d].pos)
    {
      var k := before.cell[d].pos;
      RemovedKeys(before.order, k);
      RemoveSorted(Compare, KeysOf(before.order), k);
      RemoveElements(Compare, KeysOf(before.order), k);
    }

    /** No link of the tree leads to a node that is not in it. */
    lemma NoLinkTo(d: Node)
      requires Matches() && Linked(g) && d !in g.cell && d != LEAF
      ensures root != d
      ensures forall n :: n in g.cell ==> n.leftChild != d && n.rightChild != d && n.parent != d
    {
      forall n | n in g.cell ensures n.leftChild != d && n.rightChild != d && n.parent != d {
        Fields(n);
        LinksStay(g, n);
      }
    }

    /** Takes the node delete out and runs the fix-up if a black place disappeared. */
    method Remove(delete: Node) returns (met: bool)
      requires Matches() && Weak(g) && Linked(g) && delete in g.cell
      modifies this`root, this`g, g.cell.Keys`parent, g.cell.Keys`leftChild, g.cell.Keys`rightChild, g.cell.Keys`color, LEAF`color
      ensures Matches() && Linked(g) && Linked(old(g)) && delete in old(g).cell && g.cell.Keys == old(g.cell.Keys) - {delete}
      ensures met <==> DeleteStuck(old(g), delete)
      ensures !met ==> Weak(g) && DeletedFrom(old(g), g, delete)
    {
      hide *;
      ghost var g0 := g;
      Fields(LEAF);
      UnlinkAround(g, delete);
      UnlinkLinked(g, delete);
      StuckMeaning(g, delete);
      var temp, nodeColor := deleteCheckSwitch(delete);
      met := false;
      if nodeColor == BLACK {
        met := fixDeleteCollisions(temp);
      }
      if met {
        return;
      }
      WeakLinked(g);
      Fields(LEAF);
      DeletedIntro(g0, g, delete, nodeColor);
    }

    /**
     The item that compares equal to key leaves the tree and is returned; without one, or for a nil key, nothing
     changes. The weak invariant holds afterwards, and the counts are those of DeletedFrom. Only where DeleteStuck
     says so does the fix-up follow a nil link instead, and nothing is promised but that met tells so.
     */
    method Delete(key: Item) returns (item: Item, met: bool)
      requires Valid()
      modifies this`root, this`g, g.cell.Keys`parent, g.cell.Keys`leftChild, g.cell.Keys`rightChild, g.cell.Keys`color, LEAF`color
      ensures Matches() && Linked(old(g)) && Linked(g) && g.cell.Keys <= old(g.cell.Keys)
      ensures met <==> key != Nil && exists d :: d in old(g).cell && Compare(d.keyValue, key) == 0 && DeleteStuck(old(g), d)
      ensures !met ==> Valid()
      ensures !met ==> item == if key == Nil then Nil else LookUp(Compare, old(Contents()), key)
      ensures !met && item == Nil ==> g == old(g) && Keys() == old(Keys())
      ensures !met && item != Nil ==>
                && Contents() == old(Contents()) - {item}
                && exists d :: d in old(g).cell && old(d.keyValue) == item && DeletedFrom(old(g), g, d)
                     && root != d && forall n :: n in g.cell ==> n.leftChild != d && n.rightChild != d && n.parent != d
    {
      hide *;
      ValidParts();
      if key == Nil {
        return Nil, false;
      }
      ghost var g0 := g;
      var delete, _ := FindNode(key);
      if delete == null {
        NothingFound(key);
        NothingCompares(key);
        return Nil, false;
      }
      FoundCompares(delete, key);
      OnlyNode(key, delete);
      Fields(LEAF);
      PlacedAt(g, delete);
      item := delete.keyValue;
      met := Remove(delete);
      if met {
        return;
      }
      DeleteDone(g0, delete, key);
      ValidParts();
      Fields(LEAF);
      NoLinkTo(delete);
    }
  }
}
