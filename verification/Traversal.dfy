/** In-order stepping through the links of the nodes. */
module Traversal {
  import opened Nodes
  import opened Shapes
  import opened Trees
  import opened ShapeTrees

  /** The fields of n are those recorded in g. */
  ghost predicate Mirrors(g: Shape<Node>, n: Node)
    requires n in g.cell
    reads n
  {
    n.leftChild == g.cell[n].left && n.rightChild == g.cell[n].right && n.parent == g.cell[n].parent && n.color == g.cell[n].color
  }

  /** The fields of all nodes are those recorded in g, and the sentinel is as it was made. */
  ghost predicate Recorded(g: Shape<Node>, leaf: Node)
    reads leaf, g.cell.Keys
  {
    && leaf == g.leaf && IsSentinel(leaf) && leaf !in g.cell
    && forall n {:trigger Mirrors(g, n)} :: n in g.cell ==> Mirrors(g, n)
  }

  /** What reading the fields of a node, or the colour of the sentinel, gives. */
  lemma Fields(g: Shape<Node>, leaf: Node, n: Node)
    requires Recorded(g, leaf) && (n in g.cell || n == leaf)
    ensures g.leaf == leaf && leaf !in g.cell && n.color == ColorOf(g, n)
    ensures n in g.cell ==>
              n.color == g.cell[n].color && n.leftChild == g.cell[n].left && n.rightChild == g.cell[n].right && n.parent == g.cell[n].parent
    ensures n == leaf ==> n.leftChild == null && n.rightChild == null && n.parent == null && n.keyValue == Nil
  {
    if n in g.cell { assert Mirrors(g, n); }
  }

  // ---------- stepping, on shapes ----------

  /** The in-order successor of n, or the sentinel after the last node. */
  ghost function NextNode<N>(g: Shape<N>, n: N): N
    requires Linked(g) && n in g.cell
  {
    if g.cell[n].pos + 1 < |g.order| then g.order[g.cell[n].pos + 1] else g.leaf
  }

  /** The in-order predecessor of n, or the sentinel before the first node. */
  ghost function PrevNode<N>(g: Shape<N>, n: N): N
    requires Linked(g) && n in g.cell
  {
    if g.cell[n].pos > 0 then g.order[g.cell[n].pos - 1] else g.leaf
  }

  /** Stepping forward and back, or back and forward, ends where it began. */
  lemma StepsUndo<N>(g: Shape<N>, n: N)
    requires Linked(g) && n in g.cell
    ensures NextNode(g, n) != g.leaf ==> NextNode(g, n) in g.cell && PrevNode(g, NextNode(g, n)) == n
    ensures PrevNode(g, n) != g.leaf ==> PrevNode(g, n) in g.cell && NextNode(g, PrevNode(g, n)) == n
    ensures NextNode(g, n) == g.leaf <==> n == InOrder(TreeOf(g))[|InOrder(TreeOf(g))| - 1]
    ensures PrevNode(g, n) == g.leaf <==> n == InOrder(TreeOf(g))[0]
  {
    TreeInOrder(g);
  }

  /** The nodes met by stepping forward from n until the sentinel. */
  ghost function Walk<N>(g: Shape<N>, n: N): seq<N>
    requires Linked(g) && n in g.cell
    decreases |g.order| - g.cell[n].pos
  {
    [n] + if NextNode(g, n) == g.leaf then [] else Walk(g, NextNode(g, n))
  }

  lemma {:induction false} WalkFrom<N>(g: Shape<N>, n: N)
    requires Linked(g) && n in g.cell
    ensures Walk(g, n) == g.order[g.cell[n].pos..]
    decreases |g.order| - g.cell[n].pos
  {
    if NextNode(g, n) != g.leaf { WalkFrom(g, NextNode(g, n)); }
  }

  /** Stepping from the first node meets exactly the in-order traversal of the tree, each node once. */
  lemma WalkMeetsAll<N>(g: Shape<N>)
    requires Linked(g) && g.order != []
    ensures g.order[0] in g.cell && Walk(g, g.order[0]) == InOrder(TreeOf(g))
    ensures forall n :: n in Walk(g, g.order[0]) <==> n in g.cell
    ensures forall i, j :: 0 <= i < j < |Walk(g, g.order[0])| ==> Walk(g, g.order[0])[i] != Walk(g, g.order[0])[j]
  {
    WalkFrom(g, g.order[0]);
    TreeInOrder(g);
    assert g.order[0..] == g.order;
  }

  // ---------- the links around a node ----------

  lemma LinksAround<N>(g: Shape<N>, n: N)
    requires Linked(g) && n in g.cell
    ensures 0 <= g.cell[n].lo <= g.cell[n].pos < g.cell[n].hi <= |g.order| && g.order[g.cell[n].pos] == n
    ensures var c := g.cell[n];
            && (if c.left == g.leaf then c.lo == c.pos
                else c.left in g.cell && g.cell[c.left].lo == c.lo && g.cell[c.left].hi == c.pos)
            && (if c.right == g.leaf then c.pos + 1 == c.hi
                else c.right in g.cell && g.cell[c.right].lo == c.pos + 1 && g.cell[c.right].hi == c.hi)
            && (if c.parent == g.leaf then c.lo == 0 && c.hi == |g.order|
                else c.parent in g.cell && c.parent != n && g.cell[c.parent].lo <= c.lo && c.hi <= g.cell[c.parent].hi
                     && (n == g.cell[c.parent].left <==> g.cell[c.parent].pos == c.hi)
                     && (n == g.cell[c.parent].right <==> g.cell[c.parent].pos + 1 == c.lo)
                     && (n == g.cell[c.parent].left || n == g.cell[c.parent].right)
                     && (n == g.cell[c.parent].left ==> g.cell[c.parent].lo == c.lo)
                     && (n == g.cell[c.parent].right ==> g.cell[c.parent].hi == c.hi))
  {
    assert Hangs(g, n);
    if g.cell[n].parent in g.cell { assert Hangs(g, g.cell[n].parent); }
  }

  // ---------- the methods ----------

  method TreeFirstNode(start: Node, leaf: Node, ghost g: Shape<Node>) returns (node: Node)
    requires Recorded(g, leaf) && Linked(g) && start in g.cell
    ensures node in g.cell && 0 <= g.cell[start].lo < |g.order| && node == g.order[g.cell[start].lo]
  {
    hide *;
    node := start;
    Fields(g, leaf, node);
    LinksAround(g, node);
    while node.leftChild != leaf
      invariant node in g.cell && g.cell[node].lo == g.cell[start].lo && node.leftChild == g.cell[node].left
      decreases g.cell[node].hi - g.cell[node].lo
    {
      LinksAround(g, node);
      node := node.leftChild;
      Fields(g, leaf, node);
      LinksAround(g, node);
    }
    LinksAround(g, node);
  }

  method TreeLastNode(start: Node, leaf: Node, ghost g: Shape<Node>) returns (node: Node)
    requires Recorded(g, leaf) && Linked(g) && start in g.cell
    ensures node in g.cell && 0 < g.cell[start].hi <= |g.order| && node == g.order[g.cell[start].hi - 1]
  {
    hide *;
    node := start;
    Fields(g, leaf, node);
    LinksAround(g, node);
    while node.rightChild != leaf
      invariant node in g.cell && g.cell[node].hi == g.cell[start].hi && node.rightChild == g.cell[node].right
      decreases g.cell[node].hi - g.cell[node].lo
    {
      LinksAround(g, node);
      node := node.rightChild;
      Fields(g, leaf, node);
      LinksAround(g, node);
    }
    LinksAround(g, node);
  }

  method TreeNext(start: Node?, leaf: Node, ghost g: Shape<Node>) returns (node: Node?)
    requires start != null ==> Recorded(g, leaf) && Linked(g) && start in g.cell
    ensures start == null ==> node == null
    ensures start != null ==> node == NextNode(g, start)
  {
    if start == null { return null; }
    var cur: Node := start;
    hide Linked, Recorded;
    Fields(g, leaf, cur);
    LinksAround(g, cur);
    if cur.rightChild != leaf {
      node := DownRight(cur, leaf, g);
    } else {
      if cur.parent != leaf { Fields(g, leaf, cur.parent); }
      if cur.parent != leaf && cur == cur.parent.leftChild {
        LinksAround(g, cur.parent);
        node := cur.parent;
      } else {
        node := UpRight(cur, leaf, g);
      }
    }
  }

  /** The first node of the right subtree. */
  method DownRight(start: Node, leaf: Node, ghost g: Shape<Node>) returns (node: Node?)
    requires Recorded(g, leaf) && Linked(g) && start in g.cell && g.cell[start].right != leaf
    ensures node == NextNode(g, start)
  {
    hide Linked, Recorded;
    Fields(g, leaf, start);
    LinksAround(g, start);
    ghost var k := g.cell[start].pos;
    var cur: Node := start.rightChild;
    Fields(g, leaf, cur);
    LinksAround(g, cur);
    while cur.leftChild != leaf
      invariant cur in g.cell && g.cell[cur].lo == k + 1 && cur.leftChild == g.cell[cur].left
      decreases g.cell[cur].hi - g.cell[cur].lo
    {
      LinksAround(g, cur);
      cur := cur.leftChild;
      Fields(g, leaf, cur);
      LinksAround(g, cur);
    }
    LinksAround(g, cur);
    node := cur;
  }

  /** Up over right links, and one link more. */
  method UpRight(start: Node, leaf: Node, ghost g: Shape<Node>) returns (node: Node?)
    requires Recorded(g, leaf) && Linked(g) && start in g.cell && g.cell[start].right == leaf
    ensures node == NextNode(g, start)
  {
    hide Linked, Recorded;
    ghost var k := g.cell[start].pos;
    var cur: Node := start;
    Fields(g, leaf, cur);
    LinksAround(g, cur);
    if cur.parent != leaf { Fields(g, leaf, cur.parent); }
    while cur.parent != leaf && cur == cur.parent.rightChild
      invariant cur in g.cell && g.cell[cur].hi == k + 1 && cur.parent == g.cell[cur].parent
      invariant cur.parent != leaf ==> cur.parent in g.cell && cur.parent.rightChild == g.cell[cur.parent].right
      decreases |g.order| - (g.cell[cur].hi - g.cell[cur].lo)
    {
      LinksAround(g, cur);
      LinksAround(g, cur.parent);
      cur := cur.parent;
      Fields(g, leaf, cur);
      if cur.parent != leaf { Fields(g, leaf, cur.parent); }
    }
    LinksAround(g, cur);
    if cur.parent != leaf { LinksAround(g, cur.parent); }
    node := cur.parent;
  }

  method TreePrev(start: Node, leaf: Node, ghost g: Shape<Node>) returns (node: Node?)
    requires Recorded(g, leaf) && Linked(g) && start in g.cell
    ensures node == PrevNode(g, start)
  {
    hide Linked, Recorded;
    Fields(g, leaf, start);
    LinksAround(g, start);
    if start.leftChild != leaf {
      node := DownLeft(start, leaf, g);
    } else {
      if start.parent != leaf { Fields(g, leaf, start.parent); }
      if start.parent != leaf && start == start.parent.rightChild {
        LinksAround(g, start.parent);
        node := start.parent;
      } else {
        node := UpLeft(start, leaf, g);
      }
    }
  }

  /** The last node of the left subtree. */
  method DownLeft(start: Node, leaf: Node, ghost g: Shape<Node>) returns (node: Node?)
    requires Recorded(g, leaf) && Linked(g) && start in g.cell && g.cell[start].left != leaf
    ensures node == PrevNode(g, start)
  {
    hide Linked, Recorded;
    Fields(g, leaf, start);
    LinksAround(g, start);
    ghost var k := g.cell[start].pos;
    var cur: Node := start.leftChild;
    Fields(g, leaf, cur);
    LinksAround(g, cur);
    while cur.rightChild != leaf
      invariant cur in g.cell && g.cell[cur].hi == k && cur.rightChild == g.cell[cur].right
      decreases g.cell[cur].hi - g.cell[cur].lo
    {
      LinksAround(g, cur);
      cur := cur.rightChild;
      Fields(g, leaf, cur);
      LinksAround(g, cur);
    }
    LinksAround(g, cur);
    node := cur;
  }

  /** Up over left links, and one link more. */
  method UpLeft(start: Node, leaf: Node, ghost g: Shape<Node>) returns (node: Node?)
    requires Recorded(g, leaf) && Linked(g) && start in g.cell && g.cell[start].left == leaf
    ensures node == PrevNode(g, start)
  {
    hide Linked, Recorded;
    ghost var k := g.cell[start].pos;
    var cur: Node := start;
    Fields(g, leaf, leaf);
    Fields(g, leaf, cur);
    LinksAround(g, cur);
    if cur.parent != leaf { Fields(g, leaf, cur.parent); }
    while cur != leaf && cur == cur.parent.leftChild
      invariant cur in g.cell && g.cell[cur].lo == k && cur.parent == g.cell[cur].parent && cur.parent != null
      invariant if cur.parent == leaf then cur.parent.leftChild == null
                else cur.parent in g.cell && cur.parent.leftChild == g.cell[cur.parent].left
      decreases |g.order| - (g.cell[cur].hi - g.cell[cur].lo)
    {
      LinksAround(g, cur);
      LinksAround(g, cur.parent);
      cur := cur.parent;
      Fields(g, leaf, cur);
      LinksAround(g, cur);
      if cur.parent != leaf { Fields(g, leaf, cur.parent); }
    }
    LinksAround(g, cur);
    if cur.parent != leaf { LinksAround(g, cur.parent); }
    node := cur.parent;
  }
}
