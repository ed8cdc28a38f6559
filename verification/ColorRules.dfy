/** The colouring rules on shapes, and their meaning on the trees the shapes stand for. */
module ColorRules {
  import opened Nodes
  import opened Shapes
  import opened BlackCounts
  import opened Trees
  import opened ShapeTrees

  /** If n is red, its children are black, except that x may be any colour. */
  ghost predicate RedOk<N>(g: Shape<N>, n: N, x: N)
    requires n in g.cell
  {
    g.cell[n].color == RED ==>
      && (ColorOf(g, g.cell[n].left) == BLACK || g.cell[n].left == x)
      && (ColorOf(g, g.cell[n].right) == BLACK || g.cell[n].right == x)
  }

  /** No red node has a red child other than x. With x the sentinel: no red node has a red child. */
  ghost predicate RedRule<N>(g: Shape<N>, x: N) {
    forall n {:trigger RedOk(g, n, x)} :: n in g.cell ==> RedOk(g, n, x)
  }

  /** The weak invariant: well linked, root black, no red node with a red child. */
  ghost predicate Weak<N>(g: Shape<N>) {
    Linked(g) && ColorOf(g, g.root) == BLACK && RedRule(g, g.leaf)
  }

  ghost predicate Balanced<N>(g: Shape<N>)
    requires Linked(g)
  {
    AllEqual(BlackDepths(TreeOf(g)))
  }

  lemma {:induction false} SubtreeNoRedRed<N>(g: Shape<N>, c: N)
    requires Linked(g) && RedRule(g, g.leaf) && (c == g.leaf || c in g.cell)
    ensures NoRedRed(Subtree(g, c))
    decreases if c == g.leaf then 0 else g.cell[c].hi - g.cell[c].lo
  {
    if c != g.leaf {
      assert Hangs(g, c) && RedOk(g, c, g.leaf);
      SubtreeNoRedRed(g, g.cell[c].left);
      SubtreeNoRedRed(g, g.cell[c].right);
    }
  }

  lemma {:induction false} SubtreeRedOk<N>(g: Shape<N>, c: N, n: N)
    requires Linked(g) && Covers(g, c, n) && NoRedRed(Subtree(g, c))
    ensures RedOk(g, n, g.leaf)
    decreases g.cell[c].hi - g.cell[c].lo
  {
    assert Hangs(g, c);
    assert RootBlack(Subtree(g, g.cell[c].left)) ==> ColorOf(g, g.cell[c].left) == BLACK;
    assert RootBlack(Subtree(g, g.cell[c].right)) ==> ColorOf(g, g.cell[c].right) == BLACK;
    if c != n {
      CoversChild(g, c, n);
      assert g.cell[n].pos != g.cell[c].pos;
      SubtreeRedOk(g, if g.cell[n].pos < g.cell[c].pos then g.cell[c].left else g.cell[c].right, n);
    }
  }

  /** The shape's rules are exactly the red-black rules of the tree read off its links. */
  lemma WeakMeaning<N>(g: Shape<N>)
    requires Linked(g)
    ensures Weak(g) <==> RootBlack(TreeOf(g)) && NoRedRed(TreeOf(g))
    ensures Weak(g) && Balanced(g) <==> RedBlack(TreeOf(g))
  {
    if Weak(g) { SubtreeNoRedRed(g, g.root); }
    if NoRedRed(TreeOf(g)) {
      forall n | n in g.cell ensures RedOk(g, n, g.leaf) {
        SubtreeRedOk(g, g.root, n);
      }
    }
  }

  lemma EmptyLinked<N>(leaf: N)
    ensures Weak(Empty(leaf)) && Balanced(Empty(leaf))
  {
  }
}
