/** A rotation in which a red child takes over its parent's colour keeps every black count. */
module RotationCounts {
  import opened Nodes
  import opened Shapes
  import opened BlackCounts
  import opened Trees
  import opened ShapeTrees

  ghost function SwapPaint<N>(g: Shape<N>, x: N, y: N): Shape<N> {
    Paint(g, map[y := ColorOf(g, x), x := RED])
  }

  /** The red child y goes up and takes x's colour; x goes down and turns red. */
  ghost function SwapRotate<N>(g: Shape<N>, x: N, y: N): Shape<N>
    requires x in g.cell && y in g.cell
  {
    Rotate(SwapPaint(g, x, y), x, y)
  }

  lemma SwapRotateLinked<N>(g: Shape<N>, x: N, y: N)
    requires Linked(g) && IsChild(g, x, y)
    ensures Linked(SwapRotate(g, x, y))
  {
    PaintLinked(g, map[y := ColorOf(g, x), x := RED]);
    RotateLinked(SwapPaint(g, x, y), x, y);
  }

  ghost function SwapRotateTally<N>(g: Shape<N>, bs: Tally<N>, x: N, y: N): Tally<N>
    requires x in g.cell && y in g.cell && x in bs && y in bs
  {
    var d, e := g.cell[x], g.cell[y];
    var low := if y == d.right then Plus(0, At(bs, d.left) + At(bs, e.left))
               else Plus(0, At(bs, e.right) + At(bs, d.right));
    bs[x := low][y := bs[x]]
  }

  /** The links and colours of the two pivots afterwards. */
  lemma SwapRotatePivots<N>(g: Shape<N>, x: N, y: N)
    requires Linked(g) && IsChild(g, x, y)
    ensures x != y && x in SwapRotate(g, x, y).cell && y in SwapRotate(g, x, y).cell
    ensures var h, d, e := SwapRotate(g, x, y), g.cell[x], g.cell[y];
            && h.cell[x].color == RED && h.cell[y].color == d.color
            && (if y == d.right then h.cell[x].left == d.left && h.cell[x].right == e.left && h.cell[y].left == x && h.cell[y].right == e.right
                else h.cell[x].left == e.right && h.cell[x].right == d.right && h.cell[y].left == e.left && h.cell[y].right == x)
            && e.left != x && e.left != y && e.right != x && e.right != y
            && d.left != x && d.right != x && (y == d.right ==> d.left != y)
  {
    assert Hangs(g, x) && Hangs(g, y);
  }

  lemma SwapRotateSumsLow<N>(g: Shape<N>, bs: Tally<N>, extra: set<N>, x: N, y: N)
    requires Linked(g) && Tallies(g, bs, extra) && IsChild(g, x, y) && x !in extra
    ensures Sums(SwapRotate(g, x, y), SwapRotateTally(g, bs, x, y), extra, x)
  {
    SwapRotatePivots(g, x, y);
    hide SwapRotate, Linked;
  }

  lemma SwapRotateSumsHigh<N>(g: Shape<N>, bs: Tally<N>, extra: set<N>, x: N, y: N)
    requires Linked(g) && Tallies(g, bs, extra) && IsChild(g, x, y)
    requires g.cell[y].color == RED && x !in extra && y !in extra
    ensures Sums(SwapRotate(g, x, y), SwapRotateTally(g, bs, x, y), extra, y)
  {
    assert Sums(g, bs, extra, x) && Sums(g, bs, extra, y);
    SwapRotatePivots(g, x, y);
    hide SwapRotate, Linked;
    var d, e := g.cell[x], g.cell[y];
    var k := Weight(x, d.color, extra);
    if y == d.right {
      Regroup(k, At(bs, d.left), At(bs, e.left), At(bs, e.right));
    } else {
      Regroup(k, At(bs, e.left), At(bs, e.right), At(bs, d.right));
    }
  }

  lemma SwapRotateOther<N>(g: Shape<N>, x: N, y: N, n: N)
    requires Linked(g) && IsChild(g, x, y) && n in g.cell && n != x && n != y
    ensures var c, d := g.cell[n], SwapRotate(g, x, y).cell[n];
            && d.color == c.color && c.left != y && c.right != y
            && d.left == (if c.left == x then y else c.left) && d.right == (if c.right == x then y else c.right)
  {
    assert Hangs(g, x) && Hangs(g, n);
  }

  lemma SwapRotateSumsOther<N>(g: Shape<N>, bs: Tally<N>, extra: set<N>, x: N, y: N, n: N)
    requires Linked(g) && Tallies(g, bs, extra) && IsChild(g, x, y) && n in g.cell && n != x && n != y
    ensures Sums(SwapRotate(g, x, y), SwapRotateTally(g, bs, x, y), extra, n)
  {
    assert Sums(g, bs, extra, n);
    SwapRotateOther(g, x, y, n);
    SumsCarry(g, bs, n, SwapRotate(g, x, y), SwapRotateTally(g, bs, x, y), extra);
  }

  lemma SwapRotateSums<N>(g: Shape<N>, bs: Tally<N>, extra: set<N>, x: N, y: N, n: N)
    requires Linked(g) && Tallies(g, bs, extra) && IsChild(g, x, y) && n in g.cell
    requires g.cell[y].color == RED && x !in extra && y !in extra
    ensures Sums(SwapRotate(g, x, y), SwapRotateTally(g, bs, x, y), extra, n)
  {
    if n == x {
      SwapRotateSumsLow(g, bs, extra, x, y);
    } else if n == y {
      SwapRotateSumsHigh(g, bs, extra, x, y);
    } else {
      SwapRotateSumsOther(g, bs, extra, x, y, n);
    }
  }

  lemma SwapRotateKeys<N>(g: Shape<N>, bs: Tally<N>, x: N, y: N)
    requires x in g.cell && y in g.cell && bs.Keys == g.cell.Keys
    ensures SwapRotate(g, x, y).cell.Keys == g.cell.Keys
    ensures SwapRotateTally(g, bs, x, y).Keys == g.cell.Keys
  {}

  /** Such a rotation changes no count. */
  lemma SwapRotateTallies<N>(g: Shape<N>, bs: Tally<N>, extra: set<N>, x: N, y: N)
    requires Linked(g) && Tallies(g, bs, extra) && IsChild(g, x, y)
    requires g.cell[y].color == RED && x !in extra && y !in extra
    ensures Tallies(SwapRotate(g, x, y), SwapRotateTally(g, bs, x, y), extra)
  {
    SwapRotateKeys(g, bs, x, y);
    forall n | n in g.cell ensures Sums(SwapRotate(g, x, y), SwapRotateTally(g, bs, x, y), extra, n) {
      SwapRotateSums(g, bs, extra, x, y, n);
    }
  }

  lemma SwapRotateRoot<N>(g: Shape<N>, bs: Tally<N>, x: N, y: N)
    requires Linked(g) && IsChild(g, x, y) && x in bs && y in bs
    ensures At(SwapRotateTally(g, bs, x, y), SwapRotate(g, x, y).root) == At(bs, g.root)
  {
    assert Hangs(g, x);
  }

  /** A rotation in which a red child takes over its parent's colour changes no count. */
  lemma SwapRotateDepths<N>(g: Shape<N>, extra: set<N>, x: N, y: N)
    requires Linked(g) && IsChild(g, x, y) && g.cell[y].color == RED && x !in extra && y !in extra
    ensures Linked(SwapRotate(g, x, y))
    ensures Counts(TreeOf(SwapRotate(g, x, y)), extra) == Counts(TreeOf(g), extra)
  {
    var bs := TallyOf(g, extra);
    TallyOfTallies(g, extra);
    SwapRotateLinked(g, x, y);
    SwapRotateTallies(g, bs, extra, x, y);
    SwapRotateRoot(g, bs, x, y);
    TallyCounts(SwapRotate(g, x, y), SwapRotateTally(g, bs, x, y), extra, SwapRotate(g, x, y).root);
  }
}
