/** Single field writes on shapes, and the runs of writes that make up a tree operation. */
module FieldWrites {
  import opened Nodes
  import opened Shapes

  ghost function WithLeft<N>(g: Shape<N>, n: N, c: N): Shape<N>
    requires n in g.cell
  {
    g.(cell := g.cell[n := g.cell[n].(left := c)])
  }

  ghost function WithRight<N>(g: Shape<N>, n: N, c: N): Shape<N>
    requires n in g.cell
  {
    g.(cell := g.cell[n := g.cell[n].(right := c)])
  }

  ghost function WithParent<N>(g: Shape<N>, n: N, p: N): Shape<N>
    requires n in g.cell
  {
    g.(cell := g.cell[n := g.cell[n].(parent := p)])
  }

  /** The sentinel's colour is not recorded: it is always black. */
  ghost function WithColor<N>(g: Shape<N>, n: N, c: Color): Shape<N> {
    if n in g.cell then g.(cell := g.cell[n := g.cell[n].(color := c)]) else g
  }

  /** Both shapes have the same links and colours at n. */
  ghost predicate SameFields<N>(g: Shape<N>, h: Shape<N>, n: N)
    requires n in g.cell && n in h.cell
  {
    var c, d := g.cell[n], h.cell[n];
    c.left == d.left && c.right == d.right && c.parent == d.parent && c.color == d.color
  }

  ghost predicate SameLinks<N>(g: Shape<N>, h: Shape<N>) {
    && g.leaf == h.leaf && g.root == h.root && g.cell.Keys == h.cell.Keys
    && forall n {:trigger SameFields(g, h, n)} :: n in g.cell ==> SameFields(g, h, n)
  }

  /** The child link of p that held old now holds c; without a parent the root does. */
  ghost function Rehang<N>(g: Shape<N>, p: N, old_: N, c: N): Shape<N> {
    if p !in g.cell then g.(root := c)
    else if old_ == g.cell[p].left then WithLeft(g, p, c)
    else WithRight(g, p, c)
  }

  ghost function Adopted<N>(g: Shape<N>, c: N, p: N): Shape<N> {
    if c in g.cell then WithParent(g, c, p) else g
  }

  ghost function Middle<N>(g: Shape<N>, x: N, y: N): N
    requires x in g.cell && y in g.cell
  {
    if y == g.cell[x].right then g.cell[y].left else g.cell[y].right
  }

  /** The nodes whose fields a rotation writes are distinct, and only x's parent links to x. */
  ghost predicate Apart<N>(g: Shape<N>, x: N, y: N) {
    && IsChild(g, x, y) && g.leaf !in g.cell && x != y
    && var p, mid := g.cell[x].parent, Middle(g, x, y);
    && x != p && y != p && (mid != p || mid == g.leaf) && mid != x && mid != y
    && (g.root == x <==> p !in g.cell)
    && (p in g.cell ==> (g.cell[p].left == x) != (g.cell[p].right == x))
  }

  lemma LinkedApart<N>(g: Shape<N>, x: N, y: N)
    requires Linked(g) && IsChild(g, x, y)
    ensures Apart(g, x, y)
  {
    assert Hangs(g, x) && Hangs(g, y);
    if g.cell[x].parent in g.cell { assert Hangs(g, g.cell[x].parent); }
  }

  lemma OnlyParentLinks<N>(g: Shape<N>, x: N, n: N)
    requires Linked(g) && x in g.cell && n in g.cell && n != g.cell[x].parent
    ensures g.cell[n].left != x && g.cell[n].right != x
  {
    assert Hangs(g, n);
  }

  ghost function RotateWrites<N>(g: Shape<N>, x: N, y: N): Shape<N>
    requires Apart(g, x, y)
  {
    var d, mid := g.cell[x], Middle(g, x, y);
    var g1 := if y == d.right then WithRight(g, x, mid) else WithLeft(g, x, mid);
    var g2 := Adopted(g1, mid, x);
    var g3 := WithParent(g2, y, d.parent);
    var g4 := Rehang(g3, d.parent, x, y);
    var g5 := if y == d.right then WithLeft(g4, y, x) else WithRight(g4, y, x);
    WithParent(g5, x, y)
  }

  lemma RotateWritesAt<N>(g: Shape<N>, x: N, y: N, n: N)
    requires Apart(g, x, y) && n in g.cell && (n != g.cell[x].parent ==> g.cell[n].left != x && g.cell[n].right != x)
    ensures n in RotateWrites(g, x, y).cell && SameFields(RotateWrites(g, x, y), Rotate(g, x, y), n)
  {
    assert n in Rotate(g, x, y).cell && Rotate(g, x, y).cell[n] == RotatedCell(g, x, y, n);
    hide Rotate;
  }

  lemma RotateWritesFrame<N>(g: Shape<N>, x: N, y: N)
    requires Apart(g, x, y)
    ensures var r, h := RotateWrites(g, x, y), Rotate(g, x, y);
            r.leaf == h.leaf && r.root == h.root && r.cell.Keys == h.cell.Keys == g.cell.Keys
  {
  }

  /** The writes of a rotation amount to Rotate. */
  lemma RotateWritesSame<N>(g: Shape<N>, x: N, y: N)
    requires Linked(g) && IsChild(g, x, y)
    ensures Apart(g, x, y) && SameLinks(RotateWrites(g, x, y), Rotate(g, x, y))
  {
    LinkedApart(g, x, y);
    RotateWritesFrame(g, x, y);
    forall n | n in g.cell
      ensures n in RotateWrites(g, x, y).cell && SameFields(RotateWrites(g, x, y), Rotate(g, x, y), n)
    {
      if n != g.cell[x].parent { OnlyParentLinks(g, x, n); }
      RotateWritesAt(g, x, y, n);
    }
  }

  /** Colour writes to different nodes amount to one Paint. */
  lemma PaintTwo<N>(g: Shape<N>, a: N, c: Color, b: N, d: Color)
    requires a in g.cell && b in g.cell && a != b
    ensures WithColor(WithColor(g, a, c), b, d) == Paint(g, map[a := c, b := d])
  {
    assert WithColor(WithColor(g, a, c), b, d).cell == Paint(g, map[a := c, b := d]).cell;
  }

  lemma PaintOne<N>(g: Shape<N>, a: N)
    requires g.leaf !in g.cell && (a in g.cell || a == g.leaf)
    ensures WithColor(g, a, BLACK) == Blacken(g, a)
    ensures Blacken(g, a).order == g.order && Blacken(g, a).cell.Keys == g.cell.Keys && Blacken(g, a).leaf == g.leaf
  {
    assert WithColor(g, a, BLACK).cell == Blacken(g, a).cell;
  }

  lemma PaintThree<N>(g: Shape<N>, a: N, c: Color, b: N, d: Color, e: N, f: Color)
    requires a in g.cell && b in g.cell && e in g.cell && a != b && a != e && b != e
    ensures WithColor(WithColor(WithColor(g, a, c), b, d), e, f) == Paint(g, map[a := c, b := d, e := f])
  {
    assert WithColor(WithColor(WithColor(g, a, c), b, d), e, f).cell == Paint(g, map[a := c, b := d, e := f]).cell;
  }

  lemma PaintRed<N>(g: Shape<N>, a: N)
    requires a in g.cell
    ensures WithColor(g, a, RED) == Paint(g, map[a := RED])
  {
    assert WithColor(g, a, RED).cell == Paint(g, map[a := RED]).cell;
  }

  /** a takes p's colour, then p and b are painted black. */
  ghost function HandDown<N>(g: Shape<N>, a: N, p: N, b: N): Shape<N> {
    WithColor(WithColor(WithColor(g, a, ColorOf(g, p)), p, BLACK), b, BLACK)
  }

  lemma HandDownFar<N>(g: Shape<N>, a: N, p: N, b: N)
    requires a in g.cell && p in g.cell && b in g.cell && a != p && a != b && p != b
    ensures HandDown(g, a, p, b) == Paint(g, map[a := ColorOf(g, p), p := BLACK, b := BLACK])
  {
    assert HandDown(g, a, p, b).cell == Paint(g, map[a := ColorOf(g, p), p := BLACK, b := BLACK]).cell;
  }

  lemma HandDownInner<N>(g: Shape<N>, a: N, p: N, b: N, i: N)
    requires a in g.cell && p in g.cell && a != p && a != b && i in g.cell && i != a && i != p
    requires ColorOf(g, b) == BLACK && g.cell[i].color == BLACK
    ensures HandDown(g, a, p, b) == Paint(g, map[i := BLACK, p := BLACK, a := ColorOf(g, p)])
  {
    assert HandDown(g, a, p, b).cell == Paint(g, map[i := BLACK, p := BLACK, a := ColorOf(g, p)]).cell;
  }
}
