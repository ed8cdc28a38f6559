/** The steps of the insertion fix-up, on shapes. */
module InsertSteps {
  import opened Nodes
  import opened Shapes
  import opened BlackCounts
  import opened Trees
  import opened ShapeTrees
  import opened RotationCounts
  import opened InsertCounts
  import opened ColorRules

  /** At the fix-up's loop head: x is red, and only x may break a rule, by a red parent or by being the root. */
  ghost predicate Colliding<N>(g: Shape<N>, x: N) {
    && Linked(g) && x in g.cell && g.cell[x].color == RED && RedRule(g, x)
    && (ColorOf(g, g.root) == RED ==> g.root == x)
  }

  /** What the fix-up still has to climb: it shrinks with every turn of the loop. */
  ghost function Climb<N>(g: Shape<N>, x: N): int
    requires x in g.cell
  {
    if ColorOf(g, g.cell[x].parent) == RED then |g.order| + 1 - (g.cell[x].hi - g.cell[x].lo) else 0
  }

  /** x collides with its parent p, whose parent is gp. */
  ghost predicate Collision<N>(g: Shape<N>, x: N, p: N, gp: N) {
    && Colliding(g, x) && p == g.cell[x].parent && IsChild(g, p, x) && g.cell[p].color == RED
    && gp == g.cell[p].parent && IsChild(g, gp, p)
  }

  ghost function Sibling<N>(g: Shape<N>, p: N, x: N): N
    requires p in g.cell
  {
    if g.cell[p].left == x then g.cell[p].right else g.cell[p].left
  }

  lemma CollisionFacts<N>(g: Shape<N>, x: N, p: N, gp: N)
    requires Collision(g, x, p, gp)
    ensures g.cell[gp].color == BLACK && x != p && p != gp && x != gp
    ensures ColorOf(g, Sibling(g, p, x)) == BLACK
    ensures ColorOf(g, g.cell[x].left) == BLACK && ColorOf(g, g.cell[x].right) == BLACK
  {
    assert Hangs(g, x) && Hangs(g, p) && Hangs(g, gp);
    assert RedOk(g, x, x) && RedOk(g, p, x) && RedOk(g, gp, x);
  }

  // ---------- a red uncle: recolour ----------

  ghost function Recolor<N>(g: Shape<N>, p: N, u: N, gp: N): Shape<N> {
    Paint(g, map[p := BLACK, u := BLACK, gp := RED])
  }

  lemma RecolorRedOk<N>(g: Shape<N>, x: N, p: N, u: N, gp: N, n: N)
    requires Collision(g, x, p, gp) && u == Sibling(g, gp, p) && ColorOf(g, u) == RED && n in g.cell
    ensures RedOk(Recolor(g, p, u, gp), n, gp)
  {
    CollisionFacts(g, x, p, gp);
    NodeFacts(g, gp);
    NodeFacts(g, n);
    NodeFacts(g, p);
    hide Linked;
    assert RedOk(g, n, x);
  }

  ghost function RecolorTally<N>(bs: Tally<N>, p: N, u: N): Tally<N>
    requires p in bs && u in bs
  {
    bs[p := Plus(1, bs[p])][u := Plus(1, bs[u])]
  }

  lemma RecolorSumsLow<N>(g: Shape<N>, bs: Tally<N>, x: N, p: N, u: N, gp: N, n: N)
    requires Collision(g, x, p, gp) && u == Sibling(g, gp, p) && ColorOf(g, u) == RED && (n == p || n == u)
    requires Tallies(g, bs, {})
    ensures Sums(Recolor(g, p, u, gp), RecolorTally(bs, p, u), {}, n)
  {
    NodeFacts(g, gp);
    NodeFacts(g, n);
    NodeFacts(g, p);
    SumsAt(g, bs, {}, n);
    assert Recolor(g, p, u, gp).cell[n] == g.cell[n].(color := BLACK);
    hide Linked, Tallies, Colliding, Recolor;
    var c := g.cell[n];
    assert c.left != p && c.left != u && c.right != p && c.right != u && n != gp;
    PlusPlus(1, 0, At(bs, c.left) + At(bs, c.right));
  }

  lemma RecolorSumsHigh<N>(g: Shape<N>, bs: Tally<N>, x: N, p: N, u: N, gp: N)
    requires Collision(g, x, p, gp) && u == Sibling(g, gp, p) && ColorOf(g, u) == RED
    requires Tallies(g, bs, {})
    ensures Sums(Recolor(g, p, u, gp), RecolorTally(bs, p, u), {}, gp)
  {
    CollisionFacts(g, x, p, gp);
    assert Hangs(g, gp) && Hangs(g, p) && Hangs(g, u) && Sums(g, bs, {}, gp);
    var l, r := At(bs, g.cell[gp].left), At(bs, g.cell[gp].right);
    PlusConcat(1, l, r);
    PlusZero(Plus(1, l + r));
  }

  lemma RecolorSums<N>(g: Shape<N>, bs: Tally<N>, x: N, p: N, u: N, gp: N, n: N)
    requires Collision(g, x, p, gp) && u == Sibling(g, gp, p) && ColorOf(g, u) == RED && n in g.cell
    requires Tallies(g, bs, {})
    ensures Sums(Recolor(g, p, u, gp), RecolorTally(bs, p, u), {}, n)
  {
    if n == p || n == u {
      RecolorSumsLow(g, bs, x, p, u, gp, n);
    } else if n == gp {
      RecolorSumsHigh(g, bs, x, p, u, gp);
    } else {
      assert Hangs(g, gp) && Hangs(g, n) && Sums(g, bs, {}, n);
      SumsCarry(g, bs, n, Recolor(g, p, u, gp), RecolorTally(bs, p, u), {});
    }
  }

  lemma RecolorColliding<N>(g: Shape<N>, x: N, p: N, u: N, gp: N)
    requires Collision(g, x, p, gp) && u == Sibling(g, gp, p) && ColorOf(g, u) == RED
    ensures Colliding(Recolor(g, p, u, gp), gp)
  {
    PaintLinked(g, map[p := BLACK, u := BLACK, gp := RED]);
    forall n | n in g.cell ensures RedOk(Recolor(g, p, u, gp), n, gp) {
      RecolorRedOk(g, x, p, u, gp, n);
    }
    CollisionFacts(g, x, p, gp);
    assert Hangs(g, x);
  }

  lemma RecolorDepths<N>(g: Shape<N>, x: N, p: N, u: N, gp: N)
    requires Collision(g, x, p, gp) && u == Sibling(g, gp, p) && ColorOf(g, u) == RED
    requires Linked(Recolor(g, p, u, gp))
    ensures BlackDepths(TreeOf(Recolor(g, p, u, gp))) == BlackDepths(TreeOf(g))
  {
    var bs := TallyOf(g, {});
    TallyOfTallies(g, {});
    hide *;
    RecolorTop(g, bs, x, p, u, gp);
    RecolorTallies(g, bs, x, p, u, gp);
    TallyCounts(Recolor(g, p, u, gp), RecolorTally(bs, p, u), {}, g.root);
  }

  lemma RecolorTallies<N>(g: Shape<N>, bs: Tally<N>, x: N, p: N, u: N, gp: N)
    requires Collision(g, x, p, gp) && u == Sibling(g, gp, p) && ColorOf(g, u) == RED && p in bs && u in bs && Tallies(g, bs, {})
    ensures Tallies(Recolor(g, p, u, gp), RecolorTally(bs, p, u), {})
  {
    assert Recolor(g, p, u, gp).cell.Keys == g.cell.Keys == RecolorTally(bs, p, u).Keys;
    forall n | n in g.cell ensures Sums(Recolor(g, p, u, gp), RecolorTally(bs, p, u), {}, n) {
      RecolorSums(g, bs, x, p, u, gp, n);
    }
    hide Collision, Recolor, RecolorTally, Sums;
  }

  lemma RecolorTop<N>(g: Shape<N>, bs: Tally<N>, x: N, p: N, u: N, gp: N)
    requires Collision(g, x, p, gp) && u == Sibling(g, gp, p) && ColorOf(g, u) == RED && bs == TallyOf(g, {})
    requires Linked(Recolor(g, p, u, gp))
    ensures var h := Recolor(g, p, u, gp);
            && p in bs && u in bs && g.root in g.cell && At(RecolorTally(bs, p, u), g.root) == BlackDepths(TreeOf(g))
            && TreeOf(h) == Subtree(h, g.root) && h.cell.Keys == g.cell.Keys && BlackDepths(TreeOf(h)) == Counts(TreeOf(h), {})
  {
    NodeFacts(g, gp);
  }

  // ---------- a black uncle: rotate ----------

  ghost predicate Inner<N>(g: Shape<N>, x: N, p: N, gp: N)
    requires p in g.cell && gp in g.cell
  {
    (x == g.cell[p].left) != (p == g.cell[gp].left)
  }

  lemma InnerRedOkLow<N>(g: Shape<N>, x: N, p: N, gp: N)
    requires Collision(g, x, p, gp)
    ensures RedOk(SwapRotate(g, p, x), x, p) && RedOk(SwapRotate(g, p, x), p, p)
  {
    CollisionFacts(g, x, p, gp);
    NodeFacts(g, p);
    NodeFacts(g, x);
    hide Linked;
  }

  lemma InnerRedOk<N>(g: Shape<N>, x: N, p: N, gp: N, n: N)
    requires Collision(g, x, p, gp) && n in g.cell && n != p && n != x
    ensures RedOk(SwapRotate(g, p, x), n, p)
  {
    CollisionFacts(g, x, p, gp);
    SwapRotateOther(g, p, x, n);
    assert RedOk(g, n, x);
  }

  lemma OuterRedOkLow<N>(g: Shape<N>, x: N, p: N, gp: N)
    requires Collision(g, x, p, gp) && !Inner(g, x, p, gp) && ColorOf(g, Sibling(g, gp, p)) == BLACK
    ensures RedOk(SwapRotate(g, gp, p), gp, x) && RedOk(SwapRotate(g, gp, p), p, x)
  {
    CollisionFacts(g, x, p, gp);
    NodeFacts(g, gp);
    NodeFacts(g, p);
    NodeFacts(g, x);
    hide Linked;
  }

  lemma OuterRedOk<N>(g: Shape<N>, x: N, p: N, gp: N, n: N)
    requires Collision(g, x, p, gp) && n in g.cell && n != p && n != gp
    ensures RedOk(SwapRotate(g, gp, p), n, x)
  {
    CollisionFacts(g, x, p, gp);
    SwapRotateOther(g, gp, p, n);
    assert RedOk(g, n, x);
  }

  /** The inner rotation keeps the loop invariant with p as the new current node. */
  lemma InnerColliding<N>(g: Shape<N>, x: N, p: N, gp: N)
    requires Collision(g, x, p, gp)
    ensures Colliding(SwapRotate(g, p, x), p)
  {
    var h := SwapRotate(g, p, x);
    SwapRotateLinked(g, p, x);
    InnerRedOkLow(g, x, p, gp);
    forall n | n in g.cell ensures RedOk(SwapRotate(g, p, x), n, p) {
      if n != p && n != x { InnerRedOk(g, x, p, gp, n); }
    }
    CollisionFacts(g, x, p, gp);
    assert Hangs(g, p);
  }

  /** After it the collision is an outer one, below the same grandparent, with the same uncle. */
  lemma SwapRotateKeys<N>(g: Shape<N>, x: N, y: N)
    requires x in g.cell && y in g.cell
    ensures SwapRotate(g, x, y).cell.Keys == g.cell.Keys && SwapRotate(g, x, y).leaf == g.leaf
  {}

  /** Who hangs on whom after the rotation. */
  lemma SwapRotateParents<N>(g: Shape<N>, x: N, y: N, gp: N)
    requires x in g.cell && y in g.cell && x != y && (y == g.cell[x].left || y == g.cell[x].right)
    requires g.cell[x].parent == gp && gp in g.cell && gp != x && gp != y && g.cell[y].left != gp && g.cell[y].right != gp
    ensures var h := SwapRotate(g, x, y);
            && y in h.cell && x in h.cell && gp in h.cell
            && h.cell[y].parent == gp && h.cell[x].parent == y && h.cell[gp].parent == g.cell[gp].parent
  {}

  lemma InnerSibling<N>(g: Shape<N>, x: N, p: N, gp: N)
    requires Collision(g, x, p, gp)
    ensures var h := SwapRotate(g, p, x);
            && gp in h.cell && (x == h.cell[gp].left <==> p == g.cell[gp].left) && (x == h.cell[gp].right <==> p == g.cell[gp].right)
            && Sibling(h, gp, x) == Sibling(g, gp, p) && ColorOf(h, Sibling(h, gp, x)) == ColorOf(g, Sibling(g, gp, p))
  {
    CollisionFacts(g, x, p, gp);
    NodeFacts(g, gp);
    NodeFacts(g, p);
    NodeFacts(g, x);
    SwapRotateKeys(g, p, x);
    SwapRotateOther(g, p, x, gp);
    var u := Sibling(g, gp, p);
    if u in g.cell { SwapRotateOther(g, p, x, u); }
    hide Linked, SwapRotate, Colliding;
  }

  lemma InnerBecomesOuter<N>(g: Shape<N>, x: N, p: N, gp: N)
    requires Collision(g, x, p, gp) && Inner(g, x, p, gp) && Colliding(SwapRotate(g, p, x), p)
    ensures var h := SwapRotate(g, p, x); Collision(h, p, x, gp) && !Inner(h, p, x, gp)
    ensures var h := SwapRotate(g, p, x);
            Sibling(h, gp, x) == Sibling(g, gp, p) && ColorOf(h, Sibling(h, gp, x)) == ColorOf(g, Sibling(g, gp, p))
  {
    CollisionFacts(g, x, p, gp);
    NodeFacts(g, p);
    NodeFacts(g, gp);
    NodeFacts(g, x);
    SwapRotatePivots(g, p, x);
    SwapRotateKeys(g, p, x);
    SwapRotateParents(g, p, x, gp);
    InnerSibling(g, x, p, gp);
    hide Linked, SwapRotate, Colliding, Sibling;
  }

  /** Both nodes are red, so the inner rotation need not repaint them. */
  lemma InnerNeedsNoPaint<N>(g: Shape<N>, x: N, p: N, gp: N)
    requires Collision(g, x, p, gp)
    ensures SwapRotate(g, p, x) == Rotate(g, p, x)
  {
    assert SwapPaint(g, p, x).cell == g.cell;
  }

  /** The outer rotation leaves no red-red edge: the parent of x is black. */
  lemma OuterColliding<N>(g: Shape<N>, x: N, p: N, gp: N)
    requires Collision(g, x, p, gp) && !Inner(g, x, p, gp) && ColorOf(g, Sibling(g, gp, p)) == BLACK
    ensures Colliding(SwapRotate(g, gp, p), x)
    ensures SwapRotate(g, gp, p).cell[x].parent == p && SwapRotate(g, gp, p).cell[p].color == BLACK
  {
    SwapRotateLinked(g, gp, p);
    OuterRedOkLow(g, x, p, gp);
    forall n | n in g.cell ensures RedOk(SwapRotate(g, gp, p), n, x) {
      if n != p && n != gp { OuterRedOk(g, x, p, gp, n); }
    }
    CollisionFacts(g, x, p, gp);
    assert Hangs(g, gp) && Hangs(g, p) && Hangs(g, x);
  }

  // ---------- the start and the end of the fix-up ----------

  lemma AttachRedOk<N>(g: Shape<N>, q: N, onLeft: bool, z: N, n: N)
    requires Weak(g) && Free(g, q, onLeft) && z !in g.cell && z != g.leaf && (n == z || n in g.cell)
    ensures RedOk(Attach(g, q, onLeft, z), n, z)
  {
    if n != z { assert RedOk(g, n, g.leaf) && Hangs(g, n); }
  }

  lemma AttachColliding<N>(g: Shape<N>, q: N, onLeft: bool, z: N)
    requires Weak(g) && Free(g, q, onLeft) && z !in g.cell && z != g.leaf
    ensures Colliding(Attach(g, q, onLeft, z), z)
  {
    AttachLinked(g, q, onLeft, z);
    forall n | n == z || n in g.cell ensures RedOk(Attach(g, q, onLeft, z), n, z) {
      AttachRedOk(g, q, onLeft, z, n);
    }
  }

  lemma SingleColliding<N>(leaf: N, z: N)
    requires z != leaf
    ensures Linked(Empty(leaf)) && Colliding(Single(leaf, z), z)
    ensures BlackDepths(TreeOf(Single(leaf, z))) == Twice(BlackDepths(TreeOf(Empty(leaf))), 0)
  {
    var h := Single(leaf, z);
    SingleLinked(leaf, z);
    assert RedOk(h, z, z);
    assert Subtree(h, h.root) == Branch(Leaf, z, RED, Leaf);
    assert Plus(0, [0] + [0]) == [0, 0];
  }

  lemma BlackenRootSums<N>(g: Shape<N>, bs: Tally<N>, n: N)
    requires Linked(g) && Tallies(g, bs, {}) && g.cell != map[] && n in g.cell && ColorOf(g, g.root) == RED
    ensures g.root in bs && Sums(Blacken(g, g.root), bs[g.root := Plus(1, bs[g.root])], {}, n)
  {
    assert g.root in g.cell;
    NodeFacts(g, n);
    NodeFacts(g, g.root);
    SumsAt(g, bs, {}, n);
    hide Linked, Tallies;
    if n == g.root {
      PlusPlus(1, 0, At(bs, g.cell[n].left) + At(bs, g.cell[n].right));
    }
  }

  lemma BlackenRootTallies<N>(g: Shape<N>, bs: Tally<N>)
    requires Linked(g) && Tallies(g, bs, {}) && ColorOf(g, g.root) == RED
    ensures g.root in bs && g.root in g.cell && Tallies(Blacken(g, g.root), bs[g.root := Plus(1, bs[g.root])], {})
    ensures Blacken(g, g.root).cell.Keys == g.cell.Keys && Blacken(g, g.root).root == g.root
  {
    hide *;
    RootTallied(g, bs);
    forall n | n in g.cell ensures Sums(Blacken(g, g.root), bs[g.root := Plus(1, bs[g.root])], {}, n) {
      BlackenRootSums(g, bs, n);
    }
    TalliesIntro(Blacken(g, g.root), bs[g.root := Plus(1, bs[g.root])], {});
  }

  lemma RootTallied<N>(g: Shape<N>, bs: Tally<N>)
    requires Linked(g) && Tallies(g, bs, {}) && ColorOf(g, g.root) == RED
    ensures g.root in bs && g.root in g.cell && g.cell != map[] && bs.Keys == g.cell.Keys
    ensures Blacken(g, g.root).cell.Keys == g.cell.Keys && Blacken(g, g.root).root == g.root
  {}

  /** Blackening the root raises every count by one if it was red, and otherwise changes nothing. */
  lemma BlackenRootDepths<N>(g: Shape<N>)
    requires Linked(g)
    ensures Linked(Blacken(g, g.root))
    ensures BlackDepths(TreeOf(Blacken(g, g.root)))
            == Plus(if ColorOf(g, g.root) == RED then 1 else 0, BlackDepths(TreeOf(g)))
  {
    PaintLinked(g, map[g.root := BLACK]);
    if ColorOf(g, g.root) == RED {
      var bs := TallyOf(g, {});
      TallyOfTallies(g, {});
      BlackenRootTallies(g, bs);
      hide Linked, Tallies, Sums, Blacken;
      TallyCounts(Blacken(g, g.root), bs[g.root := Plus(1, bs[g.root])], {}, g.root);
    } else {
      assert Blacken(g, g.root).cell == g.cell;
      PlusZero(BlackDepths(TreeOf(g)));
    }
  }

  /** The recolouring step as a whole. */
  lemma RecolorStep<N>(g: Shape<N>, x: N, p: N, u: N, gp: N)
    requires Collision(g, x, p, gp) && u == Sibling(g, gp, p) && ColorOf(g, u) == RED
    ensures Colliding(Recolor(g, p, u, gp), gp)
    ensures BlackDepths(TreeOf(Recolor(g, p, u, gp))) == BlackDepths(TreeOf(g))
    ensures Climb(Recolor(g, p, u, gp), gp) < Climb(g, x)
  {
    RecolorColliding(g, x, p, u, gp);
    RecolorDepths(g, x, p, u, gp);
    NodeFacts(g, gp);
    NodeFacts(g, p);
    hide Linked;
  }

  lemma InnerTop<N>(g: Shape<N>, x: N, p: N, gp: N)
    requires Collision(g, x, p, gp) && Inner(g, x, p, gp)
    ensures var h := Rotate(g, p, x); gp in h.cell && p in h.cell
    ensures var h := Rotate(g, p, x);
            (p == g.cell[gp].right ==> x == h.cell[gp].right) && (p == g.cell[gp].left ==> x == h.cell[gp].left)
  {
    CollisionFacts(g, x, p, gp);
    assert Hangs(g, gp) && Hangs(g, p) && Hangs(g, x);
  }

  /** The inner rotation as a whole: x, now p's parent, and p collide from outside. */
  lemma InnerStep<N>(g: Shape<N>, x: N, p: N, gp: N)
    requires Collision(g, x, p, gp) && Inner(g, x, p, gp)
    ensures var h := Rotate(g, p, x);
            && Collision(h, p, x, gp) && !Inner(h, p, x, gp)
            && ColorOf(h, Sibling(h, gp, x)) == ColorOf(g, Sibling(g, gp, p))
            && BlackDepths(TreeOf(h)) == BlackDepths(TreeOf(g))
            && (p == g.cell[gp].right ==> x == h.cell[gp].right) && (p == g.cell[gp].left ==> x == h.cell[gp].left)
  {
    CollisionLinks(g, x, p, gp);
    InnerColliding(g, x, p, gp);
    InnerTop(g, x, p, gp);
    InnerBecomesOuter(g, x, p, gp);
    InnerNeedsNoPaint(g, x, p, gp);
    SwapRotateDepths(g, {}, p, x);
  }

  /** The outer rotation as a whole: the collision is gone. */
  lemma OuterStep<N>(g: Shape<N>, x: N, p: N, gp: N)
    requires Collision(g, x, p, gp) && !Inner(g, x, p, gp) && ColorOf(g, Sibling(g, gp, p)) == BLACK
    ensures var m := Paint(g, map[p := BLACK, gp := RED]);
            && Linked(m) && m.cell.Keys == g.cell.Keys && m.cell[gp].left == g.cell[gp].left && m.cell[gp].right == g.cell[gp].right
            && SwapRotate(g, gp, p) == Rotate(m, gp, p)
    ensures var h := SwapRotate(g, gp, p);
            && Colliding(h, x) && Climb(h, x) == 0
            && BlackDepths(TreeOf(h)) == BlackDepths(TreeOf(g))
  {
    CollisionFacts(g, x, p, gp);
    PaintLinked(g, map[p := BLACK, gp := RED]);
    OuterColliding(g, x, p, gp);
    SwapRotateDepths(g, {}, gp, p);
  }

  /** A collision read off the links, when p is a right or a left child. */
  lemma CollisionLinks<N>(g: Shape<N>, x: N, p: N, gp: N)
    requires Collision(g, x, p, gp)
    ensures x in g.cell && p in g.cell && gp in g.cell && x != p && p != gp && x != gp
    ensures Linked(g) && Colliding(g, x) && Climb(g, x) > 0 && IsChild(g, p, x) && IsChild(g, gp, p)
    ensures g.cell[gp].left == g.leaf || g.cell[gp].left in g.cell
    ensures g.cell[gp].right == g.leaf || g.cell[gp].right in g.cell
    ensures p == g.cell[gp].right ==> Sibling(g, gp, p) == g.cell[gp].left && (Inner(g, x, p, gp) <==> x == g.cell[p].left)
    ensures p == g.cell[gp].left ==> Sibling(g, gp, p) == g.cell[gp].right && (Inner(g, x, p, gp) <==> x == g.cell[p].right)
    ensures ColorOf(g, Sibling(g, gp, p)) == RED ==> Sibling(g, gp, p) in g.cell && Sibling(g, gp, p) != p && Sibling(g, gp, p) != gp
    ensures p == g.cell[gp].left || p == g.cell[gp].right
  {
    CollisionFacts(g, x, p, gp);
    assert Hangs(g, gp) && Hangs(g, p);
  }

  /** At the loop head: the links followed by the guard exist, and the guard means a collision. */
  lemma LoopHead<N>(g: Shape<N>, x: N)
    requires Colliding(g, x)
    ensures Linked(g) && x in g.cell && g.root in g.cell
    ensures var p := g.cell[x].parent;
            && (p in g.cell || p == g.leaf)
            && (p in g.cell ==> g.cell[p].parent in g.cell || g.cell[p].parent == g.leaf)
            && (ColorOf(g, p) == RED ==> p in g.cell)
            && (ColorOf(g, p) == RED && g.cell[p].parent != g.leaf ==>
                  Collision(g, x, p, g.cell[p].parent) && IsChild(g, g.cell[p].parent, p))
  {
    assert Hangs(g, x);
    if g.cell[x].parent in g.cell { assert Hangs(g, g.cell[x].parent); }
  }

  /** When the loop ends, blackening the root restores the weak invariant. */
  lemma SettleWeak<N>(g: Shape<N>, x: N)
    requires Colliding(g, x)
    requires var p := g.cell[x].parent; ColorOf(g, p) == BLACK || g.cell[p].parent == g.leaf
    ensures Weak(Blacken(g, g.root))
  {
    var h := Blacken(g, g.root);
    PaintLinked(g, map[g.root := BLACK]);
    assert Hangs(g, x);
    forall n | n in g.cell ensures RedOk(h, n, g.leaf) {
      assert RedOk(g, n, x) && Hangs(g, n);
    }
  }

  /** Everything the fix-up needs to know about a tree with the new node z hung on. */
  lemma AttachStep<N>(g: Shape<N>, q: N, onLeft: bool, z: N)
    requires Weak(g) && Free(g, q, onLeft) && z !in g.cell && z != g.leaf
    ensures var h, p := Attach(g, q, onLeft, z), Slot(g, q, onLeft);
            && Colliding(h, z) && Linked(h) && h.cell.Keys == g.cell.Keys + {z}
            && 0 <= p <= |g.order| && p < |BlackDepths(TreeOf(g))|
            && h.order == g.order[..p] + [z] + g.order[p..]
            && BlackDepths(TreeOf(h)) == Twice(BlackDepths(TreeOf(g)), p)
  {
    AttachColliding(g, q, onLeft, z);
    AttachDepths(g, q, onLeft, z);
  }

  lemma SingleStep<N>(leaf: N, z: N)
    requires z != leaf
    ensures var h, g := Single(leaf, z), Empty(leaf);
            && Linked(g) && Colliding(h, z) && Linked(h) && h.cell.Keys == g.cell.Keys + {z}
            && |g.order| == 0 && |BlackDepths(TreeOf(g))| > 0
            && h.order == g.order[..0] + [z] + g.order[0..]
            && BlackDepths(TreeOf(h)) == Twice(BlackDepths(TreeOf(g)), 0)
  {
    SingleColliding(leaf, z);
  }

  lemma PlusTwice<N>(g: Shape<N>, h: Shape<N>, r: Shape<N>, p: int)
    requires Linked(g) && Linked(h) && Linked(r) && 0 <= p < |BlackDepths(TreeOf(g))|
    requires BlackDepths(TreeOf(h)) == Twice(BlackDepths(TreeOf(g)), p)
    requires exists k :: 0 <= k <= 1 && BlackDepths(TreeOf(r)) == Plus(k, BlackDepths(TreeOf(h)))
    ensures exists k :: 0 <= k <= 1 && BlackDepths(TreeOf(r)) == Plus(k, Twice(BlackDepths(TreeOf(g)), p))
    ensures Balanced(r) <==> Balanced(g)
  {
    var k :| 0 <= k <= 1 && BlackDepths(TreeOf(r)) == Plus(k, BlackDepths(TreeOf(h)));
    InsertKeepsBalance(g, r, p, k);
  }
}
