/** The last rotation of the deletion fix-up, rightly and wrongly painted. */
module LastRotation {
  import opened Nodes
  import opened Shapes
  import opened BlackCounts
  import opened Trees
  import opened ShapeTrees
  import opened ColorRules
  import opened DeleteSteps

  /** q, the black child of p beside x, goes up; x's side gains p as a black node, and t, q's far child, is painted c. */
  ghost function LastPaint<N>(g: Shape<N>, p: N, q: N, t: N, top: Color, far: Color): Shape<N> {
    Paint(g, map[q := top, p := BLACK, t := far])
  }

  ghost function LastRotate<N>(g: Shape<N>, p: N, q: N, t: N, top: Color, far: Color): Shape<N>
    requires p in g.cell && q in g.cell
  {
    Rotate(LastPaint(g, p, q, t, top, far), p, q)
  }

  /** x stands beside the black q, whose far child t is red. */
  ghost predicate FarRed<N>(g: Shape<N>, x: N, p: N, q: N, t: N) {
    Level(g, x, p, q) && t == Far(g, p, x, q) && t in g.cell && g.cell[t].color == RED
  }

  lemma FarRedFacts<N>(g: Shape<N>, x: N, p: N, q: N, t: N)
    requires FarRed(g, x, p, q, t)
    ensures IsChild(g, p, q) && IsChild(g, q, t) && IsChild(g, p, x)
    ensures x != p && x != q && x != t && p != q && p != t && q != t
    ensures g.cell[x].parent == p && g.cell[q].parent == p && g.cell[t].parent == q
  {
    SiblingPlace(g, x, p, q);
    assert Hangs(g, p) && Hangs(g, q) && Hangs(g, x);
  }

  lemma LastKeys<N>(g: Shape<N>, p: N, q: N, t: N, top: Color, far: Color)
    requires p in g.cell && q in g.cell
    ensures LastRotate(g, p, q, t, top, far).cell.Keys == g.cell.Keys
  {}

  /** What happens to the links of the nodes other than p and q. */
  lemma LastOther<N>(g: Shape<N>, x: N, p: N, q: N, t: N, top: Color, far: Color, n: N)
    requires FarRed(g, x, p, q, t) && n in g.cell && n != p && n != q
    ensures var c, d := g.cell[n], LastRotate(g, p, q, t, top, far).cell[n];
            && d.color == (if n == t then far else c.color)
            && c.left != q && c.right != q && c.left != x && c.right != x && c.left != t && c.right != t
            && d.left == (if c.left == p then q else c.left) && d.right == (if c.right == p then q else c.right)
  {
    FarRedFacts(g, x, p, q, t);
    assert Hangs(g, n);
  }

  /** The links of p and q afterwards. */
  lemma LastPivots<N>(g: Shape<N>, x: N, p: N, q: N, t: N, top: Color, far: Color)
    requires FarRed(g, x, p, q, t)
    ensures var h, m := LastRotate(g, p, q, t, top, far), Near(g, p, x, q);
            && h.cell[p].color == BLACK && h.cell[q].color == top
            && (if x == g.cell[p].left then h.cell[p].left == x && h.cell[p].right == m && h.cell[q].left == p && h.cell[q].right == t
                else h.cell[p].left == m && h.cell[p].right == x && h.cell[q].left == t && h.cell[q].right == p)
  {
    FarRedFacts(g, x, p, q, t);
    assert Hangs(g, p) && Hangs(g, q);
  }

  /** The counts below afterwards, if the far child's subtree gains `gain`. */
  ghost function LastTally<N>(g: Shape<N>, bs: Tally<N>, x: N, p: N, q: N, t: N, gain: int, top: seq<int>): Tally<N>
    requires {x, p, q, t} <= bs.Keys && p in g.cell && q in g.cell
  {
    var x1, m := Plus(-1, bs[x]), At(bs, Near(g, p, x, q));
    var low := if x == g.cell[p].left then Plus(1, x1 + m) else Plus(1, m + x1);
    bs[x := x1][p := low][t := Plus(gain, bs[t])][q := top]
  }

  lemma LastTallyAt<N>(g: Shape<N>, bs: Tally<N>, x: N, p: N, q: N, t: N, gain: int, top: seq<int>, c: N)
    requires {x, p, q, t} <= bs.Keys && p in g.cell && q in g.cell && x != p && x != q && x != t && p != q && p != t && q != t
    ensures var cs := LastTally(g, bs, x, p, q, t, gain, top);
            && cs.Keys == bs.Keys && cs[x] == Plus(-1, bs[x]) && cs[t] == Plus(gain, bs[t]) && cs[q] == top
            && (c != x && c != p && c != q && c != t ==> At(cs, c) == At(bs, c))
  {}

  ghost function Gain(far: Color): int { if far == BLACK then 1 else 0 }

  lemma LastSumsX<N>(g: Shape<N>, bs: Tally<N>, x: N, p: N, q: N, t: N, top: Color, far: Color, above: seq<int>)
    requires FarRed(g, x, p, q, t) && Tallies(g, bs, {x})
    ensures Sums(LastRotate(g, p, q, t, top, far), LastTally(g, bs, x, p, q, t, Gain(far), above), {}, x)
  {
    FarRedFacts(g, x, p, q, t);
    LastOther(g, x, p, q, t, top, far, x);
    NodeFacts(g, x);
    NodeFacts(g, p);
    SumsAt(g, bs, {x}, x);
    LastKeys(g, p, q, t, top, far);
    hide FarRed, Linked, Tallies, LastRotate;
    var c := g.cell[x];
    assert c.left != p && c.right != p;
    LastTallyAt(g, bs, x, p, q, t, Gain(far), above, c.left);
    LastTallyAt(g, bs, x, p, q, t, Gain(far), above, c.right);
    hide LastTally, Sums, At, Plus;
    SumsShift(g, bs, {x}, x, LastRotate(g, p, q, t, top, far), LastTally(g, bs, x, p, q, t, Gain(far), above), {}, -1);
  }

  lemma LastSumsT<N>(g: Shape<N>, bs: Tally<N>, x: N, p: N, q: N, t: N, top: Color, far: Color, above: seq<int>)
    requires FarRed(g, x, p, q, t) && Tallies(g, bs, {x})
    ensures Sums(LastRotate(g, p, q, t, top, far), LastTally(g, bs, x, p, q, t, Gain(far), above), {}, t)
  {
    FarRedFacts(g, x, p, q, t);
    LastOther(g, x, p, q, t, top, far, t);
    NodeFacts(g, t);
    NodeFacts(g, p);
    NodeFacts(g, q);
    SumsAt(g, bs, {x}, t);
    LastKeys(g, p, q, t, top, far);
    hide FarRed, Linked, Tallies, LastRotate;
    var c := g.cell[t];
    assert c.left != p && c.right != p;
    LastTallyAt(g, bs, x, p, q, t, Gain(far), above, c.left);
    LastTallyAt(g, bs, x, p, q, t, Gain(far), above, c.right);
    hide LastTally, Sums, At, Plus;
    SumsShift(g, bs, {x}, t, LastRotate(g, p, q, t, top, far), LastTally(g, bs, x, p, q, t, Gain(far), above), {}, Gain(far));
  }

  lemma NearApart<N>(g: Shape<N>, x: N, p: N, q: N, t: N)
    requires FarRed(g, x, p, q, t)
    ensures var m := Near(g, p, x, q); m != x && m != p && m != q && m != t
  {
    FarRedFacts(g, x, p, q, t);
    assert Hangs(g, q) && Hangs(g, p);
  }

  lemma LastSumsP<N>(g: Shape<N>, bs: Tally<N>, x: N, p: N, q: N, t: N, top: Color, far: Color, above: seq<int>)
    requires FarRed(g, x, p, q, t) && Tallies(g, bs, {x})
    ensures Sums(LastRotate(g, p, q, t, top, far), LastTally(g, bs, x, p, q, t, Gain(far), above), {}, p)
  {
    FarRedFacts(g, x, p, q, t);
    NearApart(g, x, p, q, t);
    LastPivots(g, x, p, q, t, top, far);
  }

  lemma LastSumsOther<N>(g: Shape<N>, bs: Tally<N>, x: N, p: N, q: N, t: N, top: Color, far: Color, above: seq<int>, n: N)
    requires FarRed(g, x, p, q, t) && Tallies(g, bs, {x}) && n in g.cell && n != x && n != p && n != q && n != t
    requires above == bs[p] || g.cell[p].parent != n
    ensures Sums(LastRotate(g, p, q, t, top, far), LastTally(g, bs, x, p, q, t, Gain(far), above), {}, n)
  {
    FarRedFacts(g, x, p, q, t);
    LastOther(g, x, p, q, t, top, far, n);
    assert Hangs(g, n) && Sums(g, bs, {x}, n);
    assert Weight(n, g.cell[n].color, {}) == Weight(n, g.cell[n].color, {x});
  }

  /** The counts of p before, and of q afterwards. */
  lemma LastSumsQ<N>(g: Shape<N>, bs: Tally<N>, x: N, p: N, q: N, t: N)
    requires FarRed(g, x, p, q, t) && Tallies(g, bs, {x})
    ensures Sums(LastRotate(g, p, q, t, g.cell[p].color, BLACK), LastTally(g, bs, x, p, q, t, 1, bs[p]), {}, q)
  {
    FarRedFacts(g, x, p, q, t);
    LastPivots(g, x, p, q, t, g.cell[p].color, BLACK);
    NodeFacts(g, p);
    SumsAt(g, bs, {x}, p);
    SumsAt(g, bs, {x}, q);
    LastKeys(g, p, q, t, g.cell[p].color, BLACK);
    NearApart(g, x, p, q, t);
    hide FarRed, Linked, Tallies, LastRotate;
    LastRegroup(Weight(p, g.cell[p].color, {x}), bs[x], At(bs, Near(g, p, x, q)), bs[t]);
  }

  lemma LastRoot<N>(g: Shape<N>, x: N, p: N, q: N, t: N, top: Color, far: Color)
    requires FarRed(g, x, p, q, t)
    ensures var h := LastRotate(g, p, q, t, top, far);
            && h.cell.Keys == g.cell.Keys && g.root in g.cell && h.root == (if g.root == p then q else g.root)
            && g.root != x && g.root != q && g.root != t
  {
    FarRedFacts(g, x, p, q, t);
    assert g.root in g.cell;
    assert Hangs(g, p);
  }

  lemma LastTop<N>(g: Shape<N>, bs: Tally<N>, x: N, p: N, q: N, t: N, top: Color, far: Color)
    requires FarRed(g, x, p, q, t) && bs.Keys == g.cell.Keys
    ensures var h, cs := LastRotate(g, p, q, t, top, far), LastTally(g, bs, x, p, q, t, Gain(far), bs[p]);
            h.cell.Keys == cs.Keys == g.cell.Keys && h.root in h.cell && At(cs, h.root) == At(bs, g.root)
  {
    FarRedFacts(g, x, p, q, t);
    LastRoot(g, x, p, q, t, top, far);
  }

  lemma LastLinked<N>(g: Shape<N>, x: N, p: N, q: N, t: N, top: Color, far: Color)
    requires FarRed(g, x, p, q, t)
    ensures Linked(LastPaint(g, p, q, t, top, far)) && Linked(LastRotate(g, p, q, t, top, far))
    ensures IsChild(LastPaint(g, p, q, t, top, far), p, q)
  {
    FarRedFacts(g, x, p, q, t);
    PaintLinked(g, map[q := top, p := BLACK, t := far]);
    RotateLinked(LastPaint(g, p, q, t, top, far), p, q);
  }

  lemma LastTallies<N>(g: Shape<N>, bs: Tally<N>, x: N, p: N, q: N, t: N)
    requires FarRed(g, x, p, q, t) && Tallies(g, bs, {x}) && bs.Keys == g.cell.Keys
    ensures {x, p, q, t} <= bs.Keys
    ensures Tallies(LastRotate(g, p, q, t, g.cell[p].color, BLACK), LastTally(g, bs, x, p, q, t, 1, bs[p]), {})
  {
    var c := g.cell[p].color;
    LastTop(g, bs, x, p, q, t, c, BLACK);
    forall n | n in g.cell ensures Sums(LastRotate(g, p, q, t, c, BLACK), LastTally(g, bs, x, p, q, t, 1, bs[p]), {}, n) {
      if n == x { LastSumsX(g, bs, x, p, q, t, c, BLACK, bs[p]); }
      else if n == p { LastSumsP(g, bs, x, p, q, t, c, BLACK, bs[p]); }
      else if n == t { LastSumsT(g, bs, x, p, q, t, c, BLACK, bs[p]); }
      else if n == q { LastSumsQ(g, bs, x, p, q, t); }
      else { LastSumsOther(g, bs, x, p, q, t, c, BLACK, bs[p], n); }
    }
  }

  /** Rightly painted, the last rotation repairs all counts. */
  lemma LastCounts<N>(g: Shape<N>, x: N, p: N, q: N, t: N)
    requires FarRed(g, x, p, q, t)
    ensures Linked(g) && p in g.cell && Linked(LastRotate(g, p, q, t, g.cell[p].color, BLACK))
    ensures BlackDepths(TreeOf(LastRotate(g, p, q, t, g.cell[p].color, BLACK))) == Counts(TreeOf(g), {x})
  {
    var c := g.cell[p].color;
    var bs := TallyOf(g, {x});
    TallyOfTallies(g, {x});
    LastTallies(g, bs, x, p, q, t);
    LastTop(g, bs, x, p, q, t, c, BLACK);
    LastLinked(g, x, p, q, t, c, BLACK);
    var h := LastRotate(g, p, q, t, c, BLACK);
    TallyCounts(h, LastTally(g, bs, x, p, q, t, 1, bs[p]), {}, h.root);
  }

  /** Either q takes over the parent's colour, or, below a red parent, t does. */
  ghost predicate LastColors<N>(g: Shape<N>, p: N, top: Color, far: Color)
    requires p in g.cell
  {
    (top == g.cell[p].color && far == BLACK) || (top == BLACK && far == g.cell[p].color)
  }

  lemma LastRedOkLow<N>(g: Shape<N>, x: N, p: N, q: N, t: N, top: Color, far: Color)
    requires FarRed(g, x, p, q, t) && LastColors(g, p, top, far)
    ensures var h := LastRotate(g, p, q, t, top, far);
            RedOk(h, x, g.leaf) && RedOk(h, p, g.leaf) && RedOk(h, q, g.leaf)
  {
    FarRedFacts(g, x, p, q, t);
    LastPivots(g, x, p, q, t, top, far);
    LastOther(g, x, p, q, t, top, far, t);
    LastOther(g, x, p, q, t, top, far, x);
  }

  lemma LastRedOkT<N>(g: Shape<N>, x: N, p: N, q: N, t: N, top: Color, far: Color)
    requires FarRed(g, x, p, q, t) && LastColors(g, p, top, far)
    ensures RedOk(LastRotate(g, p, q, t, top, far), t, g.leaf)
  {
    FarRedFacts(g, x, p, q, t);
    LastOther(g, x, p, q, t, top, far, t);
    assert RedOk(g, t, g.leaf) && Hangs(g, t) && Hangs(g, p) && Hangs(g, q);
  }

  lemma LastRedOkOther<N>(g: Shape<N>, x: N, p: N, q: N, t: N, top: Color, far: Color, n: N)
    requires FarRed(g, x, p, q, t) && LastColors(g, p, top, far)
    requires n in g.cell && n != x && n != p && n != q && n != t
    ensures RedOk(LastRotate(g, p, q, t, top, far), n, g.leaf)
  {
    FarRedFacts(g, x, p, q, t);
    LastOther(g, x, p, q, t, top, far, n);
    assert RedOk(g, n, g.leaf);
  }

  lemma LastWeak<N>(g: Shape<N>, x: N, p: N, q: N, t: N, top: Color, far: Color)
    requires FarRed(g, x, p, q, t) && LastColors(g, p, top, far)
    ensures Weak(LastRotate(g, p, q, t, top, far))
  {
    var h := LastRotate(g, p, q, t, top, far);
    LastLinked(g, x, p, q, t, top, far);
    LastRoot(g, x, p, q, t, top, far);
    LastRedOkLow(g, x, p, q, t, top, far);
    LastRedOkT(g, x, p, q, t, top, far);
    forall n | n in g.cell ensures RedOk(LastRotate(g, p, q, t, top, far), n, g.leaf) {
      if n != x && n != p && n != q && n != t { LastRedOkOther(g, x, p, q, t, top, far, n); }
    }
    LastPivots(g, x, p, q, t, top, far);
    if g.root != p { LastOther(g, x, p, q, t, top, far, g.root); }
  }

  // ---------- the rotation as the code paints it below a red parent ----------

  /** The stretch of slots below x and below the child of q on x's side. */
  ghost function LiftLo<N>(g: Shape<N>, p: N, x: N, q: N): int
    requires p in g.cell && x in g.cell && q in g.cell
  {
    if x == g.cell[p].left then g.cell[x].lo else g.cell[q].pos + 1
  }

  ghost function LiftHi<N>(g: Shape<N>, p: N, x: N, q: N): int
    requires p in g.cell && x in g.cell && q in g.cell
  {
    if x == g.cell[p].left then g.cell[q].pos + 1 else g.cell[x].hi + 1
  }

  /** Painted black, q of the rightly painted rotation and t of the code's lead to the same tree. */
  lemma LastRepaint<N>(g: Shape<N>, x: N, p: N, q: N, t: N)
    requires FarRed(g, x, p, q, t)
    ensures var b := LastRotate(g, p, q, t, BLACK, BLACK);
            && Blacken(LastRotate(g, p, q, t, RED, BLACK), q) == b && Blacken(LastRotate(g, p, q, t, BLACK, RED), t) == b
  {
    FarRedFacts(g, x, p, q, t);
    RepaintLast(g, p, q, t, RED, BLACK, q);
    RepaintLast(g, p, q, t, BLACK, RED, t);
    RepaintFirst(q, p, t);
    RepaintThird(q, p, t);
    hide *;
    LastBlack(g, p, q, t);
  }

  lemma LastBlack<N>(g: Shape<N>, p: N, q: N, t: N)
    requires p in g.cell && q in g.cell
    ensures LastRotate(g, p, q, t, BLACK, BLACK) == Rotate(Paint(g, map[q := BLACK, p := BLACK, t := BLACK]), p, q)
  {}

  lemma RepaintFirst<N>(q: N, p: N, t: N)
    requires q != p && q != t && p != t
    ensures map[q := RED, p := BLACK, t := BLACK] + map[q := BLACK] == map[q := BLACK, p := BLACK, t := BLACK]
  {}

  lemma RepaintThird<N>(q: N, p: N, t: N)
    requires q != p && q != t && p != t
    ensures map[q := BLACK, p := BLACK, t := RED] + map[t := BLACK] == map[q := BLACK, p := BLACK, t := BLACK]
  {}

  lemma RepaintLast<N>(g: Shape<N>, p: N, q: N, t: N, top: Color, far: Color, n: N)
    requires p in g.cell && q in g.cell
    ensures Blacken(LastRotate(g, p, q, t, top, far), n)
            == Rotate(Paint(g, map[q := top, p := BLACK, t := far] + map[n := BLACK]), p, q)
  {
    PaintRotated(LastPaint(g, p, q, t, top, far), p, q, map[n := BLACK]);
    PaintTwice(g, map[q := top, p := BLACK, t := far], map[n := BLACK]);
    hide Rotate;
  }

  /** The intervals of q and t afterwards. */
  lemma LastSpans<N>(g: Shape<N>, x: N, p: N, q: N, t: N, top: Color, far: Color)
    requires FarRed(g, x, p, q, t)
    ensures var h, c, d := LastRotate(g, p, q, t, top, far), g.cell[p], g.cell[q];
            && h.cell[q].lo == c.lo && h.cell[q].hi == c.hi && 0 <= c.lo && c.hi <= |g.order| && c.lo <= d.pos < c.hi
            && (if x == c.left then h.cell[t].lo == d.pos + 1 && h.cell[t].hi == c.hi && g.cell[x].lo == c.lo
                else h.cell[t].lo == c.lo && h.cell[t].hi == d.pos && g.cell[x].hi == c.hi)
            && h.cell[q].color == top && h.cell[t].color == far && q in h.cell && t in h.cell
  {
    FarRedFacts(g, x, p, q, t);
    NodeFacts(g, p);
    NodeFacts(g, q);
    NodeFacts(g, t);
    hide Linked;
  }

  /** Painting a red node black raises exactly the counts of the paths through it. */
  lemma BlackenLifts<N>(g: Shape<N>, n: N)
    requires Linked(g) && n in g.cell && g.cell[n].color == RED
    ensures Linked(Blacken(g, n))
    ensures BlackDepths(TreeOf(Blacken(g, n))) == Lift(BlackDepths(TreeOf(g)), g.cell[n].lo, g.cell[n].hi + 1)
  {
    hide *;
    BlackenCounts(g, n);
    RootCovers(g, n);
    RootBounds(g);
    ExtraLifts(g, g.root, n);
    PlainCounts(TreeOf(g));
  }

  lemma PlainCounts<N>(t: Tree<N>)
    ensures BlackDepths(t) == Counts(t, {})
  {}

  /**
   Below a red parent, as the code paints it, the last rotation raises the counts below x and below the near child of
   q by one beyond what x stands for, and keeps all others.
   */
  lemma LastLifts<N>(g: Shape<N>, x: N, p: N, q: N, t: N)
    requires FarRed(g, x, p, q, t) && g.cell[p].color == RED
    ensures Linked(g) && x in g.cell && p in g.cell && q in g.cell && Linked(LastRotate(g, p, q, t, BLACK, RED))
    ensures BlackDepths(TreeOf(LastRotate(g, p, q, t, BLACK, RED)))
            == Lift(Counts(TreeOf(g), {x}), LiftLo(g, p, x, q), LiftHi(g, p, x, q))
  {
    hide *;
    FarRedNodes(g, x, p, q, t);
    var r, w := LastRotate(g, p, q, t, RED, BLACK), LastRotate(g, p, q, t, BLACK, RED);
    LastCounts(g, x, p, q, t);
    LastLinked(g, x, p, q, t, BLACK, RED);
    LastRepaint(g, x, p, q, t);
    LastSpans(g, x, p, q, t, RED, BLACK);
    LastSpans(g, x, p, q, t, BLACK, RED);
    BlackenLifts(r, q);
    BlackenLifts(w, t);
    LiftSpans(g, p, x, q);
    var c := g.cell[p];
    LiftRest(Counts(TreeOf(g), {x}), BlackDepths(TreeOf(w)), c.lo, g.cell[q].pos + 1, c.hi + 1);
  }

  lemma FarRedNodes<N>(g: Shape<N>, x: N, p: N, q: N, t: N)
    requires FarRed(g, x, p, q, t)
    ensures Linked(g) && x in g.cell && p in g.cell && q in g.cell && t in g.cell
  {}

  lemma LiftSpans<N>(g: Shape<N>, p: N, x: N, q: N)
    requires p in g.cell && x in g.cell && q in g.cell
    ensures x == g.cell[p].left ==> LiftLo(g, p, x, q) == g.cell[x].lo && LiftHi(g, p, x, q) == g.cell[q].pos + 1
    ensures x != g.cell[p].left ==> LiftLo(g, p, x, q) == g.cell[q].pos + 1 && LiftHi(g, p, x, q) == g.cell[x].hi + 1
  {}
}
