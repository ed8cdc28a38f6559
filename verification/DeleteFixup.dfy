/** The deletion fix-up as a whole: when it repairs the counts, and when it breaks them. */
module DeleteFixup {
  import opened Nodes
  import opened Shapes
  import opened BlackCounts
  import opened Trees
  import opened ShapeTrees
  import opened RotationCounts
  import opened ColorRules
  import opened InsertSteps
  import opened DeleteSteps
  import opened LastRotation
  import opened FieldWrites

  /** On x's side the child of s is red, on the far side black: the case of the double rotation. */
  ghost predicate InnerNephew<N>(g: Shape<N>, p: N, x: N, s: N)
    requires p in g.cell && s in g.cell
  {
    ColorOf(g, Near(g, p, x, s)) == RED && ColorOf(g, Far(g, p, x, s)) == BLACK
  }

  /**
   How a climb ends: at the root, at a red node (or nowhere, for the sentinel), at a sibling that is the sentinel,
   with a last rotation that is painted rightly, or with one that lifts the counts of the slots lo..hi-1.
   */
  datatype Ending = AtRoot | AtRed | AtSentinel | Rightly | Lifting(lo: int, hi: int)

  /** Beside the black sibling s, which has a red child, below a parent p that is red or not. */
  ghost function TurnEnd<N>(g: Shape<N>, p: N, x: N, s: N, red: bool): Ending
    requires p in g.cell && x in g.cell && s in g.cell
  {
    var i := Near(g, p, x, s);
    if InnerNephew(g, p, x, s) && red && i in g.cell then Lifting(LiftLo(g, p, x, i), LiftHi(g, p, x, i)) else Rightly
  }

  /**
   Where the climb from x leads, read off the links and colours before it. A red sibling puts x below a red parent,
   beside the sibling's near child; a black sibling with black children sends the climb on to the parent.
   */
  ghost function ClimbEnd<N>(g: Shape<N>, x: N): Ending
    requires Linked(g)
    decreases if x in g.cell then |g.order| - (g.cell[x].hi - g.cell[x].lo) else 0
  {
    if x !in g.cell then AtRed
    else if x == g.root then AtRoot
    else if g.cell[x].color == RED then AtRed
    else
      assert Hangs(g, x);
      var p := g.cell[x].parent;
      var s := Sibling(g, p, x);
      if s !in g.cell then AtSentinel
      else if g.cell[s].color == RED then
        var i := Near(g, p, x, s);
        if i !in g.cell then AtSentinel
        else if BlackChildren(g, i) then AtRed
        else TurnEnd(g, p, x, i, true)
      else if BlackChildren(g, s) then
        assert Hangs(g, p);
        ClimbEnd(g, p)
      else TurnEnd(g, p, x, s, g.cell[p].color == RED)
  }

  ghost predicate BlackChildren<N>(g: Shape<N>, s: N)
    requires s in g.cell
  {
    ColorOf(g, g.cell[s].left) == BLACK && ColorOf(g, g.cell[s].right) == BLACK
  }

  /** Climbing from x, the fix-up comes to a double rotation below a red parent. */
  ghost predicate Breaks<N>(g: Shape<N>, x: N)
    requires Linked(g)
  {
    ClimbEnd(g, x).Lifting?
  }

  /**
   Climbing from x, the fix-up comes to a sibling that is the sentinel, either at once or after rotating a red sibling
   up: there the source follows a nil link.
   */
  ghost predicate Stuck<N>(g: Shape<N>, x: N)
    requires Linked(g)
  {
    ClimbEnd(g, x).AtSentinel?
  }

  // ---------- the climb does not look below x ----------

  /** What the climb looks at around n, beside its parent p and its sibling o, is the same in g and h. */
  ghost predicate LooksSame<N>(g: Shape<N>, h: Shape<N>, n: N, p: N, o: N) {
    && n in g.cell && p in g.cell && g.cell[n].parent == p && o == Sibling(g, p, n) && NodeSame(g, h, n) && NodeSame(g, h, p)
    && g.root == h.root && (o in g.cell <==> o in h.cell)
    && (o in g.cell ==>
          && NodeSame(g, h, o) && ColorSame(g, h, g.cell[o].left) && ColorSame(g, h, g.cell[o].right)
          && var i := Near(g, p, n, o);
          (i in g.cell <==> i in h.cell)
          && (i in g.cell ==> NodeSame(g, h, i) && ChildSame(g, h, g.cell[i].left) && ChildSame(g, h, g.cell[i].right)))
  }

  ghost predicate ColorSame<N>(g: Shape<N>, h: Shape<N>, n: N) { ColorOf(g, n) == ColorOf(h, n) }

  ghost predicate ChildSame<N>(g: Shape<N>, h: Shape<N>, n: N) {
    ColorSame(g, h, n) && (n in g.cell <==> n in h.cell) && (n in g.cell ==> g.cell[n].pos == h.cell[n].pos)
  }

  ghost predicate NodeSame<N>(g: Shape<N>, h: Shape<N>, n: N) { n in g.cell && n in h.cell && g.cell[n] == h.cell[n] }

  /** A turn beside i ends the same way where its two children and the slots involved are the same. */
  lemma TurnSame<N>(g: Shape<N>, h: Shape<N>, p: N, x: N, i: N, red: bool)
    requires p in g.cell && p in h.cell && x in g.cell && x in h.cell && i in g.cell && i in h.cell
    requires (x == h.cell[p].left <==> x == g.cell[p].left) && h.cell[x].lo == g.cell[x].lo && h.cell[x].hi == g.cell[x].hi
    requires Near(h, p, x, i) == Near(g, p, x, i) && ChildSame(g, h, Near(g, p, x, i))
    requires Far(h, p, x, i) == Far(g, p, x, i) && ColorSame(g, h, Far(g, p, x, i))
    ensures TurnEnd(h, p, x, i, red) == TurnEnd(g, p, x, i, red) && BlackChildren(h, i) == BlackChildren(g, i)
  {
    InnerMeaning(g, p, x, i);
    InnerMeaning(h, p, x, i);
  }

  lemma EndSame<N>(g: Shape<N>, h: Shape<N>, n: N, p: N, o: N)
    requires Linked(g) && Linked(h) && n != g.root && LooksSame(g, h, n, p, o) && ClimbEnd(g, p) == ClimbEnd(h, p)
    ensures ClimbEnd(h, n) == ClimbEnd(g, n)
  {
    hide Linked, TurnEnd, BlackChildren;
    if o in g.cell {
      TurnSame(g, h, p, n, o, g.cell[p].color == RED);
      var i := Near(g, p, n, o);
      if i in g.cell { TurnSame(g, h, p, n, i, true); }
    }
  }

  lemma {:induction false} ClimbAbove<N>(g: Shape<N>, h: Shape<N>, s: N, n: N)
    requires Linked(g) && Linked(h) && h == Paint(g, map[s := RED]) && Covers(g, n, s) && n != s
    ensures n in h.cell && ClimbEnd(h, n) == ClimbEnd(g, n)
    decreases |g.order| - (g.cell[n].hi - g.cell[n].lo)
  {
    if n != g.root {
      AboveCovers(g, n, s);
      var p := g.cell[n].parent;
      var o := Sibling(g, p, n);
      ClimbAbove(g, h, s, p);
      PaintLooksSame(g, s, n, p, o);
      hide *;
      EndSame(g, h, n, p, o);
    }
  }

  /** s below n lies below its parent too, and not below its sibling. */
  lemma AboveCovers<N>(g: Shape<N>, n: N, s: N)
    requires Linked(g) && Covers(g, n, s) && n != s && n != g.root
    ensures n in g.cell && s in g.cell
    ensures var p := g.cell[n].parent;
            && p in g.cell && p != n && Covers(g, p, s) && p != s && g.cell[p].hi - g.cell[p].lo > g.cell[n].hi - g.cell[n].lo
            && g.cell[p].hi - g.cell[p].lo <= |g.order|
            && Sibling(g, p, n) != s && (Sibling(g, p, n) in g.cell ==> !Covers(g, Sibling(g, p, n), s))
  {
    assert Hangs(g, n);
    assert Hangs(g, g.cell[n].parent);
  }

  lemma PaintLooksSame<N>(g: Shape<N>, s: N, n: N, p: N, o: N)
    requires Linked(g) && n in g.cell && p in g.cell && g.cell[n].parent == p && o == Sibling(g, p, n) && s in g.cell
    requires n != s && p != s && o != s && (o in g.cell ==> !Covers(g, o, s))
    ensures LooksSame(g, Paint(g, map[s := RED]), n, p, o)
  {
    if o in g.cell { NearApartFrom(g, o, s); }
    hide Linked, Covers;
  }

  /** s lies outside the subtree at o, so none of o's grandchildren is s. */
  lemma NearApartFrom<N>(g: Shape<N>, o: N, s: N)
    requires Linked(g) && o in g.cell && s in g.cell && !Covers(g, o, s)
    ensures g.cell[o].left != s && g.cell[o].right != s
    ensures g.cell[o].left in g.cell ==> g.cell[g.cell[o].left].left != s && g.cell[g.cell[o].left].right != s
    ensures g.cell[o].right in g.cell ==> g.cell[g.cell[o].right].left != s && g.cell[g.cell[o].right].right != s
  {
    assert Hangs(g, o);
    if g.cell[o].left in g.cell { assert Hangs(g, g.cell[o].left); }
    if g.cell[o].right in g.cell { assert Hangs(g, g.cell[o].right); }
  }

  lemma MoveUpEnd<N>(g: Shape<N>, x: N, p: N, s: N)
    requires Level(g, x, p, s) && Linked(Paint(g, map[s := RED]))
    requires ColorOf(g, g.cell[s].left) == BLACK && ColorOf(g, g.cell[s].right) == BLACK
    ensures p in Paint(g, map[s := RED]).cell
    ensures ClimbEnd(Paint(g, map[s := RED]), p) == ClimbEnd(g, x)
  {
    SiblingPlace(g, x, p, s);
    assert Hangs(g, p) && Hangs(g, s);
    ClimbAbove(g, Paint(g, map[s := RED]), s, p);
  }

  /** Rotating a red sibling up does not change how the climb ends, which is not at the sentinel. */
  lemma RedSiblingEnd<N>(g: Shape<N>, x: N, p: N, s: N)
    requires Deficit(g, x, p, s) && ColorOf(g, s) == RED && Linked(SwapRotate(g, p, s)) && x in SwapRotate(g, p, s).cell
    ensures ClimbEnd(SwapRotate(g, p, s), x) == ClimbEnd(g, x) != AtSentinel
  {
    hide *;
    RedSiblingPlace(g, x, p, s);
    var h, i := SwapRotate(g, p, s), Near(g, p, x, s);
    RedSiblingBelow(g, x, p, s);
    RedSiblingNephews(g, x, p, s);
    EndRed(g, x, p, s);
    EndBlack(h, x, p, i);
    TurnSame(g, h, p, x, i, true);
  }

  lemma InnerMeaning<N>(g: Shape<N>, p: N, x: N, s: N)
    requires p in g.cell && s in g.cell
    ensures InnerNephew(g, p, x, s) <==> ColorOf(g, Near(g, p, x, s)) == RED && ColorOf(g, Far(g, p, x, s)) == BLACK
    ensures BlackChildren(g, s) <==> ColorOf(g, Near(g, p, x, s)) == BLACK && ColorOf(g, Far(g, p, x, s)) == BLACK
  {}

  lemma RedSiblingPlace<N>(g: Shape<N>, x: N, p: N, s: N)
    requires Deficit(g, x, p, s) && ColorOf(g, s) == RED
    ensures Linked(g) && x in g.cell && x != g.root && g.cell[x].color == BLACK && g.cell[x].parent == p
    ensures p in g.cell && s in g.cell && Sibling(g, p, x) == s && g.cell[s].color == RED
    ensures var i := Near(g, p, x, s); i in g.cell && g.cell[i].color == BLACK
  {
    SiblingPlace(g, x, p, s);
    RedSiblingFacts(g, x, p, s);
    assert Hangs(g, p) && Hangs(g, s) && Hangs(g, x);
  }

  lemma EndRed<N>(g: Shape<N>, x: N, p: N, s: N)
    requires Linked(g) && x in g.cell && x != g.root && g.cell[x].color == BLACK && g.cell[x].parent == p && p in g.cell
    requires s == Sibling(g, p, x) && s in g.cell && g.cell[s].color == RED && Near(g, p, x, s) in g.cell
    ensures var i := Near(g, p, x, s);
            ClimbEnd(g, x) == if BlackChildren(g, i) then AtRed else TurnEnd(g, p, x, i, true)
    ensures ClimbEnd(g, x) != AtSentinel
  {}

  /** Below a red parent and beside a black sibling the run ends here. */
  lemma EndBlack<N>(g: Shape<N>, x: N, p: N, s: N)
    requires Linked(g) && x in g.cell && x != g.root && g.cell[x].color == BLACK && g.cell[x].parent == p && p in g.cell
    requires s == Sibling(g, p, x) && s in g.cell && g.cell[s].color == BLACK && g.cell[p].color == RED && p != g.root
    ensures ClimbEnd(g, x) == if BlackChildren(g, s) then AtRed else TurnEnd(g, p, x, s, true)
  {
    assert Hangs(g, x);
  }

  /** After the rotation x lies below the red p, beside s's old near child i. */
  lemma RedSiblingBelow<N>(g: Shape<N>, x: N, p: N, s: N)
    requires Deficit(g, x, p, s) && ColorOf(g, s) == RED && s in g.cell && Near(g, p, x, s) in g.cell
    ensures var h, i := SwapRotate(g, p, s), Near(g, p, x, s);
            && x in h.cell && h.root != x && h.cell[x].color == g.cell[x].color && h.cell[x].parent == p && p in h.cell
            && Sibling(h, p, x) == i && i in h.cell && h.cell[i].color == g.cell[i].color && h.cell[p].color == RED && h.root != p
            && (x == h.cell[p].left <==> x == g.cell[p].left) && h.cell[x].lo == g.cell[x].lo && h.cell[x].hi == g.cell[x].hi
  {
    RedSiblingPlace(g, x, p, s);
    NodeFacts(g, p);
    NodeFacts(g, s);
    NodeFacts(g, x);
    NodeFacts(g, Near(g, p, x, s));
    hide Deficit, Linked;
  }

  /** The children of i stay on their sides and keep their colours. */
  lemma RedSiblingNephews<N>(g: Shape<N>, x: N, p: N, s: N)
    requires Deficit(g, x, p, s) && ColorOf(g, s) == RED && s in g.cell && Near(g, p, x, s) in g.cell
    ensures var h, i := SwapRotate(g, p, s), Near(g, p, x, s);
            && p in h.cell && i in h.cell
            && Near(h, p, x, i) == Near(g, p, x, i) && Far(h, p, x, i) == Far(g, p, x, i)
            && ChildSame(g, h, Near(g, p, x, i)) && ColorSame(g, h, Far(g, p, x, i))
  {
    SiblingPlace(g, x, p, s);
    var i := Near(g, p, x, s);
    assert Hangs(g, p) && Hangs(g, s) && Hangs(g, x) && Hangs(g, i);
    SwapRotateOther(g, p, s, i);
    if g.cell[i].left in g.cell { SwapRotateOther(g, p, s, g.cell[i].left); }
    if g.cell[i].right in g.cell { SwapRotateOther(g, p, s, g.cell[i].right); }
    if Near(g, p, x, i) in g.cell {
      PaintLinked(g, map[s := ColorOf(g, p), p := RED]);
      RotatePlaced(SwapPaint(g, p, s), p, s, Near(g, p, x, i));
    }
  }

  // ---------- the double rotation ----------

  lemma DoubleRedOk<N>(g: Shape<N>, x: N, p: N, s: N, i: N, n: N)
    requires Level(g, x, p, s) && i == Near(g, p, x, s) && ColorOf(g, i) == RED && IsChild(g, s, i) && n in g.cell && n != x
    requires ColorOf(g, Far(g, p, x, s)) == BLACK
    ensures RedOk(SwapRotate(g, s, i), n, g.leaf)
  {
    SiblingPlace(g, x, p, s);
    NodeFacts(g, s);
    NodeFacts(g, i);
    assert n != x ==> RedOk(g, n, g.leaf);
    assert i != x && RedOk(g, i, g.leaf) by { NodeFacts(g, p); }
    if n == s || n == i {
      SwapRotatePivots(g, s, i);
      DoubleColors(g, s, i);
      hide Linked, SwapRotate;
    } else {
      SwapRotateOther(g, s, i, n);
      SwapRotateColor(g, s, i, g.cell[n].left);
      SwapRotateColor(g, s, i, g.cell[n].right);
      hide Linked, SwapRotate;
    }
  }

  lemma DoubleColors<N>(g: Shape<N>, s: N, i: N)
    requires Linked(g) && IsChild(g, s, i)
    ensures forall n :: n != s && n != i ==> ColorOf(SwapRotate(g, s, i), n) == ColorOf(g, n)
  {}

  lemma SwapRotateColor<N>(g: Shape<N>, x: N, y: N, n: N)
    requires x in g.cell && y in g.cell && x != y
    ensures ColorOf(SwapRotate(g, x, y), n) == if n == x then RED else if n == y then g.cell[x].color else ColorOf(g, n)
  {}

  lemma DoubleLinks<N>(g: Shape<N>, x: N, p: N, s: N, i: N)
    requires Level(g, x, p, s) && i == Near(g, p, x, s) && ColorOf(g, i) == RED && ColorOf(g, Far(g, p, x, s)) == BLACK
    ensures IsChild(g, s, i) && s != g.root && x != s && x != i && p != s && p != i && s != i
    ensures var h := SwapRotate(g, s, i);
            && h.cell.Keys == g.cell.Keys && h.root == g.root && ColorOf(h, h.root) == ColorOf(g, g.root)
            && h.cell[x].color == BLACK && h.cell[x].parent == p && IsChild(h, p, x) && Sibling(h, p, x) == i
            && h.cell[p].color == g.cell[p].color && h.cell[i].color == BLACK && h.cell[s].color == RED
            && Far(h, p, x, i) == s && Far(h, p, x, s) == Far(g, p, x, s)
            && (x == h.cell[p].left <==> x == g.cell[p].left)
  {
    SiblingPlace(g, x, p, s);
    NodeFacts(g, p);
    NodeFacts(g, s);
    NodeFacts(g, x);
    NodeFacts(g, i);
    hide Linked;
  }

  /** Rotating the red near nephew i above the sibling s leaves x beside the black i, whose far child s is red. */
  lemma DoubleStep<N>(g: Shape<N>, x: N, p: N, s: N, i: N)
    requires Level(g, x, p, s) && i == Near(g, p, x, s) && ColorOf(g, i) == RED && ColorOf(g, Far(g, p, x, s)) == BLACK
    ensures IsChild(g, s, i) && SwapPaint(g, s, i) == Paint(g, map[i := BLACK, s := RED])
    ensures var h := SwapRotate(g, s, i);
            FarRed(h, x, p, i, s) && h.cell[p].color == g.cell[p].color && Counts(TreeOf(h), {x}) == Counts(TreeOf(g), {x})
  {
    DoubleLinks(g, x, p, s, i);
    SwapRotateDepths(g, {x}, s, i);
    forall n | n in g.cell && n != x ensures RedOk(SwapRotate(g, s, i), n, g.leaf) {
      DoubleRedOk(g, x, p, s, i, n);
    }
  }

  // ---------- the end of the loop ----------

  /** At most x breaks a colour rule: it may be red below a red parent, above a red child, or as the root. */
  ghost predicate Around<N>(g: Shape<N>, x: N) {
    && Linked(g) && (ColorOf(g, g.root) == BLACK || g.root == x)
    && forall n {:trigger RedOk(g, n, x)} :: n in g.cell && n != x ==> RedOk(g, n, x)
  }

  lemma BlackenRedOk<N>(g: Shape<N>, x: N, n: N)
    requires Around(g, x) && n in g.cell
    ensures RedOk(Blacken(g, x), n, g.leaf)
  {
    assert Hangs(g, n);
    if n != x { assert RedOk(g, n, x); }
  }

  /** The last statement of the fix-up restores the weak invariant. */
  lemma BlackenWeak<N>(g: Shape<N>, x: N)
    requires Around(g, x)
    ensures Weak(Blacken(g, x))
  {
    PaintLinked(g, map[x := BLACK]);
    forall n | n in g.cell ensures RedOk(Blacken(g, x), n, g.leaf) {
      BlackenRedOk(g, x, n);
    }
  }

  lemma BlackenBlack<N>(g: Shape<N>, x: N)
    requires ColorOf(g, x) == BLACK
    ensures Blacken(g, x) == g
  {
    assert Blacken(g, x).cell == g.cell;
  }

  lemma RootExtraSums<N>(g: Shape<N>, bs: Tally<N>, n: N)
    requires Linked(g) && g.root in g.cell && n in g.cell && Tallies(g, bs, {})
    ensures g.root in bs && Sums(g, bs[g.root := Plus(1, bs[g.root])], {g.root}, n)
  {
    assert Hangs(g, n) && Hangs(g, g.root) && Sums(g, bs, {}, n);
    if n == g.root {
      SumsShift(g, bs, {}, n, g, bs[n := Plus(1, bs[n])], {n}, 1);
    }
  }

  /** At the root the debt is everybody's: all counts are one short alike. */
  lemma RootExtra<N>(g: Shape<N>)
    requires Linked(g) && g.root in g.cell
    ensures Counts(TreeOf(g), {g.root}) == Plus(1, BlackDepths(TreeOf(g)))
  {
    var bs := TallyOf(g, {});
    TallyOfTallies(g, {});
    var cs := bs[g.root := Plus(1, bs[g.root])];
    forall n | n in g.cell ensures Sums(g, bs[g.root := Plus(1, bs[g.root])], {g.root}, n) {
      RootExtraSums(g, bs, n);
    }
    TallyCounts(g, cs, {g.root}, g.root);
  }

  lemma PlusAllEqual(k: int, s: seq<int>)
    requires AllEqual(Plus(k, s))
    ensures AllEqual(s)
  {
    assert forall i :: 0 <= i < |s| ==> s[i] == Plus(k, s)[i] - k;
  }

  lemma ClimbingAround<N>(g: Shape<N>, x: N)
    requires Climbing(g, x)
    ensures Around(g, x)
  {
    forall n | n in g.cell && n != x ensures RedOk(g, n, x) {
      assert RedOk(g, n, g.leaf);
    }
  }

  /**
   What a fix-up from x that ends in h does to the counts: it supplies the black that x stands for. At the root that
   means all counts are one less; with a double rotation below a red parent, one more in the slots of Lifting.
   */
  ghost predicate Settles<N>(g: Shape<N>, x: N, h: Shape<N>)
    requires Linked(g) && x in g.cell && Linked(h)
  {
    var before, after := Counts(TreeOf(g), {x}), BlackDepths(TreeOf(h));
    match ClimbEnd(g, x)
    case AtRoot => Plus(1, after) == before
    case AtRed => after == before
    case Rightly => after == before
    case Lifting(lo, hi) => after == Lift(before, lo, hi)
    case AtSentinel => true
  }

  /** So the counts become equal exactly when they would be with the missing black, or do not where slots are lifted. */
  lemma SettlesBalanced<N>(g: Shape<N>, x: N, h: Shape<N>)
    requires Linked(g) && x in g.cell && Linked(h) && Settles(g, x, h) && !Stuck(g, x)
    ensures !Breaks(g, x) ==> (Balanced(h) <==> AllEqual(Counts(TreeOf(g), {x})))
    ensures Breaks(g, x) && AllEqual(Counts(TreeOf(g), {x})) ==> !Balanced(h)
  {
    var before, after := Counts(TreeOf(g), {x}), BlackDepths(TreeOf(h));
    if ClimbEnd(g, x).AtRoot? {
      if AllEqual(before) { PlusAllEqual(1, after); }
    }
    if ClimbEnd(g, x).Lifting? && AllEqual(before) {
      LiftProper(g, x);
      CountsSize(TreeOf(g), {x});
      TreeInOrder(g);
      LiftUneven(before, ClimbEnd(g, x).lo, ClimbEnd(g, x).hi);
    }
  }

  /** The slots lifted are some, but not all. */
  lemma {:induction false} LiftProper<N>(g: Shape<N>, x: N)
    requires Linked(g) && Breaks(g, x)
    ensures var e := ClimbEnd(g, x); 0 <= e.lo < e.hi <= |g.order| + 1 && e.hi - e.lo <= |g.order|
    decreases if x in g.cell then |g.order| - (g.cell[x].hi - g.cell[x].lo) else 0
  {
    NodeFacts(g, x);
    var p := g.cell[x].parent;
    NodeFacts(g, p);
    var s := Sibling(g, p, x);
    NodeFacts(g, s);
    if g.cell[s].color == RED {
      LiftInside(g, p, x, Near(g, p, x, s));
    } else if BlackChildren(g, s) {
      LiftProper(g, p);
    } else {
      LiftInside(g, p, x, s);
    }
  }

  /** The near child of a node on the other side of p from x lies between them and has slots on both sides. */
  lemma LiftInside<N>(g: Shape<N>, p: N, x: N, s: N)
    requires Linked(g) && p in g.cell && x in g.cell && g.cell[x].parent == p && s in g.cell && Near(g, p, x, s) in g.cell
    requires if x == g.cell[p].left then g.cell[p].pos < g.cell[s].pos else g.cell[s].pos < g.cell[p].pos && x == g.cell[p].right
    requires g.cell[p].lo <= g.cell[s].lo && g.cell[s].hi <= g.cell[p].hi
    ensures var i := Near(g, p, x, s);
            0 <= LiftLo(g, p, x, i) < LiftHi(g, p, x, i) <= |g.order| + 1 && LiftHi(g, p, x, i) - LiftLo(g, p, x, i) <= |g.order|
  {
    NodeFacts(g, p);
    NodeFacts(g, x);
    NodeFacts(g, s);
    NodeFacts(g, Near(g, p, x, s));
    hide Linked;
  }

  /** The climb from x in g and the one from y in h come to the same. */
  ghost predicate SameClimb<N>(g: Shape<N>, x: N, h: Shape<N>, y: N) {
    && Linked(g) && x in g.cell && Linked(h) && y in h.cell && Counts(TreeOf(h), {y}) == Counts(TreeOf(g), {x})
    && ClimbEnd(h, y) == ClimbEnd(g, x)
  }

  lemma SameSettles<N>(g: Shape<N>, x: N, h: Shape<N>, y: N, r: Shape<N>)
    requires SameClimb(g, x, h, y) && Linked(r) && Settles(h, y, r)
    ensures Settles(g, x, r)
  {}

  lemma SameClimbTrans<N>(g: Shape<N>, x: N, h: Shape<N>, y: N, r: Shape<N>, z: N)
    requires SameClimb(g, x, h, y) && SameClimb(h, y, r, z)
    ensures SameClimb(g, x, r, z)
  {}

  lemma SameClimbParts<N>(g: Shape<N>, x: N, h: Shape<N>, y: N)
    requires SameClimb(g, x, h, y)
    ensures Linked(g) && x in g.cell && Linked(h) && y in h.cell && Stuck(h, y) == Stuck(g, x)
  {}

  lemma SameClimbSelf<N>(g: Shape<N>, x: N)
    requires Linked(g) && x in g.cell
    ensures SameClimb(g, x, g, x)
  {}

  /** A climb that ends at a red node or at the root ends well. */
  lemma ClimbEnds<N>(g: Shape<N>, x: N)
    requires Climbing(g, x) && (x == g.root || g.cell[x].color == RED)
    ensures Weak(Blacken(g, x)) && Settles(g, x, Blacken(g, x)) && !Stuck(g, x)
  {
    ClimbingAround(g, x);
    BlackenWeak(g, x);
    if g.cell[x].color == RED {
      BlackenCounts(g, x);
    } else {
      BlackenBlack(g, x);
      RootExtra(g);
    }
  }

  // ---------- the turns of the loop, as the code takes them ----------

  /** The links the code follows from x, its parent p and its sibling s. */
  lemma DeficitLinks<N>(g: Shape<N>, x: N, p: N, s: N)
    requires Deficit(g, x, p, s)
    ensures Linked(g) && x in g.cell && p in g.cell && s in g.cell && x != p && x != s && p != s
    ensures g.cell[x].parent == p && IsChild(g, p, s) && IsChild(g, p, x)
    ensures g.cell[s].left in g.cell || g.cell[s].left == g.leaf
    ensures g.cell[s].right in g.cell || g.cell[s].right == g.leaf
    ensures x == g.cell[p].left ==>
              s == g.cell[p].right && x != g.cell[p].right && Near(g, p, x, s) == g.cell[s].left && Far(g, p, x, s) == g.cell[s].right
    ensures x != g.cell[p].left ==>
              s == g.cell[p].left && x == g.cell[p].right && Near(g, p, x, s) == g.cell[s].right && Far(g, p, x, s) == g.cell[s].left
    ensures g.cell[s].color == BLACK ==> Level(g, x, p, s)
  {
    SiblingPlace(g, x, p, s);
    assert Hangs(g, p) && Hangs(g, s);
  }

  /** A black node of a climb that is not the root has a parent; its sibling may be the sentinel, and then the run is stuck. */
  lemma RisingLinks<N>(g: Shape<N>, x: N)
    requires Climbing(g, x) && x != g.root && g.cell[x].color == BLACK
    ensures Linked(g) && x in g.cell
    ensures var p := g.cell[x].parent; p in g.cell && Rising(g, x, p)
    ensures var p := g.cell[x].parent;
            var s := Sibling(g, p, x);
            && (s in g.cell || s == g.leaf) && (s == g.leaf ==> Stuck(g, x))
            && (x == g.cell[p].left ==> s == g.cell[p].right) && (x != g.cell[p].left ==> s == g.cell[p].left)
            && (s in g.cell && g.cell[s].color == BLACK ==> Level(g, x, p, s))
            && (s in g.cell && g.cell[s].color == RED && Near(g, p, x, s) in g.cell ==> Deficit(g, x, p, s))
            && (s in g.cell && g.cell[s].color == RED && Near(g, p, x, s) !in g.cell ==> Stuck(g, x))
  {
    assert Hangs(g, x);
    assert Hangs(g, g.cell[x].parent);
  }

  /** A red sibling without a child on x's side: the rotation takes place, and then the sibling is the sentinel. */
  lemma RedSiblingStuck<N>(g: Shape<N>, x: N, p: N, s: N)
    requires Rising(g, x, p) && s == Sibling(g, p, x) && s in g.cell && g.cell[s].color == RED
    ensures var m := Paint(g, map[s := BLACK, p := RED]);
            && Linked(m) && m.cell.Keys == g.cell.Keys && m.order == g.order && IsChild(m, p, s) && p != s
            && m.cell[p].left == g.cell[p].left && m.cell[p].right == g.cell[p].right
            && (x == g.cell[p].left ==> s == g.cell[p].right) && (x != g.cell[p].left ==> s == g.cell[p].left)
            && var h := Rotate(m, p, s);
            && h.cell.Keys == g.cell.Keys && h.cell[x].parent == p
            && (x == g.cell[p].left ==> h.cell[p].right == Near(g, p, x, s))
            && (x != g.cell[p].left ==> h.cell[p].left == Near(g, p, x, s))
            && (Near(g, p, x, s) in g.cell || Near(g, p, x, s) == g.leaf)
  {
    SiblingPlace(g, x, p, s);
    PaintLinked(g, map[s := BLACK, p := RED]);
    assert Hangs(g, p) && Hangs(g, s) && Hangs(g, x);
  }

  /** A red sibling. */
  lemma RedSiblingTurn<N>(g: Shape<N>, x: N, p: N, s: N)
    requires Deficit(g, x, p, s) && ColorOf(g, s) == RED
    ensures var m, i := Paint(g, map[s := BLACK, p := RED]), Near(g, p, x, s);
            && s in g.cell && Linked(m) && m.cell.Keys == g.cell.Keys && m.order == g.order
            && m.cell[p].left == g.cell[p].left && m.cell[p].right == g.cell[p].right
            && IsChild(m, p, s)
    ensures var h, i := SwapRotate(g, p, s), Near(g, p, x, s);
            && h == Rotate(Paint(g, map[s := BLACK, p := RED]), p, s)
            && Deficit(h, x, p, i) && ColorOf(h, i) == BLACK && h.order == g.order && h.cell.Keys == g.cell.Keys
            && SameClimb(g, x, h, x)
            && h.cell[x].lo == g.cell[x].lo && h.cell[x].hi == g.cell[x].hi
            && (x == h.cell[p].left <==> x == g.cell[p].left)
  {
    RedSiblingStep(g, x, p, s);
    RedSiblingFacts(g, x, p, s);
    RedSiblingEnd(g, x, p, s);
    PaintLinked(g, map[s := BLACK, p := RED]);
    RedSiblingKeys(g, x, p, s);
    hide Linked, ClimbEnd, Counts, TreeOf, Rotate, RedRuleBut, Paint;
  }

  lemma RedSiblingKeys<N>(g: Shape<N>, x: N, p: N, s: N)
    requires p in g.cell && s in g.cell && p != s
    ensures var m := Paint(g, map[s := BLACK, p := RED]);
            && m.cell.Keys == g.cell.Keys && m.order == g.order
            && m.cell[p].left == g.cell[p].left && m.cell[p].right == g.cell[p].right
            && Rotate(m, p, s).order == g.order && Rotate(m, p, s).cell.Keys == g.cell.Keys
  {}

  /** A black sibling with black children. */
  lemma MoveUpTurn<N>(g: Shape<N>, x: N, p: N, s: N)
    requires Level(g, x, p, s)
    requires ColorOf(g, g.cell[s].left) == BLACK && ColorOf(g, g.cell[s].right) == BLACK
    ensures var h := Paint(g, map[s := RED]);
            && Climbing(h, p) && Linked(h) && SameClimb(g, x, h, p) && h.order == g.order && h.cell.Keys == g.cell.Keys
            && h.cell[p].hi - h.cell[p].lo > g.cell[x].hi - g.cell[x].lo
  {
    MoveUpStep(g, x, p, s);
    MoveUpEnd(g, x, p, s);
  }

  lemma EndHere<N>(g: Shape<N>, x: N, p: N, s: N)
    requires Level(g, x, p, s)
    requires !(ColorOf(g, g.cell[s].left) == BLACK && ColorOf(g, g.cell[s].right) == BLACK)
    ensures ClimbEnd(g, x) == TurnEnd(g, p, x, s, g.cell[p].color == RED) != AtSentinel
  {
    assert Hangs(g, x);
  }

  /** A black sibling with a red far child. */
  lemma FarTurn<N>(g: Shape<N>, x: N, p: N, s: N)
    requires Level(g, x, p, s) && ColorOf(g, Far(g, p, x, s)) == RED
    ensures var t, c := Far(g, p, x, s), g.cell[p].color;
            var m := LastPaint(g, p, s, t, c, BLACK);
            && HandDown(g, s, p, t) == m
            && t in g.cell && t != s && t != p && Linked(m) && m.cell.Keys == g.cell.Keys && m.order == g.order && IsChild(m, p, s)
            && m.cell[p].left == g.cell[p].left && m.cell[p].right == g.cell[p].right
            && Weak(Rotate(m, p, s)) && x in g.cell && Settles(g, x, Rotate(m, p, s)) && !Stuck(g, x)
  {
    FarTurnLinks(g, x, p, s);
    FarTurnEnds(g, x, p, s);
    hide *;
  }

  lemma FarTurnLinks<N>(g: Shape<N>, x: N, p: N, s: N)
    requires Level(g, x, p, s) && ColorOf(g, Far(g, p, x, s)) == RED
    ensures var t, c := Far(g, p, x, s), g.cell[p].color;
            var m := LastPaint(g, p, s, t, c, BLACK);
            && HandDown(g, s, p, t) == m
            && t in g.cell && t != s && t != p && Linked(m) && m.cell.Keys == g.cell.Keys && m.order == g.order && IsChild(m, p, s)
            && m.cell[p].left == g.cell[p].left && m.cell[p].right == g.cell[p].right
  {
    var t := Far(g, p, x, s);
    FarRedFacts(g, x, p, s, t);
    LastLinked(g, x, p, s, t, g.cell[p].color, BLACK);
    HandDownFar(g, s, p, t);
  }

  lemma FarTurnEnds<N>(g: Shape<N>, x: N, p: N, s: N)
    requires Level(g, x, p, s) && ColorOf(g, Far(g, p, x, s)) == RED
    ensures var m := LastPaint(g, p, s, Far(g, p, x, s), g.cell[p].color, BLACK);
            p in m.cell && s in m.cell && Weak(Rotate(m, p, s)) && x in g.cell && Settles(g, x, Rotate(m, p, s)) && !Stuck(g, x)
  {
    var t := Far(g, p, x, s);
    LastWeak(g, x, p, s, t, g.cell[p].color, BLACK);
    LastCounts(g, x, p, s, t);
    EndHere(g, x, p, s);
    FarIsRed(g, p, x, s);
    hide Linked, TreeOf, ClimbEnd, TurnEnd, RedRule;
  }

  lemma FarIsRed<N>(g: Shape<N>, p: N, x: N, s: N)
    requires p in g.cell && x in g.cell && s in g.cell && ColorOf(g, Far(g, p, x, s)) == RED
    ensures TurnEnd(g, p, x, s, true) == Rightly == TurnEnd(g, p, x, s, false)
  {}

  /** A black sibling with a red near and a black far child: the double rotation, with the colours the code gives. */
  lemma DoubleTurn<N>(g: Shape<N>, x: N, p: N, s: N)
    requires Level(g, x, p, s) && InnerNephew(g, p, x, s)
    ensures var i := Near(g, p, x, s);
            var m := Paint(g, map[i := BLACK, s := RED]);
            && i in g.cell && i != s && Linked(m) && IsChild(m, s, i) && m.cell.Keys == g.cell.Keys && m.order == g.order
            && m.cell[s].left == g.cell[s].left && m.cell[s].right == g.cell[s].right
            && Rotate(m, s, i) == SwapRotate(g, s, i)
    ensures var i := Near(g, p, x, s);
            var h := SwapRotate(g, s, i);
            && FarRed(h, x, p, i, s) && h.cell[p].color == g.cell[p].color && h.order == g.order && h.cell.Keys == g.cell.Keys
            && Counts(TreeOf(h), {x}) == Counts(TreeOf(g), {x})
            && (x == h.cell[p].left <==> x == g.cell[p].left) && h.cell[s].parent == i
            && ColorOf(h, Far(h, p, x, s)) == BLACK && Far(h, p, x, i) == s
  {
    var i := Near(g, p, x, s);
    DoubleLinks(g, x, p, s, i);
    DoubleStep(g, x, p, s, i);
    PaintLinked(g, map[i := BLACK, s := RED]);
    var h := SwapRotate(g, s, i);
    FarRedFacts(h, x, p, i, s);
    DoubleFar(g, x, p, s);
  }

  lemma DoubleFar<N>(g: Shape<N>, x: N, p: N, s: N)
    requires Level(g, x, p, s) && InnerNephew(g, p, x, s)
    ensures var i := Near(g, p, x, s);
            IsChild(g, s, i) && ColorOf(SwapRotate(g, s, i), Far(g, p, x, s)) == BLACK
  {
    var i := Near(g, p, x, s);
    DoubleLinks(g, x, p, s, i);
    assert Hangs(g, s);
  }

  lemma DoubleApart<N>(h: Shape<N>, x: N, p: N, s: N, i: N)
    requires FarRed(h, x, p, i, s)
    ensures Far(h, p, x, s) != s && i != s && i != p && p != s
    ensures Far(h, p, x, s) in h.cell || Far(h, p, x, s) == h.leaf
  {
    FarRedFacts(h, x, p, i, s);
    assert Hangs(h, s);
  }

  /** How the double rotation ends: rightly only below a black parent. */
  lemma DoubleEnd<N>(g: Shape<N>, h: Shape<N>, x: N, p: N, s: N, i: N)
    requires Level(g, x, p, s) && InnerNephew(g, p, x, s) && FarRed(h, x, p, i, s) && h.cell[p].color == g.cell[p].color
    requires ColorOf(h, Far(h, p, x, s)) == BLACK && Counts(TreeOf(h), {x}) == Counts(TreeOf(g), {x})
    requires i == Near(g, p, x, s) && s in g.cell && i in g.cell && h == SwapRotate(g, s, i)
    ensures var m := LastPaint(h, p, i, s, BLACK, h.cell[p].color);
            && HandDown(h, s, p, Far(h, p, x, s)) == m
            && Linked(m) && IsChild(m, p, i) && m.cell.Keys == h.cell.Keys && m.order == h.order
            && m.cell[p].left == h.cell[p].left && m.cell[p].right == h.cell[p].right
            && Weak(Rotate(m, p, i)) && x in g.cell && Settles(g, x, Rotate(m, p, i)) && !Stuck(g, x)
  {
    DoubleEndLinks(h, x, p, s, i);
    DoubleEndSettles(g, h, x, p, s, i);
    hide *;
  }

  lemma DoubleEndLinks<N>(h: Shape<N>, x: N, p: N, s: N, i: N)
    requires FarRed(h, x, p, i, s) && ColorOf(h, Far(h, p, x, s)) == BLACK
    ensures var m := LastPaint(h, p, i, s, BLACK, h.cell[p].color);
            && HandDown(h, s, p, Far(h, p, x, s)) == m
            && Linked(m) && IsChild(m, p, i) && m.cell.Keys == h.cell.Keys && m.order == h.order
            && m.cell[p].left == h.cell[p].left && m.cell[p].right == h.cell[p].right
  {
    FarRedFacts(h, x, p, i, s);
    LastLinked(h, x, p, i, s, BLACK, h.cell[p].color);
    DoubleApart(h, x, p, s, i);
    HandDownInner(h, s, p, Far(h, p, x, s), i);
    hide FarRed, Linked, HandDown;
  }

  lemma DoubleEndSettles<N>(g: Shape<N>, h: Shape<N>, x: N, p: N, s: N, i: N)
    requires Level(g, x, p, s) && InnerNephew(g, p, x, s) && FarRed(h, x, p, i, s) && h.cell[p].color == g.cell[p].color
    requires Counts(TreeOf(h), {x}) == Counts(TreeOf(g), {x}) && i == Near(g, p, x, s) && s in g.cell && i in g.cell && h == SwapRotate(g, s, i)
    ensures var m := LastPaint(h, p, i, s, BLACK, h.cell[p].color);
            && p in m.cell && i in m.cell
            && Weak(Rotate(m, p, i)) && x in g.cell && Settles(g, x, Rotate(m, p, i)) && !Stuck(g, x)
  {
    hide *;
    LevelParts(g, x, p, s);
    FarRedNodes(h, x, p, i, s);
    EitherColor(h, p);
    LastWeak(h, x, p, i, s, BLACK, h.cell[p].color);
    InnerHere(g, x, p, s);
    InnerTurn(g, p, x, s);
    DoubleEndCounts(g, h, x, p, s, i);
    LastAsRotate(h, p, i, s, BLACK, h.cell[p].color);
    SettlesIntro(g, x, LastRotate(h, p, i, s, BLACK, h.cell[p].color));
  }

  lemma EitherColor<N>(g: Shape<N>, p: N)
    requires p in g.cell
    ensures LastColors(g, p, BLACK, g.cell[p].color)
  {}

  lemma InnerHere<N>(g: Shape<N>, x: N, p: N, s: N)
    requires Level(g, x, p, s) && InnerNephew(g, p, x, s)
    ensures Linked(g) && x in g.cell && p in g.cell && s in g.cell
    ensures ClimbEnd(g, x) == TurnEnd(g, p, x, s, g.cell[p].color == RED) != AtSentinel
  {
    EndHere(g, x, p, s);
  }

  lemma LastAsRotate<N>(g: Shape<N>, p: N, q: N, t: N, top: Color, far: Color)
    requires p in g.cell && q in g.cell
    ensures LastPaint(g, p, q, t, top, far).cell.Keys == g.cell.Keys
    ensures LastRotate(g, p, q, t, top, far) == Rotate(LastPaint(g, p, q, t, top, far), p, q)
  {}

  lemma SettlesIntro<N>(g: Shape<N>, x: N, h: Shape<N>)
    requires Linked(g) && x in g.cell && Linked(h)
    requires var e, c, d := ClimbEnd(g, x), Counts(TreeOf(g), {x}), BlackDepths(TreeOf(h));
             (e == Rightly && d == c) || (e.Lifting? && d == Lift(c, e.lo, e.hi))
    ensures Settles(g, x, h) && !Stuck(g, x)
  {
    hide Linked, ClimbEnd, TreeOf;
  }

  lemma InnerTurn<N>(g: Shape<N>, p: N, x: N, s: N)
    requires p in g.cell && x in g.cell && s in g.cell && InnerNephew(g, p, x, s) && Near(g, p, x, s) in g.cell
    ensures var i := Near(g, p, x, s);
            && TurnEnd(g, p, x, s, true) == Lifting(LiftLo(g, p, x, i), LiftHi(g, p, x, i))
            && TurnEnd(g, p, x, s, false) == Rightly
  {}

  lemma DoubleEndCounts<N>(g: Shape<N>, h: Shape<N>, x: N, p: N, s: N, i: N)
    requires Level(g, x, p, s) && InnerNephew(g, p, x, s) && FarRed(h, x, p, i, s) && h.cell[p].color == g.cell[p].color
    requires Counts(TreeOf(h), {x}) == Counts(TreeOf(g), {x}) && i == Near(g, p, x, s) && s in g.cell && i in g.cell && h == SwapRotate(g, s, i)
    ensures p in h.cell && i in h.cell && x in g.cell && p in g.cell && Linked(g)
    ensures var w, c := LastRotate(h, p, i, s, BLACK, h.cell[p].color), Counts(TreeOf(g), {x});
            && Linked(w)
            && BlackDepths(TreeOf(w)) == if g.cell[p].color == RED then Lift(c, LiftLo(g, p, x, i), LiftHi(g, p, x, i)) else c
  {
    hide *;
    FarRedNodes(h, x, p, i, s);
    LevelParts(g, x, p, s);
    DoubleSpan(g, x, p, s, i);
    if h.cell[p].color == BLACK {
      LastCounts(h, x, p, i, s);
    } else {
      LastLifts(h, x, p, i, s);
    }
  }

  /** The first of the two rotations moves no positions, so the slots the second one lifts can be read off before. */
  lemma DoubleSpan<N>(g: Shape<N>, x: N, p: N, s: N, i: N)
    requires Level(g, x, p, s) && InnerNephew(g, p, x, s) && i == Near(g, p, x, s)
    ensures x in g.cell && i in g.cell && i in SwapRotate(g, s, i).cell && p in SwapRotate(g, s, i).cell && x in SwapRotate(g, s, i).cell
    ensures var h := SwapRotate(g, s, i);
            LiftLo(h, p, x, i) == LiftLo(g, p, x, i) && LiftHi(h, p, x, i) == LiftHi(g, p, x, i)
  {
    DoubleLinks(g, x, p, s, i);
    PaintLinked(g, map[i := ColorOf(g, s), s := RED]);
    RotatePlaced(SwapPaint(g, s, i), s, i, i);
  }


  lemma LevelDeficit<N>(g: Shape<N>, x: N, p: N, s: N)
    requires Level(g, x, p, s)
    ensures Deficit(g, x, p, s) && g.cell[s].color == BLACK
  {}

  lemma InnerNephewHere<N>(g: Shape<N>, p: N, x: N, s: N)
    requires p in g.cell && s in g.cell && ColorOf(g, Near(g, p, x, s)) == RED && ColorOf(g, Far(g, p, x, s)) == BLACK
    ensures InnerNephew(g, p, x, s)
  {}

  /** The links the code follows after the first of the two rotations. */
  lemma FarRedParts<N>(g: Shape<N>, x: N, p: N, i: N, s: N)
    requires FarRed(g, x, p, i, s)
    ensures Linked(g) && p in g.cell && i in g.cell && s in g.cell && g.cell[s].parent == i
    ensures x == g.cell[p].left ==> g.cell[i].right == s && g.cell[p].right == i && Far(g, p, x, s) == g.cell[s].right
    ensures x != g.cell[p].left ==> g.cell[i].left == s && g.cell[p].left == i && Far(g, p, x, s) == g.cell[s].left
    ensures Far(g, p, x, s) in g.cell || Far(g, p, x, s) == g.leaf
  {
    FarRedFacts(g, x, p, i, s);
    DoubleApart(g, x, p, s, i);
    assert Hangs(g, p);
  }

  lemma WeakLinked<N>(g: Shape<N>)
    requires Weak(g)
    ensures Linked(g) && (g.root in g.cell || g.root == g.leaf)
  {}

  // ---------- the loop ----------

  /** The loop's guard. */
  ghost predicate Enters<N>(g: Shape<N>, x: N) {
    x in g.cell && x != g.root && g.cell[x].color == BLACK
  }

  /** What is left to climb. */
  ghost function Rise<N>(g: Shape<N>, x: N): int {
    if x in g.cell && x != g.root then |g.order| + 1 - (g.cell[x].hi - g.cell[x].lo) else 0
  }

  lemma RisePositive<N>(g: Shape<N>, x: N)
    requires Linked(g) && x in g.cell && x != g.root
    ensures Rise(g, x) > 0 && Rise(g, x) == |g.order| + 1 - (g.cell[x].hi - g.cell[x].lo)
  {}

  lemma RiseBound<N>(g: Shape<N>, x: N)
    requires Linked(g) && x in g.cell
    ensures 0 <= Rise(g, x) <= |g.order| + 1 - (g.cell[x].hi - g.cell[x].lo)
  {}

  lemma EnterClimbing<N>(g: Shape<N>, x: N)
    requires Around(g, x) && Enters(g, x)
    ensures Climbing(g, x)
  {
    forall n | n in g.cell && n != x ensures RedOk(g, n, g.leaf) {
      assert RedOk(g, n, x);
    }
  }

  lemma EntersMeaning<N>(g: Shape<N>, x: N)
    requires Linked(g)
    ensures Enters(g, x) <==> x in g.cell && x != g.root && g.cell[x].color == BLACK
    ensures Enters(g, x) ==> ColorOf(g, x) == BLACK
    ensures x in g.cell ==> ColorOf(g, x) == g.cell[x].color
    ensures x !in g.cell ==> ColorOf(g, x) == BLACK
    ensures x in g.cell ==> x != g.leaf
  {}

  lemma AroundLinked<N>(g: Shape<N>, x: N)
    requires Around(g, x)
    ensures Linked(g)
  {}

  lemma WeakRootBlack<N>(g: Shape<N>)
    requires Weak(g)
    ensures ColorOf(g, g.root) == BLACK
  {}

  lemma RiseRoot<N>(g: Shape<N>)
    ensures Rise(g, g.root) == 0
  {}

  lemma ClimbingParts<N>(g: Shape<N>, x: N)
    requires Climbing(g, x)
    ensures Linked(g) && x in g.cell
  {}

  /** Only a climb that enters the loop can get stuck. */
  lemma StuckEnters<N>(g: Shape<N>, x: N)
    requires Linked(g) && !Enters(g, x)
    ensures !Stuck(g, x)
  {}

  /** Where x is exactly one black short in an otherwise balanced tree, the climb never gets stuck. */
  lemma {:induction false} OneShortNotStuck<N>(g: Shape<N>, x: N)
    requires Climbing(g, x) && AllEqual(Counts(TreeOf(g), {x}))
    ensures !Stuck(g, x)
    decreases |g.order| - (g.cell[x].hi - g.cell[x].lo)
  {
    if x != g.root && g.cell[x].color == BLACK {
      RisingLinks(g, x);
      var p := g.cell[x].parent;
      var s := Sibling(g, p, x);
      SiblingExists(g, x, p, s);
      if g.cell[s].color == RED {
        RedSiblingPlace(g, x, p, s);
        EndRed(g, x, p, s);
      } else if ColorOf(g, g.cell[s].left) == BLACK && ColorOf(g, g.cell[s].right) == BLACK {
        MoveUpTurn(g, x, p, s);
        OneShortNotStuck(Paint(g, map[s := RED]), p);
      } else {
        EndHere(g, x, p, s);
      }
    }
  }
}
