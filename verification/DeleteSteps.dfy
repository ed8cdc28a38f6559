/** The steps of the deletion fix-up, on shapes. The current node x stands for one more black than it shows. */
module DeleteSteps {
  import opened Nodes
  import opened Shapes
  import opened BlackCounts
  import opened Trees
  import opened ShapeTrees
  import opened RotationCounts
  import opened ColorRules
  import opened InsertSteps

  /** No red node other than x has a red child. */
  ghost predicate RedRuleBut<N>(g: Shape<N>, x: N) {
    forall n {:trigger RedOk(g, n, g.leaf)} :: n in g.cell && n != x ==> RedOk(g, n, g.leaf)
  }

  /** Where the fix-up stands at x: no colour rule is broken, except that x may be red above a red child. */
  ghost predicate Climbing<N>(g: Shape<N>, x: N) {
    Linked(g) && x in g.cell && RedRuleBut(g, x) && ColorOf(g, g.root) == BLACK
  }

  /** The loop goes on: x is black and not the root; p is its parent. */
  ghost predicate Rising<N>(g: Shape<N>, x: N, p: N) {
    && Climbing(g, x) && g.cell[x].color == BLACK && x != g.root
    && p == g.cell[x].parent && IsChild(g, p, x)
  }

  /** And x's sibling s is a node, with, if it is red, a child on x's side: so the code finds nodes where it looks. */
  ghost predicate Deficit<N>(g: Shape<N>, x: N, p: N, s: N) {
    && Rising(g, x, p) && s == Sibling(g, p, x) && s in g.cell
    && (g.cell[s].color == RED ==> Near(g, p, x, s) in g.cell)
  }

  /** The child of s on the same side as x below p, and the one on the far side. */
  ghost function Near<N>(g: Shape<N>, p: N, x: N, s: N): N
    requires p in g.cell && s in g.cell
  {
    if g.cell[p].left == x then g.cell[s].left else g.cell[s].right
  }

  ghost function Far<N>(g: Shape<N>, p: N, x: N, s: N): N
    requires p in g.cell && s in g.cell
  {
    if g.cell[p].left == x then g.cell[s].right else g.cell[s].left
  }

  // ---------- equal counts, seen from inside the tree ----------

  lemma {:induction false} CountsNonNegative<N>(t: Tree<N>, extra: set<N>, i: int)
    requires 0 <= i < |Counts(t, extra)|
    ensures Counts(t, extra)[i] >= 0
  {
    match t
    case Leaf =>
    case Branch(l, n, c, r) =>
      if i < |Counts(l, extra)| { CountsNonNegative(l, extra, i); }
      else { CountsNonNegative(r, extra, i - |Counts(l, extra)|); }
  }

  lemma {:induction false} EqualBelow<N>(g: Shape<N>, extra: set<N>, c: N, n: N)
    requires Linked(g) && Covers(g, c, n) && AllEqual(Counts(Subtree(g, c), extra))
    ensures AllEqual(Counts(Subtree(g, n), extra))
    decreases g.cell[c].hi - g.cell[c].lo
  {
    if c != n {
      assert Hangs(g, c);
      CoversChild(g, c, n);
      assert g.cell[n].pos != g.cell[c].pos;
      EqualParts(Weight(c, g.cell[c].color, extra), Counts(Subtree(g, g.cell[c].left), extra), Counts(Subtree(g, g.cell[c].right), extra));
      EqualBelow(g, extra, if g.cell[n].pos < g.cell[c].pos then g.cell[c].left else g.cell[c].right, n);
    }
  }

  lemma EqualInside<N>(g: Shape<N>, extra: set<N>, n: N)
    requires Linked(g) && n in g.cell && AllEqual(Counts(TreeOf(g), extra))
    ensures AllEqual(Counts(Subtree(g, n), extra))
  {
    EqualBelow(g, extra, g.root, n);
  }

  /** The count of the leftmost path below c: when all counts are equal, the black height. */
  ghost function First<N>(g: Shape<N>, extra: set<N>, c: N): int
    requires Linked(g) && (c == g.leaf || c in g.cell)
  {
    CountsSize(Subtree(g, c), extra);
    Counts(Subtree(g, c), extra)[0]
  }

  lemma FirstSplit<N>(g: Shape<N>, extra: set<N>, n: N)
    requires Linked(g) && n in g.cell && AllEqual(Counts(TreeOf(g), extra))
    ensures var c := g.cell[n];
            && (c.left == g.leaf || c.left in g.cell) && (c.right == g.leaf || c.right in g.cell)
            && First(g, extra, n) == Weight(n, c.color, extra) + First(g, extra, c.left)
            && First(g, extra, n) == Weight(n, c.color, extra) + First(g, extra, c.right)
  {
    assert Hangs(g, n);
    var l, r := Subtree(g, g.cell[n].left), Subtree(g, g.cell[n].right);
    EqualInside(g, extra, n);
    CountsSize(l, extra);
    CountsSize(r, extra);
    EqualParts(Weight(n, g.cell[n].color, extra), Counts(l, extra), Counts(r, extra));
  }

  lemma FirstBounds<N>(g: Shape<N>, extra: set<N>, c: N)
    requires Linked(g) && (c == g.leaf || c in g.cell)
    ensures First(g, extra, c) >= 0 && First(g, extra, g.leaf) == 0
  {
    CountsSize(Subtree(g, c), extra);
    CountsNonNegative(Subtree(g, c), extra, 0);
  }

  /** The sibling of a node that is one black short exists, and so do the children of a red sibling. */
  lemma SiblingExists<N>(g: Shape<N>, x: N, p: N, s: N)
    requires Rising(g, x, p) && s == Sibling(g, p, x) && AllEqual(Counts(TreeOf(g), {x}))
    ensures Deficit(g, x, p, s)
  {
    assert Hangs(g, p);
    FirstSplit(g, {x}, p);
    FirstSplit(g, {x}, x);
    FirstBounds(g, {x}, g.cell[x].left);
    assert s != g.leaf;
    FirstSplit(g, {x}, s);
  }

  lemma SiblingPlace<N>(g: Shape<N>, x: N, p: N, s: N)
    requires Rising(g, x, p) && s == Sibling(g, p, x) && s in g.cell
    ensures IsChild(g, p, s) && s != x && s != p && x != p && g.cell[s].parent == p
  {
    assert Hangs(g, p) && Hangs(g, x) && Hangs(g, s);
  }

  // ---------- paying the debt by painting ----------

  lemma RepaintTallies<N>(g: Shape<N>, bs: Tally<N>, x: N)
    requires Linked(g) && x in g.cell && g.cell[x].color == RED && Tallies(g, bs, {x})
    ensures Tallies(Blacken(g, x), bs, {})
  {
    forall n | n in g.cell ensures Sums(Blacken(g, x), bs, {}, n) {
      assert Sums(g, bs, {x}, n);
    }
  }

  /** Blackening a short red node pays its debt. */
  lemma BlackenCounts<N>(g: Shape<N>, x: N)
    requires Linked(g) && x in g.cell && g.cell[x].color == RED
    ensures Linked(Blacken(g, x)) && BlackDepths(TreeOf(Blacken(g, x))) == Counts(TreeOf(g), {x})
  {
    var bs := TallyOf(g, {x});
    TallyOfTallies(g, {x});
    PaintLinked(g, map[x := BLACK]);
    RepaintTallies(g, bs, x);
    TallyCounts(Blacken(g, x), bs, {}, g.root);
  }

  // ---------- a red sibling: rotate it above the parent ----------

  lemma RedSiblingFacts<N>(g: Shape<N>, x: N, p: N, s: N)
    requires Deficit(g, x, p, s) && ColorOf(g, s) == RED
    ensures s in g.cell && g.cell[p].color == BLACK && ColorOf(g, Near(g, p, x, s)) == BLACK && Near(g, p, x, s) in g.cell
    ensures SwapPaint(g, p, s) == Paint(g, map[s := BLACK, p := RED])
  {
    SiblingPlace(g, x, p, s);
    assert Hangs(g, p) && RedOk(g, p, g.leaf) && RedOk(g, s, g.leaf);
  }

  lemma RedSiblingRedOk<N>(g: Shape<N>, x: N, p: N, s: N, n: N)
    requires Deficit(g, x, p, s) && ColorOf(g, s) == RED && s in g.cell && n in g.cell && n != x
    ensures RedOk(SwapRotate(g, p, s), n, g.leaf)
  {
    RedSiblingFacts(g, x, p, s);
    SiblingPlace(g, x, p, s);
    NodeFacts(g, p);
    NodeFacts(g, s);
    hide Linked;
    if n != p && n != s {
      SwapRotateOther(g, p, s, n);
      assert RedOk(g, n, g.leaf);
    }
  }

  /** After rotating a red sibling up, x still stands for one more black, below a red parent, beside its black near nephew. */
  lemma RedSiblingStep<N>(g: Shape<N>, x: N, p: N, s: N)
    requires Deficit(g, x, p, s) && ColorOf(g, s) == RED
    ensures s in g.cell && IsChild(g, p, s)
    ensures var h, i := SwapRotate(g, p, s), Near(g, p, x, s);
            && Deficit(h, x, p, i) && i in h.cell && h.cell[i].color == BLACK && h.cell[p].color == RED
            && Counts(TreeOf(h), {x}) == Counts(TreeOf(g), {x})
            && h.cell[x].lo == g.cell[x].lo && h.cell[x].hi == g.cell[x].hi
            && (x == h.cell[p].left <==> x == g.cell[p].left)
  {
    SiblingPlace(g, x, p, s);
    RedSiblingFacts(g, x, p, s);
    SwapRotateDepths(g, {x}, p, s);
    var h := SwapRotate(g, p, s);
    forall n | n in h.cell && n != x ensures RedOk(SwapRotate(g, p, s), n, g.leaf) {
      RedSiblingRedOk(g, x, p, s, n);
    }
    assert Hangs(g, p) && Hangs(g, s);
  }

  // ---------- a black sibling with black children: paint it red and move up ----------

  /** A black sibling. */
  ghost predicate Level<N>(g: Shape<N>, x: N, p: N, s: N) {
    Deficit(g, x, p, s) && s in g.cell && g.cell[s].color == BLACK
  }

  ghost function MoveUpTally<N>(bs: Tally<N>, x: N, s: N): Tally<N>
    requires x in bs && s in bs
  {
    bs[s := Plus(-1, bs[s])][x := Plus(-1, bs[x])]
  }

  lemma MoveUpSumsLow<N>(g: Shape<N>, bs: Tally<N>, x: N, p: N, s: N, n: N)
    requires Level(g, x, p, s) && Tallies(g, bs, {x}) && (n == x || n == s)
    ensures Sums(Paint(g, map[s := RED]), MoveUpTally(bs, x, s), {p}, n)
  {
    SiblingPlace(g, x, p, s);
    assert Hangs(g, p) && Hangs(g, n) && Sums(g, bs, {x}, n);
    var c := g.cell[n];
    assert c.left != x && c.left != s && c.right != x && c.right != s;
    PlusPlus(-1, Weight(n, c.color, {x}), At(bs, c.left) + At(bs, c.right));
  }

  lemma MoveUpSumsHigh<N>(g: Shape<N>, bs: Tally<N>, x: N, p: N, s: N)
    requires Level(g, x, p, s) && Tallies(g, bs, {x})
    ensures Sums(Paint(g, map[s := RED]), MoveUpTally(bs, x, s), {p}, p)
  {
    SiblingPlace(g, x, p, s);
    assert Hangs(g, p) && Sums(g, bs, {x}, p);
    var l, r := At(bs, g.cell[p].left), At(bs, g.cell[p].right);
    PlusConcat(-1, l, r);
    PlusPlus(Weight(p, g.cell[p].color, {p}), -1, l + r);
  }

  lemma MoveUpSumsOther<N>(g: Shape<N>, bs: Tally<N>, x: N, p: N, s: N, n: N)
    requires Level(g, x, p, s) && Tallies(g, bs, {x}) && n in g.cell && n != x && n != s && n != p
    ensures Sums(Paint(g, map[s := RED]), MoveUpTally(bs, x, s), {p}, n)
  {
    SiblingPlace(g, x, p, s);
    NodeFacts(g, n);
    SumsAt(g, bs, {x}, n);
    var h := Paint(g, map[s := RED]);
    assert n in h.cell && h.cell[n] == g.cell[n];
    hide Linked, Tallies, Paint, Level;
    assert g.cell[n].left != x && g.cell[n].left != s && g.cell[n].right != x && g.cell[n].right != s;
  }

  lemma MoveUpSums<N>(g: Shape<N>, bs: Tally<N>, x: N, p: N, s: N, n: N)
    requires Level(g, x, p, s) && Tallies(g, bs, {x}) && n in g.cell
    ensures Sums(Paint(g, map[s := RED]), MoveUpTally(bs, x, s), {p}, n)
  {
    if n == x || n == s {
      MoveUpSumsLow(g, bs, x, p, s, n);
    } else if n == p {
      MoveUpSumsHigh(g, bs, x, p, s);
    } else {
      MoveUpSumsOther(g, bs, x, p, s, n);
    }
  }

  lemma MoveUpFrame<N>(g: Shape<N>, bs: Tally<N>, x: N, p: N, s: N)
    requires Level(g, x, p, s) && bs.Keys == g.cell.Keys
    ensures x in bs && s in bs && MoveUpTally(bs, x, s).Keys == Paint(g, map[s := RED]).cell.Keys == g.cell.Keys
    ensures g.root in g.cell && At(MoveUpTally(bs, x, s), g.root) == At(bs, g.root)
    ensures Paint(g, map[s := RED]).root == g.root
  {
    SiblingPlace(g, x, p, s);
    assert g.root != s by { assert Hangs(g, s) && Hangs(g, p); }
  }

  lemma MoveUpTallies<N>(g: Shape<N>, bs: Tally<N>, x: N, p: N, s: N)
    requires Level(g, x, p, s) && Tallies(g, bs, {x})
    ensures x in bs && s in bs && Tallies(Paint(g, map[s := RED]), MoveUpTally(bs, x, s), {p})
  {
    MoveUpFrame(g, bs, x, p, s);
    forall n | n in g.cell ensures Sums(Paint(g, map[s := RED]), MoveUpTally(bs, x, s), {p}, n) {
      MoveUpSums(g, bs, x, p, s, n);
    }
  }

  lemma MoveUpCounts<N>(g: Shape<N>, x: N, p: N, s: N)
    requires Level(g, x, p, s)
    ensures Linked(Paint(g, map[s := RED]))
    ensures Counts(TreeOf(Paint(g, map[s := RED])), {p}) == Counts(TreeOf(g), {x})
  {
    hide *;
    LevelParts(g, x, p, s);
    var bs := TallyOf(g, {x});
    TallyOfTallies(g, {x});
    PaintLinked(g, map[s := RED]);
    MoveUpTallies(g, bs, x, p, s);
    TallyKeys(g, bs, {x});
    MoveUpFrame(g, bs, x, p, s);
    RootBounds(Paint(g, map[s := RED]));
    TallyCounts(Paint(g, map[s := RED]), MoveUpTally(bs, x, s), {p}, g.root);
  }

  lemma LevelParts<N>(g: Shape<N>, x: N, p: N, s: N)
    requires Level(g, x, p, s)
    ensures Linked(g) && x in g.cell && p in g.cell && s in g.cell
  {}

  lemma TallyKeys<N>(g: Shape<N>, bs: Tally<N>, extra: set<N>)
    requires Tallies(g, bs, extra)
    ensures bs.Keys == g.cell.Keys
  {}

  lemma MoveUpRedOk<N>(g: Shape<N>, x: N, p: N, s: N, n: N)
    requires Level(g, x, p, s) && n in g.cell && n != p
    requires ColorOf(g, g.cell[s].left) == BLACK && ColorOf(g, g.cell[s].right) == BLACK
    ensures RedOk(Paint(g, map[s := RED]), n, g.leaf)
  {
    SiblingPlace(g, x, p, s);
    assert Hangs(g, n) && Hangs(g, p);
    if n != x { assert RedOk(g, n, g.leaf); }
  }

  /** Now p stands for one more black than it shows. */
  lemma MoveUpStep<N>(g: Shape<N>, x: N, p: N, s: N)
    requires Level(g, x, p, s)
    requires ColorOf(g, g.cell[s].left) == BLACK && ColorOf(g, g.cell[s].right) == BLACK
    ensures Climbing(Paint(g, map[s := RED]), p) && Counts(TreeOf(Paint(g, map[s := RED])), {p}) == Counts(TreeOf(g), {x})
    ensures g.cell[p].hi - g.cell[p].lo > g.cell[x].hi - g.cell[x].lo
  {
    PaintLinked(g, map[s := RED]);
    MoveUpCounts(g, x, p, s);
    SiblingPlace(g, x, p, s);
    forall n | n in g.cell && n != p ensures RedOk(Paint(g, map[s := RED]), n, g.leaf) {
      MoveUpRedOk(g, x, p, s, n);
    }
    assert Hangs(g, p) && Hangs(g, s);
  }
}
