/** The tree a shape stands for, and how the shape's operations change its black counts. */
module ShapeTrees {
  import opened Shapes
  import opened BlackCounts
  import opened Trees

  /** The subtree at c, read off the links. */
  ghost function Subtree<N>(g: Shape<N>, c: N): Tree<N>
    requires Linked(g) && (c == g.leaf || c in g.cell)
    decreases if c == g.leaf then 0 else g.cell[c].hi - g.cell[c].lo
  {
    if c == g.leaf then Leaf
    else
      assert Hangs(g, c);
      Branch(Subtree(g, g.cell[c].left), c, g.cell[c].color, Subtree(g, g.cell[c].right))
  }

  ghost function TreeOf<N>(g: Shape<N>): Tree<N>
    requires Linked(g)
  {
    Subtree(g, g.root)
  }

  lemma Joined<T>(s: seq<T>, lo: int, pos: int, hi: int)
    requires 0 <= lo <= pos < hi <= |s|
    ensures s[lo..pos] + [s[pos]] + s[pos + 1..hi] == s[lo..hi]
  {}

  lemma SubtreeSplit<N>(g: Shape<N>, c: N)
    requires Linked(g) && c in g.cell
    ensures var d := g.cell[c];
            && (d.left == g.leaf || d.left in g.cell) && (d.right == g.leaf || d.right in g.cell)
            && Subtree(g, c) == Branch(Subtree(g, d.left), c, d.color, Subtree(g, d.right))
  {
    NodeFacts(g, c);
  }

  lemma LeafSubtree<N>(g: Shape<N>)
    requires Linked(g)
    ensures Subtree(g, g.leaf) == Leaf
  {}

  /** The intervals mean what they should: the in-order traversal of the links is order. */
  lemma {:induction false} SubtreeInOrder<N>(g: Shape<N>, c: N)
    requires Linked(g) && c in g.cell
    ensures InOrder(Subtree(g, c)) == g.order[g.cell[c].lo..g.cell[c].hi]
    decreases g.cell[c].hi - g.cell[c].lo
  {
    NodeFacts(g, c);
    var d := g.cell[c];
    SubtreeSplit(g, c);
    hide Linked, Subtree;
    if d.left != g.leaf { SubtreeInOrder(g, d.left); }
    if d.right != g.leaf { SubtreeInOrder(g, d.right); }
    LeafSubtree(g);
    assert InOrder(Subtree(g, d.left)) == g.order[d.lo..d.pos];
    assert InOrder(Subtree(g, d.right)) == g.order[d.pos + 1..d.hi];
    hide InOrder;
    InOrderOfBranch(Subtree(g, d.left), c, d.color, Subtree(g, d.right));
    Joined(g.order, d.lo, d.pos, d.hi);
  }

  lemma TreeInOrder<N>(g: Shape<N>)
    requires Linked(g)
    ensures InOrder(TreeOf(g)) == g.order
  {
    if g.root != g.leaf {
      SubtreeInOrder(g, g.root);
      assert g.order[0..|g.order|] == g.order;
    }
  }

  /** c roots the subtree that holds positions lo..hi-1. */
  ghost predicate Bounds<N>(g: Shape<N>, c: N, lo: int, hi: int) {
    if c == g.leaf then lo == hi else c in g.cell && g.cell[c].lo == lo && g.cell[c].hi == hi
  }

  /** Going down one link from c narrows the interval to one side of c's own position. */
  lemma Descend<N>(g: Shape<N>, c: N, lo: int, hi: int)
    requires Linked(g) && c in g.cell && Bounds(g, c, lo, hi)
    ensures var d := g.cell[c];
            && 0 <= lo <= d.pos < hi <= |g.order| && g.order[d.pos] == c
            && (d.left == g.leaf || d.left in g.cell) && (d.right == g.leaf || d.right in g.cell)
            && Bounds(g, d.left, lo, d.pos) && Bounds(g, d.right, d.pos + 1, hi)
            && (d.left == g.leaf ==> Free(g, c, true) && Slot(g, c, true) == lo)
            && (d.right == g.leaf ==> Free(g, c, false) && Slot(g, c, false) == hi)
            && Height(Subtree(g, d.left)) < Height(Subtree(g, c)) && Height(Subtree(g, d.right)) < Height(Subtree(g, c))
  {
    assert Hangs(g, c);
  }

  lemma RootBounds<N>(g: Shape<N>)
    requires Linked(g)
    ensures Bounds(g, g.root, 0, |g.order|) && (g.root == g.leaf || g.root in g.cell)
    ensures Subtree(g, g.root) == TreeOf(g)
  {
  }

  lemma EmptyShape<N>(g: Shape<N>)
    requires Linked(g) && g.root == g.leaf
    ensures g == Empty(g.leaf)
  {
    assert g.cell == map[];
  }

  lemma LeafBounds<N>(g: Shape<N>, lo: int, hi: int)
    requires Bounds(g, g.leaf, lo, hi)
    ensures lo == hi
  {
  }

  // ---------- tallies: the counts of every subtree at once ----------

  type Tally<N> = map<N, seq<int>>

  ghost function At<N>(bs: Tally<N>, c: N): seq<int> {
    if c in bs then bs[c] else [0]
  }

  ghost predicate Sums<N>(g: Shape<N>, bs: Tally<N>, extra: set<N>, n: N)
    requires n in g.cell && n in bs
  {
    bs[n] == Plus(Weight(n, g.cell[n].color, extra), At(bs, g.cell[n].left) + At(bs, g.cell[n].right))
  }

  /** bs gives the counts of every node of g. */
  ghost predicate Tallies<N>(g: Shape<N>, bs: Tally<N>, extra: set<N>) {
    bs.Keys == g.cell.Keys && forall n {:trigger Sums(g, bs, extra, n)} :: n in g.cell ==> Sums(g, bs, extra, n)
  }

  lemma SumsMeaning<N>(g: Shape<N>, bs: Tally<N>, extra: set<N>, n: N)
    requires n in g.cell && n in bs
    ensures Sums(g, bs, extra, n) <==>
            bs[n] == Plus(Weight(n, g.cell[n].color, extra), At(bs, g.cell[n].left) + At(bs, g.cell[n].right))
  {}

  lemma TalliesIntro<N>(g: Shape<N>, bs: Tally<N>, extra: set<N>)
    requires bs.Keys == g.cell.Keys && forall n {:trigger Sums(g, bs, extra, n)} :: n in g.cell ==> Sums(g, bs, extra, n)
    ensures Tallies(g, bs, extra)
  {
    hide Sums;
  }

  lemma SumsAt<N>(g: Shape<N>, bs: Tally<N>, extra: set<N>, n: N)
    requires Tallies(g, bs, extra) && n in g.cell
    ensures bs.Keys == g.cell.Keys && Sums(g, bs, extra, n)
  {}

  /** bs gives the counts of every node below c. */
  ghost predicate TalliesBelow<N>(g: Shape<N>, bs: Tally<N>, extra: set<N>, c: N)
    requires c in g.cell
  {
    && bs.Keys == g.cell.Keys
    && forall n {:trigger Sums(g, bs, extra, n)} ::
         n in g.cell && g.cell[c].lo <= g.cell[n].lo && g.cell[n].hi <= g.cell[c].hi ==> Sums(g, bs, extra, n)
  }

  lemma {:induction false} TallyBelowCounts<N>(g: Shape<N>, bs: Tally<N>, extra: set<N>, c: N)
    requires Linked(g) && c in g.cell && TalliesBelow(g, bs, extra, c)
    ensures Counts(Subtree(g, c), extra) == bs[c]
    decreases g.cell[c].hi - g.cell[c].lo
  {
    assert Hangs(g, c) && Sums(g, bs, extra, c);
    var d := g.cell[c];
    if d.left != g.leaf { TallyBelowCounts(g, bs, extra, d.left); }
    if d.right != g.leaf { TallyBelowCounts(g, bs, extra, d.right); }
  }

  lemma TallyCounts<N>(g: Shape<N>, bs: Tally<N>, extra: set<N>, c: N)
    requires Linked(g) && (c == g.leaf || c in g.cell) && Tallies(g, bs, extra)
    ensures Counts(Subtree(g, c), extra) == At(bs, c)
  {
    if c != g.leaf { TallyBelowCounts(g, bs, extra, c); }
  }

  /** A node whose colour and children's counts stay the same keeps its count. */
  lemma SumsCarry<N>(g: Shape<N>, bs: Tally<N>, n: N, h: Shape<N>, cs: Tally<N>, extra: set<N>)
    requires n in g.cell && n in bs && n in h.cell && n in cs && Sums(g, bs, extra, n)
    requires cs[n] == bs[n] && h.cell[n].color == g.cell[n].color
    requires At(cs, h.cell[n].left) == At(bs, g.cell[n].left) && At(cs, h.cell[n].right) == At(bs, g.cell[n].right)
    ensures Sums(h, cs, extra, n)
  {}

  /** A node whose weight grows by k, with the same counts below it, counts k more. */
  lemma SumsShift<N>(g: Shape<N>, bs: Tally<N>, extra: set<N>, n: N, h: Shape<N>, cs: Tally<N>, extra': set<N>, k: int)
    requires n in g.cell && n in bs && n in h.cell && n in cs && Sums(g, bs, extra, n)
    requires cs[n] == Plus(k, bs[n]) && Weight(n, h.cell[n].color, extra') == Weight(n, g.cell[n].color, extra) + k
    requires At(cs, h.cell[n].left) == At(bs, g.cell[n].left) && At(cs, h.cell[n].right) == At(bs, g.cell[n].right)
    ensures Sums(h, cs, extra', n)
  {
    PlusPlus(k, Weight(n, g.cell[n].color, extra), At(bs, g.cell[n].left) + At(bs, g.cell[n].right));
  }

  ghost function TallyOf<N>(g: Shape<N>, extra: set<N>): Tally<N>
    requires Linked(g)
  {
    map n | n in g.cell :: Counts(Subtree(g, n), extra)
  }

  lemma TallyOfTallies<N>(g: Shape<N>, extra: set<N>)
    requires Linked(g)
    ensures Tallies(g, TallyOf(g, extra), extra)
    ensures At(TallyOf(g, extra), g.root) == Counts(TreeOf(g), extra)
  {
    var bs := TallyOf(g, extra);
    forall n | n in g.cell ensures Sums(g, bs, extra, n) {
      assert Hangs(g, n);
      assert At(bs, g.cell[n].left) == Counts(Subtree(g, g.cell[n].left), extra);
      assert At(bs, g.cell[n].right) == Counts(Subtree(g, g.cell[n].right), extra);
    }
  }

  lemma TallySize<N>(g: Shape<N>, bs: Tally<N>, extra: set<N>, c: N)
    requires Linked(g) && c in g.cell && Tallies(g, bs, extra)
    ensures |bs[c]| == g.cell[c].hi - g.cell[c].lo + 1
  {
    TallyCounts(g, bs, extra, c);
    SubtreeInOrder(g, c);
    CountsSize(Subtree(g, c), extra);
  }

  /** m lies in the subtree at n. */
  ghost predicate Covers<N>(g: Shape<N>, n: N, m: N) {
    n in g.cell && m in g.cell && g.cell[n].lo <= g.cell[m].pos < g.cell[n].hi
  }

  lemma RootCovers<N>(g: Shape<N>, n: N)
    requires Linked(g) && n in g.cell
    ensures g.root in g.cell && Covers(g, g.root, n) && g.cell[g.root].lo == 0 && g.cell[g.root].parent == g.leaf
  {}

  lemma CoversChild<N>(g: Shape<N>, n: N, m: N)
    requires Linked(g) && n in g.cell && m in g.cell && n != m
    ensures Covers(g, g.cell[n].left, m) <==> Covers(g, n, m) && g.cell[m].pos < g.cell[n].pos
    ensures Covers(g, g.cell[n].right, m) <==> Covers(g, n, m) && g.cell[m].pos > g.cell[n].pos
  {
    assert Hangs(g, n);
    assert g.cell[m].pos != g.cell[n].pos;
  }

  /** The interval of a node in the subtree at n lies inside n's. */
  lemma {:induction false} Nested<N>(g: Shape<N>, n: N, m: N)
    requires Linked(g) && Covers(g, n, m)
    ensures g.cell[n].lo <= g.cell[m].lo && g.cell[m].hi <= g.cell[n].hi
    decreases g.cell[n].hi - g.cell[n].lo
  {
    if n != m {
      assert Hangs(g, n);
      assert g.cell[m].pos != g.cell[n].pos;
      CoversChild(g, n, m);
      Nested(g, if g.cell[m].pos < g.cell[n].pos then g.cell[n].left else g.cell[n].right, m);
    }
  }

  lemma ChildSizes<N>(g: Shape<N>, bs: Tally<N>, extra: set<N>, n: N)
    requires Linked(g) && Tallies(g, bs, extra) && n in g.cell
    ensures |At(bs, g.cell[n].left)| == g.cell[n].pos - g.cell[n].lo + 1
    ensures |At(bs, g.cell[n].right)| == g.cell[n].hi - g.cell[n].pos
    ensures |bs[n]| == g.cell[n].hi - g.cell[n].lo + 1
  {
    assert Hangs(g, n);
    var c := g.cell[n];
    TallySize(g, bs, extra, n);
    if c.left != g.leaf { TallySize(g, bs, extra, c.left); }
    if c.right != g.leaf { TallySize(g, bs, extra, c.right); }
  }

  // ---------- counting one node once more ----------

  lemma {:induction false} ExtraOutside<N>(g: Shape<N>, c: N, n: N)
    requires Linked(g) && (c in g.cell || c == g.leaf) && !Covers(g, c, n) && n in g.cell
    ensures Counts(Subtree(g, c), {n}) == Counts(Subtree(g, c), {})
    decreases if c in g.cell then g.cell[c].hi - g.cell[c].lo else 0
  {
    hide *;
    LeafSubtree(g);
    LeafCounts<N>({n});
    LeafCounts<N>({});
    NodeLinks(g, c);
    if c != g.leaf {
      NotSame(g, c, n);
      CoversChild(g, c, n);
      SubtreeSplit(g, c);
      var d := g.cell[c];
      CountsOfBranch(Subtree(g, d.left), c, d.color, Subtree(g, d.right), {});
      CountsOfBranch(Subtree(g, d.left), c, d.color, Subtree(g, d.right), {n});
      WeightOf(c, d.color, n);
      ExtraOutside(g, g.cell[c].left, n);
      ExtraOutside(g, g.cell[c].right, n);
    }
  }

  lemma NotSame<N>(g: Shape<N>, c: N, n: N)
    requires Linked(g) && c in g.cell && n in g.cell && !Covers(g, c, n)
    ensures c != n
  {}

  /** It raises exactly the counts of the paths through that node. */
  lemma {:induction false} ExtraLifts<N>(g: Shape<N>, c: N, n: N)
    requires Linked(g) && Covers(g, c, n)
    ensures Counts(Subtree(g, c), {n})
            == Lift(Counts(Subtree(g, c), {}), g.cell[n].lo - g.cell[c].lo, g.cell[n].hi + 1 - g.cell[c].lo)
    decreases g.cell[c].hi - g.cell[c].lo
  {
    hide *;
    InsideOf(g, c, n);
    NodeLinks(g, c);
    SubtreeSplit(g, c);
    var d := g.cell[c];
    SizeOf(g, d.left);
    SizeOf(g, d.right);
    CountsOfBranch(Subtree(g, d.left), c, d.color, Subtree(g, d.right), {});
    CountsOfBranch(Subtree(g, d.left), c, d.color, Subtree(g, d.right), {n});
    WeightOf(c, d.color, n);
    var l, r := Counts(Subtree(g, d.left), {}), Counts(Subtree(g, d.right), {});
    if c == n {
      NotBelowItself(g, c);
      ExtraOutside(g, d.left, n);
      ExtraOutside(g, d.right, n);
      LiftAll(Weight(c, d.color, {}), l + r);
    } else {
      CoversChild(g, c, n);
      if g.cell[n].pos < d.pos {
        Nested(g, d.left, n);
        ExtraLifts(g, d.left, n);
        ExtraOutside(g, d.right, n);
        LiftSumLeft(Weight(c, d.color, {}), l, r, g.cell[n].lo - d.lo, g.cell[n].hi + 1 - d.lo);
      } else {
        Nested(g, d.right, n);
        ExtraLifts(g, d.right, n);
        ExtraOutside(g, d.left, n);
        LiftSumRight(Weight(c, d.color, {}), l, r, g.cell[n].lo - d.lo, g.cell[n].hi + 1 - d.lo);
      }
    }
  }

  lemma NodeLinks<N>(g: Shape<N>, c: N)
    requires Linked(g) && (c in g.cell || c == g.leaf)
    ensures c in g.cell ==>
              var d := g.cell[c];
              && g.leaf !in g.cell && d.lo <= d.pos < d.hi
              && (if d.left == g.leaf then d.pos == d.lo else d.left in g.cell && g.cell[d.left].lo == d.lo && g.cell[d.left].hi == d.pos)
              && (if d.right == g.leaf then d.pos + 1 == d.hi
                  else d.right in g.cell && g.cell[d.right].lo == d.pos + 1 && g.cell[d.right].hi == d.hi)
  {
    if c in g.cell { NodeFacts(g, c); }
    hide Linked;
  }

  lemma InsideOf<N>(g: Shape<N>, c: N, n: N)
    requires Linked(g) && Covers(g, c, n)
    ensures c in g.cell && n in g.cell && (c != n ==> g.cell[c].pos != g.cell[n].pos)
    ensures g.cell[c].lo <= g.cell[n].pos < g.cell[c].hi
  {
    assert g.order[g.cell[c].pos] == c && g.order[g.cell[n].pos] == n by { NodeFacts(g, c); NodeFacts(g, n); }
    hide Linked;
  }

  lemma NotBelowItself<N>(g: Shape<N>, c: N)
    requires Linked(g) && c in g.cell
    ensures !Covers(g, g.cell[c].left, c) && !Covers(g, g.cell[c].right, c)
  {
    NodeFacts(g, c);
  }

  lemma SizeOf<N>(g: Shape<N>, c: N)
    requires Linked(g) && (c in g.cell || c == g.leaf)
    ensures |Counts(Subtree(g, c), {})| == (if c in g.cell then g.cell[c].hi - g.cell[c].lo else 0) + 1
  {
    if c in g.cell { SubtreeInOrder(g, c); }
    CountsSize(Subtree(g, c), {});
  }
}
