/** What hanging on a new red node does to the black counts. */
module InsertCounts {
  import opened Shapes
  import opened BlackCounts
  import opened Trees
  import opened ShapeTrees

  ghost function AttachCount<N>(g: Shape<N>, bs: Tally<N>, q: N, p: int, n: N): seq<int>
    requires n in g.cell && n in bs
  {
    var i := p - g.cell[n].lo;
    if Covers(g, n, q) && 0 <= i < |bs[n]| then Twice(bs[n], i) else bs[n]
  }

  ghost function AttachTally<N>(g: Shape<N>, bs: Tally<N>, q: N, p: int, z: N): Tally<N>
    requires bs.Keys == g.cell.Keys
  {
    map n | n in g.cell.Keys + {z} :: if n == z then [0, 0] else AttachCount(g, bs, q, p, n)
  }

  lemma AttachedAt<N>(g: Shape<N>, q: N, onLeft: bool, z: N, n: N)
    requires Linked(g) && q in g.cell && z !in g.cell && n in g.cell
    ensures var h := Attach(g, q, onLeft, z);
            && h.cell.Keys == g.cell.Keys + {z} && h.cell[n] == AttachedCell(g, q, onLeft, z, n)
  {}

  lemma SlotInside<N>(g: Shape<N>, q: N, onLeft: bool, n: N)
    requires Linked(g) && Covers(g, n, q)
    ensures g.cell[n].lo <= Slot(g, q, onLeft) <= g.cell[n].hi
    ensures n != q && g.cell[q].pos < g.cell[n].pos ==> Slot(g, q, onLeft) <= g.cell[n].pos
    ensures n != q && g.cell[q].pos > g.cell[n].pos ==> Slot(g, q, onLeft) > g.cell[n].pos
  {}

  lemma AttachAt<N>(g: Shape<N>, bs: Tally<N>, q: N, onLeft: bool, z: N, n: N)
    requires Linked(g) && Tallies(g, bs, {}) && Free(g, q, onLeft) && z !in g.cell && z != g.leaf
    requires n in g.cell
    ensures var p, cs := Slot(g, q, onLeft), AttachTally(g, bs, q, Slot(g, q, onLeft), z);
            if Covers(g, n, q) then 0 <= p - g.cell[n].lo < |bs[n]| && cs[n] == Twice(bs[n], p - g.cell[n].lo)
            else cs[n] == bs[n]
  {
    TallySize(g, bs, {}, n);
    SumsAt(g, bs, {}, n);
    if Covers(g, n, q) { SlotInside(g, q, onLeft, n); }
    hide Linked, Tallies;
  }

  /** The counts of q and of its children afterwards. */
  lemma AttachSides<N>(g: Shape<N>, bs: Tally<N>, q: N, onLeft: bool, z: N)
    requires Linked(g) && Tallies(g, bs, {}) && Free(g, q, onLeft) && z !in g.cell && z != g.leaf
    ensures var c, p, cs := g.cell[q], Slot(g, q, onLeft), AttachTally(g, bs, q, Slot(g, q, onLeft), z);
            var l, r := At(bs, c.left), At(bs, c.right);
            && 0 <= p - c.lo < |l| + |r| == |bs[q]| && cs[q] == Twice(bs[q], p - c.lo)
            && (onLeft ==> p - c.lo < |l| && Twice(l, p - c.lo) == At(cs, z) && At(cs, c.right) == r)
            && (!onLeft ==> p - c.lo >= |l| && Twice(r, p - c.lo - |l|) == At(cs, z) && At(cs, c.left) == l)
  {
    NodeFacts(g, q);
    SumsAt(g, bs, {}, q);
    ChildSizes(g, bs, {}, q);
    AttachAt(g, bs, q, onLeft, z, q);
    var c := g.cell[q];
    if c.left != g.leaf { AttachAt(g, bs, q, onLeft, z, c.left); }
    if c.right != g.leaf { AttachAt(g, bs, q, onLeft, z, c.right); }
    hide Linked, Tallies;
    assert Twice([0], 0) == [0, 0];
  }

  lemma AttachSumsAt<N>(g: Shape<N>, bs: Tally<N>, q: N, onLeft: bool, z: N)
    requires Linked(g) && Tallies(g, bs, {}) && Free(g, q, onLeft) && z !in g.cell && z != g.leaf
    ensures Sums(Attach(g, q, onLeft, z), AttachTally(g, bs, q, Slot(g, q, onLeft), z), {}, q)
  {
    var p, c := Slot(g, q, onLeft), g.cell[q];
    SumsAt(g, bs, {}, q);
    AttachSides(g, bs, q, onLeft, z);
    AttachedAt(g, q, onLeft, z, q);
    hide Linked, Tallies, Attach, AttachTally, At, Twice;
    TwiceSum(Weight(q, c.color, {}), At(bs, c.left), At(bs, c.right), p - c.lo);
  }

  lemma AttachAtChildren<N>(g: Shape<N>, bs: Tally<N>, q: N, onLeft: bool, z: N, n: N)
    requires Linked(g) && Tallies(g, bs, {}) && Free(g, q, onLeft) && z !in g.cell && z != g.leaf
    requires Covers(g, n, q) && n != q
    ensures var c, p, cs := g.cell[n], Slot(g, q, onLeft), AttachTally(g, bs, q, Slot(g, q, onLeft), z);
            var l, r := At(bs, c.left), At(bs, c.right);
            && 0 <= p - c.lo < |l| + |r|
            && At(cs, c.left) == (if p - c.lo < |l| then Twice(l, p - c.lo) else l)
            && At(cs, c.right) == (if p - c.lo < |l| then r else Twice(r, p - c.lo - |l|))
  {
    hide *;
    OtherPosition(g, n, q);
    ChildLinks(g, n);
    SumsAt(g, bs, {}, n);
    CoversChild(g, n, q);
    ChildSizes(g, bs, {}, n);
    SlotInside(g, q, onLeft, n);
    AttachAtChild(g, bs, q, onLeft, z, g.cell[n].left);
    AttachAtChild(g, bs, q, onLeft, z, g.cell[n].right);
  }

  lemma ChildLinks<N>(g: Shape<N>, n: N)
    requires Linked(g) && n in g.cell
    ensures var c := g.cell[n];
            && (c.left == g.leaf || (c.left in g.cell && g.cell[c.left].lo == c.lo))
            && (c.right == g.leaf || (c.right in g.cell && g.cell[c.right].lo == c.pos + 1))
            && g.leaf !in g.cell && c.lo <= c.pos < c.hi
  {
    NodeFacts(g, n);
    hide Linked;
  }

  lemma OtherPosition<N>(g: Shape<N>, n: N, q: N)
    requires Linked(g) && Covers(g, n, q) && n != q
    ensures n in g.cell && q in g.cell && g.cell[n].pos != g.cell[q].pos && g.cell[n].lo <= g.cell[q].pos
  {}

  /** The counts of a child, or of the sentinel in its place. */
  lemma AttachAtChild<N>(g: Shape<N>, bs: Tally<N>, q: N, onLeft: bool, z: N, c: N)
    requires Linked(g) && Tallies(g, bs, {}) && Free(g, q, onLeft) && z !in g.cell && z != g.leaf && (c in g.cell || c == g.leaf)
    ensures bs.Keys == g.cell.Keys
    ensures var p, cs := Slot(g, q, onLeft), AttachTally(g, bs, q, Slot(g, q, onLeft), z);
            if Covers(g, c, q) then c in g.cell && 0 <= p - g.cell[c].lo < |At(bs, c)| && At(cs, c) == Twice(At(bs, c), p - g.cell[c].lo)
            else At(cs, c) == At(bs, c)
  {
    if c in g.cell { AttachAt(g, bs, q, onLeft, z, c); }
    SumsAt(g, bs, {}, q);
    assert g.leaf !in g.cell;
    hide Linked, Tallies;
  }

  lemma AttachSumsAbove<N>(g: Shape<N>, bs: Tally<N>, q: N, onLeft: bool, z: N, n: N)
    requires Linked(g) && Tallies(g, bs, {}) && Free(g, q, onLeft) && z !in g.cell && z != g.leaf
    requires Covers(g, n, q) && n != q
    ensures Sums(Attach(g, q, onLeft, z), AttachTally(g, bs, q, Slot(g, q, onLeft), z), {}, n)
  {
    hide *;
    CoveredHere(g, n, q);
    var c := g.cell[n];
    AttachFrame(g, q, onLeft, z);
    SumsAt(g, bs, {}, n);
    SumsMeaning(g, bs, {}, n);
    AttachAt(g, bs, q, onLeft, z, n);
    AttachAtChildren(g, bs, q, onLeft, z, n);
    AttachedAt(g, q, onLeft, z, n);
    KeepsLinks(g, q, onLeft, z, n);
    AttachTallyKeys(g, bs, q, Slot(g, q, onLeft), z);
    TwiceSum(Weight(n, c.color, {}), At(bs, c.left), At(bs, c.right), Slot(g, q, onLeft) - c.lo);
    SumsMeaning(Attach(g, q, onLeft, z), AttachTally(g, bs, q, Slot(g, q, onLeft), z), {}, n);
  }

  lemma CoveredHere<N>(g: Shape<N>, n: N, q: N)
    requires Covers(g, n, q)
    ensures n in g.cell && q in g.cell
  {}

  lemma AttachSumsAside<N>(g: Shape<N>, bs: Tally<N>, q: N, onLeft: bool, z: N, n: N)
    requires Linked(g) && Tallies(g, bs, {}) && Free(g, q, onLeft) && z !in g.cell && z != g.leaf
    requires n in g.cell && !Covers(g, n, q)
    ensures Sums(Attach(g, q, onLeft, z), AttachTally(g, bs, q, Slot(g, q, onLeft), z), {}, n)
  {
    hide *;
    AttachFrame(g, q, onLeft, z);
    ChildLinks(g, n);
    SumsAt(g, bs, {}, n);
    NotCovered(g, n, q);
    CoversChild(g, n, q);
    AttachedAt(g, q, onLeft, z, n);
    KeepsLinks(g, q, onLeft, z, n);
    AttachAt(g, bs, q, onLeft, z, n);
    AttachAtChild(g, bs, q, onLeft, z, g.cell[n].left);
    AttachAtChild(g, bs, q, onLeft, z, g.cell[n].right);
    AttachTallyKeys(g, bs, q, Slot(g, q, onLeft), z);
    SumsCarry(g, bs, n, Attach(g, q, onLeft, z), AttachTally(g, bs, q, Slot(g, q, onLeft), z), {});
  }

  lemma AttachTallyKeys<N>(g: Shape<N>, bs: Tally<N>, q: N, p: int, z: N)
    requires bs.Keys == g.cell.Keys
    ensures AttachTally(g, bs, q, p, z).Keys == g.cell.Keys + {z}
  {}

  lemma NotCovered<N>(g: Shape<N>, n: N, q: N)
    requires Linked(g) && n in g.cell && q in g.cell && !Covers(g, n, q)
    ensures n != q
  {}

  lemma KeepsLinks<N>(g: Shape<N>, q: N, onLeft: bool, z: N, n: N)
    requires q in g.cell && n in g.cell && n != q && n != z
    ensures var c, d := g.cell[n], AttachedCell(g, q, onLeft, z, n); d.left == c.left && d.right == c.right && d.color == c.color
  {}

  lemma AttachSums<N>(g: Shape<N>, bs: Tally<N>, q: N, onLeft: bool, z: N, n: N)
    requires Linked(g) && Tallies(g, bs, {}) && Free(g, q, onLeft) && z !in g.cell && z != g.leaf
    requires n == z || n in g.cell
    ensures Sums(Attach(g, q, onLeft, z), AttachTally(g, bs, q, Slot(g, q, onLeft), z), {}, n)
  {
    if n == z {
      assert Plus(0, [0] + [0]) == [0, 0];
    } else if n == q {
      AttachSumsAt(g, bs, q, onLeft, z);
    } else if Covers(g, n, q) {
      AttachSumsAbove(g, bs, q, onLeft, z, n);
    } else {
      AttachSumsAside(g, bs, q, onLeft, z, n);
    }
  }

  /** Hanging on a red node splits the slot it takes in two and changes no other count. */
  lemma AttachDepths<N>(g: Shape<N>, q: N, onLeft: bool, z: N)
    requires Linked(g) && Free(g, q, onLeft) && z !in g.cell && z != g.leaf
    requires Linked(Attach(g, q, onLeft, z))
    ensures 0 <= Slot(g, q, onLeft) < |BlackDepths(TreeOf(g))|
    ensures BlackDepths(TreeOf(Attach(g, q, onLeft, z))) == Twice(BlackDepths(TreeOf(g)), Slot(g, q, onLeft))
  {
    var h, bs := Attach(g, q, onLeft, z), TallyOf(g, {});
    var cs := AttachTally(g, bs, q, Slot(g, q, onLeft), z);
    TallyOfTallies(g, {});
    forall n | n in h.cell ensures Sums(Attach(g, q, onLeft, z), cs, {}, n) {
      AttachSums(g, bs, q, onLeft, z, n);
    }
    AttachTop(g, bs, q, onLeft, z);
    hide *;
    TallyCounts(h, cs, {}, h.root);
  }

  lemma AttachTop<N>(g: Shape<N>, bs: Tally<N>, q: N, onLeft: bool, z: N)
    requires Linked(g) && Free(g, q, onLeft) && z !in g.cell && z != g.leaf && bs == TallyOf(g, {}) && Tallies(g, bs, {})
    requires Linked(Attach(g, q, onLeft, z))
    ensures var h, p, cs := Attach(g, q, onLeft, z), Slot(g, q, onLeft), AttachTally(g, bs, q, Slot(g, q, onLeft), z);
            && h.root in h.cell && 0 <= p < |BlackDepths(TreeOf(g))| && cs[h.root] == Twice(BlackDepths(TreeOf(g)), p)
            && TreeOf(h) == Subtree(h, h.root) && BlackDepths(TreeOf(h)) == Counts(TreeOf(h), {})
  {
    hide *;
    AttachFrame(g, q, onLeft, z);
    RootCovers(g, q);
    AttachAt(g, bs, q, onLeft, z, g.root);
    RootBounds(g);
    TallyOfTallies(g, {});
    SumsAt(g, bs, {}, g.root);
    DepthsOf(g);
    DepthsOf(Attach(g, q, onLeft, z));
    RootBounds(Attach(g, q, onLeft, z));
    AtIn(bs, g.root);
  }

  lemma AtIn<N>(bs: Tally<N>, c: N)
    requires c in bs
    ensures At(bs, c) == bs[c]
  {}

  lemma DepthsOf<N>(g: Shape<N>)
    requires Linked(g)
    ensures BlackDepths(TreeOf(g)) == Counts(TreeOf(g), {})
  {}

  lemma AttachFrame<N>(g: Shape<N>, q: N, onLeft: bool, z: N)
    requires Linked(g) && Free(g, q, onLeft)
    ensures Indexed(g) && q in g.cell
    ensures var h := Attach(g, q, onLeft, z); h.cell.Keys == g.cell.Keys + {z} && h.root == g.root
  {}

  /** Splitting a slot and raising all counts alike keeps equal counts equal and unequal ones unequal. */
  lemma InsertKeepsBalance<N>(g: Shape<N>, h: Shape<N>, p: int, k: int)
    requires Linked(g) && Linked(h) && 0 <= p < |BlackDepths(TreeOf(g))|
    requires BlackDepths(TreeOf(h)) == Plus(k, Twice(BlackDepths(TreeOf(g)), p))
    ensures AllEqual(BlackDepths(TreeOf(h))) <==> AllEqual(BlackDepths(TreeOf(g)))
  {
    TwiceAllEqual(BlackDepths(TreeOf(g)), p, k);
  }
}
