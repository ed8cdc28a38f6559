/** What taking a node out does to the black counts. */
module DeleteCounts {
  import opened Shapes
  import opened BlackCounts
  import opened Trees
  import opened ShapeTrees

  /** The slot that closes when s is taken out: the one on its childless side. */
  ghost function DeadSlot<N>(g: Shape<N>, s: N): int
    requires s in g.cell
  {
    if g.cell[s].left == g.leaf then g.cell[s].pos else g.cell[s].pos + 1
  }

  /** How much the paths through s lose, if its replacement counts once more when it is in extra. */
  ghost function Lost<N>(g: Shape<N>, s: N, extra: set<N>): int
    requires s in g.cell
  {
    Weight(s, g.cell[s].color, {}) - if Replacement(g, s) in extra && Replacement(g, s) in g.cell then 1 else 0
  }

  ghost function CutCount<N>(g: Shape<N>, bs: Tally<N>, extra: set<N>, s: N, n: N): seq<int>
    requires s in g.cell && n in g.cell && n in bs
  {
    var d, a := g.cell[s], g.cell[n].lo;
    if Covers(g, n, s) && |bs[n]| > 0 then
      Cut(bs[n], DeadSlot(g, s) - a, d.lo - a, d.hi + 1 - a, Lost(g, s, extra))
    else if n in extra then Plus(1, bs[n])
    else bs[n]
  }

  ghost function SpliceTally<N>(g: Shape<N>, bs: Tally<N>, extra: set<N>, s: N): Tally<N>
    requires s in g.cell && bs.Keys == g.cell.Keys
  {
    map n | n in g.cell.Keys - {s} :: CutCount(g, bs, extra, s, n)
  }

  /** s may be taken out, and only its replacement may count once more afterwards. */
  ghost predicate Cuttable<N>(g: Shape<N>, bs: Tally<N>, extra: set<N>, s: N) {
    Linked(g) && Tallies(g, bs, {}) && Spliceable(g, s) && extra <= {Replacement(g, s)}
  }

  lemma ReplacementAt<N>(g: Shape<N>, bs: Tally<N>, extra: set<N>, s: N)
    requires Cuttable(g, bs, extra, s)
    ensures var r := Replacement(g, s);
            At(SpliceTally(g, bs, extra, s), r) == Plus(if r in extra && r in g.cell then 1 else 0, At(bs, r))
  {
    var r := Replacement(g, s);
    assert Hangs(g, s);
    assert r != s && !Covers(g, r, s);
    PlusZero(At(bs, r));
  }

  lemma CutSelf<N>(g: Shape<N>, bs: Tally<N>, extra: set<N>, s: N)
    requires Cuttable(g, bs, extra, s)
    ensures CutCount(g, bs, extra, s, s) ==
            Plus(Weight(s, g.cell[s].color, {}) - Lost(g, s, extra), At(bs, Replacement(g, s)))
  {
    var d, r := g.cell[s], Replacement(g, s);
    assert Hangs(g, s) && Sums(g, bs, {}, s);
    ChildSizes(g, bs, {}, s);
    CutOnlyChild(Weight(s, d.color, {}), At(bs, r), Lost(g, s, extra));
  }

  lemma CutReplacement<N>(g: Shape<N>, bs: Tally<N>, extra: set<N>, s: N)
    requires Cuttable(g, bs, extra, s)
    ensures At(SpliceTally(g, bs, extra, s), Replacement(g, s)) == CutCount(g, bs, extra, s, s)
  {
    ReplacementAt(g, bs, extra, s);
    CutSelf(g, bs, extra, s);
  }

  /** The count found at a child link after s is gone. */
  lemma CutChild<N>(g: Shape<N>, bs: Tally<N>, extra: set<N>, s: N, n: N, c: N)
    requires Cuttable(g, bs, extra, s) && n in g.cell && n != s && (c == g.cell[n].left || c == g.cell[n].right)
    ensures At(SpliceTally(g, bs, extra, s), if c == s then Replacement(g, s) else c)
            == if Covers(g, c, s) then CutCount(g, bs, extra, s, c) else At(bs, c)
  {
    assert Hangs(g, n) && Hangs(g, s);
    if c == s { CutReplacement(g, bs, extra, s); }
    if c != g.leaf { TallySize(g, bs, {}, c); }
  }

  lemma CutAboveLeft<N>(g: Shape<N>, bs: Tally<N>, extra: set<N>, s: N, n: N)
    requires Cuttable(g, bs, extra, s) && Covers(g, n, s) && Covers(g, g.cell[n].left, s)
    ensures CutCount(g, bs, extra, s, n)
            == Plus(Weight(n, g.cell[n].color, {}),
                    CutCount(g, bs, extra, s, g.cell[n].left) + At(bs, g.cell[n].right))
  {
    var c, d := g.cell[n], g.cell[s];
    assert Hangs(g, n) && Sums(g, bs, {}, n);
    ChildSizes(g, bs, {}, n);
    Nested(g, c.left, s);
    CutSumLeft(Weight(n, c.color, {}), At(bs, c.left), At(bs, c.right),
               DeadSlot(g, s) - c.lo, d.lo - c.lo, d.hi + 1 - c.lo, Lost(g, s, extra));
  }

  lemma CutAboveRight<N>(g: Shape<N>, bs: Tally<N>, extra: set<N>, s: N, n: N)
    requires Cuttable(g, bs, extra, s) && Covers(g, n, s) && Covers(g, g.cell[n].right, s)
    ensures CutCount(g, bs, extra, s, n)
            == Plus(Weight(n, g.cell[n].color, {}),
                    At(bs, g.cell[n].left) + CutCount(g, bs, extra, s, g.cell[n].right))
  {
    var c, d := g.cell[n], g.cell[s];
    assert Hangs(g, n) && Sums(g, bs, {}, n);
    ChildSizes(g, bs, {}, n);
    Nested(g, c.right, s);
    CutSumRight(Weight(n, c.color, {}), At(bs, c.left), At(bs, c.right),
                DeadSlot(g, s) - c.lo, d.lo - c.lo, d.hi + 1 - c.lo, Lost(g, s, extra));
  }

  lemma CutSumsAside<N>(g: Shape<N>, bs: Tally<N>, extra: set<N>, s: N, n: N)
    requires Cuttable(g, bs, extra, s) && n in g.cell && !Covers(g, n, s)
    ensures Sums(Splice(g, s), SpliceTally(g, bs, extra, s), extra, n)
  {
    var c := g.cell[n];
    assert Sums(g, bs, {}, n);
    CoversChild(g, n, s);
    CutChild(g, bs, extra, s, n, c.left);
    CutChild(g, bs, extra, s, n, c.right);
    PlusPlus(1, Weight(n, c.color, {}), At(bs, c.left) + At(bs, c.right));
  }

  lemma CutSums<N>(g: Shape<N>, bs: Tally<N>, extra: set<N>, s: N, n: N)
    requires Cuttable(g, bs, extra, s) && n in g.cell && n != s
    ensures Sums(Splice(g, s), SpliceTally(g, bs, extra, s), extra, n)
  {
    if !Covers(g, n, s) {
      CutSumsAside(g, bs, extra, s, n);
    } else {
      var c := g.cell[n];
      assert n !in extra by { assert Hangs(g, s); }
      CoversChild(g, n, s);
      assert g.cell[n].pos != g.cell[s].pos;
      CutChild(g, bs, extra, s, n, c.left);
      CutChild(g, bs, extra, s, n, c.right);
      TallySize(g, bs, {}, n);
      if Covers(g, c.left, s) {
        CutAboveLeft(g, bs, extra, s, n);
      } else {
        CutAboveRight(g, bs, extra, s, n);
      }
    }
  }

  lemma SpliceTallies<N>(g: Shape<N>, bs: Tally<N>, extra: set<N>, s: N)
    requires Cuttable(g, bs, extra, s)
    ensures Tallies(Splice(g, s), SpliceTally(g, bs, extra, s), extra)
  {
    forall n | n in g.cell && n != s ensures Sums(Splice(g, s), SpliceTally(g, bs, extra, s), extra, n) {
      CutSums(g, bs, extra, s, n);
    }
  }

  lemma CutTop<N>(g: Shape<N>, bs: Tally<N>, extra: set<N>, s: N)
    requires Cuttable(g, bs, extra, s)
    ensures At(SpliceTally(g, bs, extra, s), Splice(g, s).root) == CutCount(g, bs, extra, s, g.root)
  {
    RootCovers(g, s);
    if g.root == s {
      CutReplacement(g, bs, extra, s);
    }
  }

  lemma SpliceTop<N>(g: Shape<N>, bs: Tally<N>, extra: set<N>, s: N)
    requires Cuttable(g, bs, extra, s)
    ensures g.root in g.cell && |bs[g.root]| > 0
    ensures At(SpliceTally(g, bs, extra, s), Splice(g, s).root)
            == Cut(bs[g.root], DeadSlot(g, s), g.cell[s].lo, g.cell[s].hi + 1, Lost(g, s, extra))
  {
    RootCovers(g, s);
    TallySize(g, bs, {}, g.root);
    CutTop(g, bs, extra, s);
  }

  /** The counts after s is taken out: its dead slot closes, and the paths through it lose its weight. */
  lemma SpliceDepths<N>(g: Shape<N>, extra: set<N>, s: N)
    requires Linked(g) && Spliceable(g, s) && extra <= {Replacement(g, s)}
    ensures Linked(Splice(g, s)) && |BlackDepths(TreeOf(g))| > 0
    ensures Counts(TreeOf(Splice(g, s)), extra)
            == Cut(BlackDepths(TreeOf(g)), DeadSlot(g, s), g.cell[s].lo, g.cell[s].hi + 1, Lost(g, s, extra))
  {
    var bs := TallyOf(g, {});
    SpliceLinked(g, s);
    TallyOfTallies(g, {});
    SpliceTallies(g, bs, extra, s);
    SpliceTop(g, bs, extra, s);
    TallyCounts(Splice(g, s), SpliceTally(g, bs, extra, s), extra, Splice(g, s).root);
  }

  ghost function RenameTally<N>(g: Shape<N>, bs: Tally<N>, d: N, m: N): Tally<N>
    requires d in g.cell && bs.Keys == g.cell.Keys
  {
    map n | n in g.cell.Keys - {d} + {m} :: if n == m then bs[d] else bs[n]
  }

  lemma RenameSums<N>(g: Shape<N>, bs: Tally<N>, extra: set<N>, d: N, m: N, n: N)
    requires Linked(g) && Tallies(g, bs, extra) && d in g.cell && m !in g.cell && m != g.leaf
    requires d !in extra && m !in extra && n != d && (n == m || n in g.cell)
    ensures Sums(Rename(g, d, m), RenameTally(g, bs, d, m), extra, n)
  {
    var o := if n == m then d else n;
    assert Hangs(g, o) && Sums(g, bs, extra, o);
  }

  /** Putting one node in another's place changes no count. */
  lemma RenameDepths<N>(g: Shape<N>, extra: set<N>, d: N, m: N)
    requires Linked(g) && d in g.cell && m !in g.cell && m != g.leaf && d !in extra && m !in extra
    ensures Linked(Rename(g, d, m))
    ensures Counts(TreeOf(Rename(g, d, m)), extra) == Counts(TreeOf(g), extra)
  {
    var bs := TallyOf(g, extra);
    RenameLinked(g, d, m);
    TallyOfTallies(g, extra);
    forall n | n in g.cell.Keys - {d} + {m} ensures Sums(Rename(g, d, m), RenameTally(g, bs, d, m), extra, n) {
      RenameSums(g, bs, extra, d, m, n);
    }
    TallyCounts(Rename(g, d, m), RenameTally(g, bs, d, m), extra, Rename(g, d, m).root);
  }
}
