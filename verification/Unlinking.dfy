/** Taking a node with any number of children out of the tree, before any fix-up. */
module Unlinking {
  import opened Nodes
  import opened Shapes
  import opened BlackCounts
  import opened Trees
  import opened ShapeTrees
  import opened DeleteCounts
  import opened ColorRules

  /** The in-order successor of d. */
  ghost function Successor<N>(g: Shape<N>, d: N): N
    requires Indexed(g) && d in g.cell
  {
    if g.cell[d].pos + 1 < |g.order| then g.order[g.cell[d].pos + 1] else d
  }

  /** The node whose place in the links disappears: d itself, or its successor, which then takes d's place. */
  ghost function Spliced<N>(g: Shape<N>, d: N): N
    requires Indexed(g) && d in g.cell
  {
    if Spliceable(g, d) then d else Successor(g, d)
  }

  ghost function Unlink<N>(g: Shape<N>, d: N): Shape<N>
    requires Linked(g) && d in g.cell
  {
    if Spliceable(g, d) then Splice(g, d)
    else
      SuccessorFacts(g, d);
      SpliceLinked(g, Successor(g, d));
      Rename(Splice(g, Successor(g, d)), d, Successor(g, d))
  }

  /** What moves up into the gap. */
  ghost function Filler<N>(g: Shape<N>, d: N): N
    requires Linked(g) && d in g.cell
  {
    SplicedFacts(g, d);
    Replacement(g, Spliced(g, d))
  }

  lemma SuccessorFacts<N>(g: Shape<N>, d: N)
    requires Linked(g) && d in g.cell && !Spliceable(g, d)
    ensures var m := Successor(g, d);
            && m in g.cell && m != d && g.cell[m].pos == g.cell[d].pos + 1
            && g.cell[m].left == g.leaf && Spliceable(g, m) && Covers(g, g.cell[d].right, m)
            && g.cell[m].lo == g.cell[m].pos
  {
    var m := Successor(g, d);
    assert Hangs(g, d);
    CoversChild(g, d, m);
    Nested(g, g.cell[d].right, m);
    assert Hangs(g, m);
  }

  lemma SplicedFacts<N>(g: Shape<N>, d: N)
    requires Linked(g) && d in g.cell
    ensures Spliced(g, d) in g.cell && Spliceable(g, Spliced(g, d))
  {
    if !Spliceable(g, d) { SuccessorFacts(g, d); }
  }

  lemma SpliceNodes<N>(g: Shape<N>, s: N)
    requires Indexed(g) && s in g.cell
    ensures Splice(g, s).cell.Keys == g.cell.Keys - {s} && Splice(g, s).leaf == g.leaf
    ensures Splice(g, s).order == g.order[..g.cell[s].pos] + g.order[g.cell[s].pos + 1..]
  {}

  lemma RenameNodes<N>(g: Shape<N>, d: N, m: N)
    requires Indexed(g) && d in g.cell
    ensures Rename(g, d, m).cell.Keys == g.cell.Keys - {d} + {m} && Rename(g, d, m).leaf == g.leaf
    ensures Rename(g, d, m).order == g.order[g.cell[d].pos := m]
  {}

  lemma MovedUp<T>(s: seq<T>, k: int)
    requires 0 <= k && k + 1 < |s|
    ensures (s[..k + 1] + s[k + 2..])[k := s[k + 1]] == s[..k] + s[k + 1..]
  {}

  lemma SuccessorRename<N>(g: Shape<N>, d: N)
    requires Linked(g) && d in g.cell && !Spliceable(g, d)
    ensures var m, h := Successor(g, d), Splice(g, Successor(g, d));
            Linked(h) && d in h.cell && m !in h.cell && m != h.leaf && h.cell[d].pos == g.cell[d].pos
  {
    SuccessorFacts(g, d);
    SpliceLinked(g, Successor(g, d));
  }

  /** d leaves, and every other node keeps its relative place in the in-order sequence. */
  lemma UnlinkLinked<N>(g: Shape<N>, d: N)
    requires Linked(g) && d in g.cell
    ensures 0 <= g.cell[d].pos < |g.order|
    ensures Linked(Unlink(g, d)) && Unlink(g, d).cell.Keys == g.cell.Keys - {d} && Unlink(g, d).leaf == g.leaf
    ensures Unlink(g, d).order == g.order[..g.cell[d].pos] + g.order[g.cell[d].pos + 1..]
  {
    if Spliceable(g, d) {
      SpliceLinked(g, d);
      SpliceNodes(g, d);
    } else {
      UnlinkRenamed(g, d);
    }
  }

  lemma UnlinkRenamed<N>(g: Shape<N>, d: N)
    requires Linked(g) && d in g.cell && !Spliceable(g, d)
    ensures 0 <= g.cell[d].pos < |g.order|
    ensures Linked(Unlink(g, d)) && Unlink(g, d).cell.Keys == g.cell.Keys - {d} && Unlink(g, d).leaf == g.leaf
    ensures Unlink(g, d).order == g.order[..g.cell[d].pos] + g.order[g.cell[d].pos + 1..]
  {
    hide *;
    UnlinkByRename(g, d);
    var m := Successor(g, d);
    var h := Splice(g, m);
    SuccessorPosition(g, d);
    SpliceNodes(g, m);
    RenameNodes(h, d, m);
    RenameLinked(h, d, m);
    MovedUp(g.order, g.cell[d].pos);
    assert g.cell.Keys - {m} - {d} + {m} == g.cell.Keys - {d};
  }

  lemma UnlinkByRename<N>(g: Shape<N>, d: N)
    requires Linked(g) && d in g.cell && !Spliceable(g, d)
    ensures Indexed(g) && Successor(g, d) in g.cell && Indexed(Splice(g, Successor(g, d)))
    ensures var m, h := Successor(g, d), Splice(g, Successor(g, d));
            && Linked(h) && d in h.cell && m !in h.cell && m != h.leaf && m != d && h.cell[d].pos == g.cell[d].pos
            && Unlink(g, d) == Rename(h, d, m)
  {
    SuccessorRename(g, d);
    SuccessorFacts(g, d);
  }

  lemma SuccessorPosition<N>(g: Shape<N>, d: N)
    requires Linked(g) && d in g.cell && !Spliceable(g, d)
    ensures Indexed(g) && Successor(g, d) in g.cell
    ensures 0 <= g.cell[d].pos && g.cell[d].pos + 1 < |g.order| && g.order[g.cell[d].pos + 1] == Successor(g, d)
    ensures g.cell[Successor(g, d)].pos == g.cell[d].pos + 1
  {
    SuccessorFacts(g, d);
  }

  /** The counts after d has left: only those on the paths through the spliced place change. */
  lemma UnlinkDepths<N>(g: Shape<N>, extra: set<N>, d: N)
    requires Linked(g) && d in g.cell && extra <= {Filler(g, d)} && Linked(Unlink(g, d))
    ensures Spliced(g, d) in g.cell && |BlackDepths(TreeOf(g))| > 0
    ensures var s := Spliced(g, d);
            Counts(TreeOf(Unlink(g, d)), extra)
            == Cut(BlackDepths(TreeOf(g)), DeadSlot(g, s), g.cell[s].lo, g.cell[s].hi + 1, Lost(g, s, extra))
  {
    hide *;
    SplicedPlace(g, d);
    FillerApart(g, d);
    var s := Spliced(g, d);
    SpliceDepths(g, extra, s);
    if !Spliceable(g, d) {
      UnlinkByRename(g, d);
      RenameDepths(Splice(g, s), extra, d, s);
    }
  }

  lemma SplicedPlace<N>(g: Shape<N>, d: N)
    requires Linked(g) && d in g.cell
    ensures Indexed(g) && Spliced(g, d) in g.cell && Spliceable(g, Spliced(g, d)) && Filler(g, d) == Replacement(g, Spliced(g, d))
    ensures Spliceable(g, d) ==> Spliced(g, d) == d && Unlink(g, d) == Splice(g, d)
    ensures !Spliceable(g, d) ==> Spliced(g, d) == Successor(g, d)
  {
    SplicedFacts(g, d);
  }

  lemma FillerApart<N>(g: Shape<N>, d: N)
    requires Linked(g) && d in g.cell
    ensures Filler(g, d) != d && Filler(g, d) != Spliced(g, d)
    ensures Filler(g, d) == g.leaf || Filler(g, d) in Unlink(g, d).cell
  {
    SplicedFacts(g, d);
    UnlinkLinked(g, d);
    var s := Spliced(g, d);
    assert Hangs(g, s) && Hangs(g, d);
    if s != d {
      SuccessorFacts(g, d);
      assert Hangs(g, g.cell[d].right);
      Nested(g, g.cell[d].right, s);
    }
  }

  // ---------- colours ----------

  lemma SpliceRedOk<N>(g: Shape<N>, s: N, n: N)
    requires Weak(g) && Spliceable(g, s) && n in g.cell && n != s
    ensures RedOk(Splice(g, s), n, Replacement(g, s))
    ensures g.cell[s].color == RED ==> RedOk(Splice(g, s), n, g.leaf)
  {
    assert Hangs(g, s) && RedOk(g, s, g.leaf) && RedOk(g, n, g.leaf);
  }

  lemma RenameRedOk<N>(g: Shape<N>, d: N, m: N, x: N, n: N)
    requires Linked(g) && d in g.cell && m !in g.cell && m != g.leaf && x != d && x != m
    requires n != d && (n == m || n in g.cell) && RedRule(g, x)
    ensures RedOk(Rename(g, d, m), n, x)
  {
    var o := if n == m then d else n;
    assert Hangs(g, o) && RedOk(g, o, x);
  }

  lemma RenameRedRule<N>(g: Shape<N>, d: N, m: N, x: N)
    requires Linked(g) && d in g.cell && m !in g.cell && m != g.leaf && x != d && x != m && RedRule(g, x)
    ensures RedRule(Rename(g, d, m), x)
    ensures ColorOf(Rename(g, d, m), Rename(g, d, m).root) == ColorOf(g, g.root)
    ensures ColorOf(Rename(g, d, m), x) == ColorOf(g, x)
    ensures Rename(g, d, m).root == x <==> g.root == x
  {
    forall n | n in Rename(g, d, m).cell ensures RedOk(Rename(g, d, m), n, x) {
      RenameRedOk(g, d, m, x, n);
    }
  }

  lemma SpliceRedRule<N>(g: Shape<N>, s: N)
    requires Weak(g) && Spliceable(g, s)
    ensures var h, r := Splice(g, s), Replacement(g, s);
            && RedRule(h, r) && (g.cell[s].color == RED ==> RedRule(h, g.leaf))
            && (h.root == r || ColorOf(h, h.root) == BLACK) && (g.cell[s].color == RED ==> ColorOf(h, h.root) == BLACK)
            && ColorOf(h, r) == ColorOf(g, r)
  {
    forall n | n in g.cell && n != s
      ensures RedOk(Splice(g, s), n, Replacement(g, s))
      ensures g.cell[s].color == RED ==> RedOk(Splice(g, s), n, g.leaf)
    {
      SpliceRedOk(g, s, n);
    }
    assert Hangs(g, s);
  }

  /** Afterwards the filler alone may break a colour rule, and only if a black place disappeared. */
  lemma UnlinkColors<N>(g: Shape<N>, d: N)
    requires Weak(g) && d in g.cell && Linked(Unlink(g, d))
    ensures var h, r, s := Unlink(g, d), Filler(g, d), Spliced(g, d);
            && s in g.cell && RedRule(h, r) && (h.root == r || ColorOf(h, h.root) == BLACK) && ColorOf(h, r) == ColorOf(g, r)
            && (g.cell[s].color == RED ==> Weak(h))
  {
    var s := Spliced(g, d);
    SplicedFacts(g, d);
    SpliceRedRule(g, s);
    if s != d {
      SuccessorRename(g, d);
      FillerApart(g, d);
      RenameRedRule(Splice(g, s), d, s, Filler(g, d));
      if g.cell[s].color == RED {
        RenameRedRule(Splice(g, s), d, s, g.leaf);
      }
    }
  }
}
