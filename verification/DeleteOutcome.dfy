/** What a deletion does to the black counts, and when it keeps a red-black tree one. */
module DeleteOutcome {
  import opened Nodes
  import opened Shapes
  import opened BlackCounts
  import opened Trees
  import opened ShapeTrees
  import opened DeleteCounts
  import opened ColorRules
  import opened DeleteSteps
  import opened DeleteFixup
  import opened Unlinking

  /** Deleting d leads the fix-up to a sentinel sibling: the place that disappears is black, and the climb gets stuck. */
  ghost predicate DeleteStuck<N>(g: Shape<N>, d: N)
    requires Linked(g) && d in g.cell
  {
    UnlinkLinked(g, d);
    ColorOf(g, Spliced(g, d)) == BLACK && Stuck(Unlink(g, d), Filler(g, d))
  }

  /** The fix-up's loop is not entered: a red place disappears, or what fills it is missing, red or the new root. */
  ghost predicate Harmless<N>(g: Shape<N>, d: N)
    requires Linked(g) && d in g.cell
  {
    !(ColorOf(g, Spliced(g, d)) == BLACK && Enters(Unlink(g, d), Filler(g, d)))
  }

  lemma HarmlessNotStuck<N>(g: Shape<N>, d: N)
    requires Linked(g) && d in g.cell && Harmless(g, d)
    ensures !DeleteStuck(g, d)
  {
    UnlinkLinked(g, d);
    if !Enters(Unlink(g, d), Filler(g, d)) { StuckEnters(Unlink(g, d), Filler(g, d)); }
  }

  /** Nor does a deletion get stuck that leaves the filler exactly one black short. */
  lemma OneShortDelete<N>(g: Shape<N>, d: N)
    requires Weak(g) && d in g.cell
    requires Linked(Unlink(g, d)) && AllEqual(Counts(TreeOf(Unlink(g, d)), {Filler(g, d)}))
    ensures !DeleteStuck(g, d)
  {
    UnlinkAround(g, d);
    var h, r := Unlink(g, d), Filler(g, d);
    if Enters(h, r) {
      EnterClimbing(h, r);
      OneShortNotStuck(h, r);
    } else {
      StuckEnters(h, r);
    }
  }

  /** The counts after deleting d, when the loop is not entered. */
  ghost function DepthsAfter<N>(g: Shape<N>, d: N): seq<int>
    requires Linked(g) && d in g.cell
  {
    SplicedFacts(g, d);
    CountsSize(TreeOf(g), {});
    var s := Spliced(g, d);
    var lost := if g.cell[s].color == BLACK && ColorOf(g, Filler(g, d)) == BLACK then 1 else 0;
    Cut(BlackDepths(TreeOf(g)), DeadSlot(g, s), g.cell[s].lo, g.cell[s].hi + 1, lost)
  }

  /** The counts before deleting d, without the path that ends where a place disappears. */
  ghost function OtherDepths<N>(g: Shape<N>, d: N): seq<int>
    requires Linked(g) && d in g.cell
  {
    SplicedFacts(g, d);
    CountsSize(TreeOf(g), {});
    var s := Spliced(g, d);
    Cut(BlackDepths(TreeOf(g)), DeadSlot(g, s), g.cell[s].lo, g.cell[s].hi + 1, 0)
  }

  /** Before became after by deleting d: d leaves the sequence, and the counts change as described. */
  ghost predicate DeletedFrom<N>(before: Shape<N>, after: Shape<N>, d: N) {
    && Linked(before) && d in before.cell && Linked(after) && Linked(Unlink(before, d)) && after.leaf == before.leaf
    && 0 <= before.cell[d].pos < |before.order|
    && after.cell.Keys == before.cell.Keys - {d}
    && after.order == before.order[..before.cell[d].pos] + before.order[before.cell[d].pos + 1..]
    && var h, r := Unlink(before, d), Filler(before, d);
    if ColorOf(before, Spliced(before, d)) == BLACK && Enters(h, r)
    then r in h.cell && Settles(h, r, after) && Counts(TreeOf(h), {r}) == OtherDepths(before, d)
    else BlackDepths(TreeOf(after)) == DepthsAfter(before, d)
  }

  /** When the loop is entered, counting the filler once more gives every remaining path its count of before. */
  lemma EnteredDepths<N>(g: Shape<N>, d: N)
    requires Weak(g) && d in g.cell && Linked(Unlink(g, d))
    requires ColorOf(g, Spliced(g, d)) == BLACK && Enters(Unlink(g, d), Filler(g, d))
    ensures Filler(g, d) in Unlink(g, d).cell && Counts(TreeOf(Unlink(g, d)), {Filler(g, d)}) == OtherDepths(g, d)
  {
    SplicedFacts(g, d);
    UnlinkAround(g, d);
    UnlinkDepths(g, {Filler(g, d)}, d);
    LostNothing(g, Spliced(g, d));
  }

  lemma LostNothing<N>(g: Shape<N>, s: N)
    requires s in g.cell && g.cell[s].color == BLACK && Replacement(g, s) in g.cell
    ensures Lost(g, s, {Replacement(g, s)}) == 0
  {}

  lemma UnlinkAround<N>(g: Shape<N>, d: N)
    requires Weak(g) && d in g.cell
    ensures var h, r, s := Unlink(g, d), Filler(g, d), Spliced(g, d);
            && Linked(h) && Around(h, r) && s in g.cell && (r in h.cell || r == h.leaf)
            && h.cell.Keys == g.cell.Keys - {d} && h.leaf == g.leaf
            && (ColorOf(g, s) == RED ==> Weak(h)) && ColorOf(h, r) == ColorOf(g, r)
  {
    UnlinkLinked(g, d);
    UnlinkColors(g, d);
    FillerApart(g, d);
    forall n | n in Unlink(g, d).cell && n != Filler(g, d) ensures RedOk(Unlink(g, d), n, Filler(g, d)) {}
  }

  lemma FillerColor<N>(g: Shape<N>, d: N)
    requires Weak(g) && d in g.cell && Spliced(g, d) in g.cell && g.cell[Spliced(g, d)].color == RED
    ensures ColorOf(g, Filler(g, d)) == BLACK
  {
    SplicedFacts(g, d);
    assert RedOk(g, Spliced(g, d), g.leaf);
  }

  /** A red place disappears. */
  lemma RedDepths<N>(g: Shape<N>, d: N)
    requires Weak(g) && d in g.cell && Spliced(g, d) in g.cell && g.cell[Spliced(g, d)].color == RED
    ensures Linked(Unlink(g, d)) && BlackDepths(TreeOf(Unlink(g, d))) == DepthsAfter(g, d)
  {
    hide *;
    WeakLinked(g);
    UnlinkLinked(g, d);
    FillerColor(g, d);
    UnlinkDepths(g, {}, d);
    RedLost(g, d);
    NoExtra(Unlink(g, d));
  }

  lemma RedLost<N>(g: Shape<N>, d: N)
    requires Linked(g) && d in g.cell && Spliced(g, d) in g.cell && g.cell[Spliced(g, d)].color == RED
    ensures var s := Spliced(g, d);
            |BlackDepths(TreeOf(g))| > 0
            && DepthsAfter(g, d) == Cut(BlackDepths(TreeOf(g)), DeadSlot(g, s), g.cell[s].lo, g.cell[s].hi + 1, Lost(g, s, {}))
  {
    SplicedFacts(g, d);
    CountsSize(TreeOf(g), {});
  }

  /** A black place disappears, and the loop is not entered. */
  lemma QuietDepths<N>(g: Shape<N>, d: N)
    requires Weak(g) && d in g.cell && Spliced(g, d) in g.cell && g.cell[Spliced(g, d)].color == BLACK
    requires Linked(Unlink(g, d)) && !Enters(Unlink(g, d), Filler(g, d))
    ensures Linked(Blacken(Unlink(g, d), Filler(g, d)))
    ensures BlackDepths(TreeOf(Blacken(Unlink(g, d), Filler(g, d)))) == DepthsAfter(g, d)
  {
    hide *;
    WeakLinked(g);
    UnlinkAround(g, d);
    var h, r := Unlink(g, d), Filler(g, d);
    QuietLost(g, d);
    if ColorOf(g, r) == RED {
      RedInside(h, r);
      UnlinkDepths(g, {r}, d);
      BlackenCounts(h, r);
    } else {
      UnlinkDepths(g, {}, d);
      BlackenBlack(h, r);
      NoExtra(h);
    }
  }

  lemma NoExtra<N>(g: Shape<N>)
    requires Linked(g)
    ensures BlackDepths(TreeOf(g)) == Counts(TreeOf(g), {})
  {}

  lemma RedInside<N>(h: Shape<N>, r: N)
    requires ColorOf(h, r) == RED
    ensures r in h.cell && h.cell[r].color == RED
  {}

  /** The count lost with a black place: none where its replacement is red and becomes black. */
  lemma QuietLost<N>(g: Shape<N>, d: N)
    requires Linked(g) && d in g.cell && Spliced(g, d) in g.cell && g.cell[Spliced(g, d)].color == BLACK
    ensures var s, r := Spliced(g, d), Filler(g, d);
            |BlackDepths(TreeOf(g))| > 0
            && DepthsAfter(g, d) == Cut(BlackDepths(TreeOf(g)), DeadSlot(g, s), g.cell[s].lo, g.cell[s].hi + 1,
                                        Lost(g, s, if ColorOf(g, r) == RED then {r} else {}))
  {
    SplicedFacts(g, d);
    CountsSize(TreeOf(g), {});
  }

  // ---------- deletion from a red-black tree ----------

  /** In a balanced tree the child of a node with at most one child is red or missing. */
  lemma FillerRedOrLeaf<N>(g: Shape<N>, d: N)
    requires Linked(g) && Balanced(g) && d in g.cell
    ensures Filler(g, d) == g.leaf || ColorOf(g, Filler(g, d)) == RED
  {
    SplicedFacts(g, d);
    var s, r := Spliced(g, d), Filler(g, d);
    FirstSplit(g, {}, s);
    FirstBounds(g, {}, s);
    if r != g.leaf && g.cell[r].color == BLACK {
      FirstSplit(g, {}, r);
      FirstBounds(g, {}, g.cell[r].left);
    }
  }

  /** Deleting from a red-black tree never enters the body of the fix-up's loop, so it never gets stuck. */
  lemma LoopNotEntered<N>(g: Shape<N>, d: N)
    requires Weak(g) && Balanced(g) && d in g.cell
    ensures Linked(Unlink(g, d)) && !Enters(Unlink(g, d), Filler(g, d)) && Harmless(g, d) && !DeleteStuck(g, d)
  {
    UnlinkAround(g, d);
    FillerRedOrLeaf(g, d);
    HarmlessNotStuck(g, d);
  }

  /**
   The result is a red-black tree exactly when the place that disappeared was red, had a red child to fill it,
   or was the only one.
   */
  lemma StaysBalanced<N>(g: Shape<N>, d: N)
    requires Weak(g) && Balanced(g) && d in g.cell
    ensures Spliced(g, d) in g.cell
    ensures AllEqual(DepthsAfter(g, d)) <==>
            g.cell[Spliced(g, d)].color == RED || ColorOf(g, Filler(g, d)) == RED || |g.order| == 1
  {
    FillerRedOrLeaf(g, d);
    CountsSize(TreeOf(g), {});
    TreeInOrder(g);
    var depths := BlackDepths(TreeOf(g));
    assert |depths| == |g.order| + 1 && AllEqual(depths);
    hide *;
    LostPlace(g, d, depths);
    var s := Spliced(g, d);
    if g.cell[s].color == RED || ColorOf(g, Filler(g, d)) == RED {
      CutEqual(depths, DeadSlot(g, s), g.cell[s].lo, g.cell[s].hi + 1);
    } else {
      CutTwo(depths, DeadSlot(g, s), g.cell[s].lo);
    }
  }

  /** The place that disappears with d: two slots where nothing fills it, one of which is closed. */
  lemma LostPlace<N>(g: Shape<N>, d: N, depths: seq<int>)
    requires Weak(g) && d in g.cell && depths == BlackDepths(TreeOf(g)) && |depths| == |g.order| + 1
    requires Filler(g, d) == g.leaf || ColorOf(g, Filler(g, d)) == RED
    ensures var s := Spliced(g, d);
            && s in g.cell && Linked(g)
            && (g.cell[s].color == RED || ColorOf(g, Filler(g, d)) == RED ==>
                  DepthsAfter(g, d) == Cut(depths, DeadSlot(g, s), g.cell[s].lo, g.cell[s].hi + 1, 0))
            && (g.cell[s].color == BLACK && ColorOf(g, Filler(g, d)) == BLACK ==>
                  && 0 <= g.cell[s].lo && g.cell[s].lo + 2 <= |depths| && g.cell[s].lo <= DeadSlot(g, s) < g.cell[s].lo + 2
                  && DepthsAfter(g, d) == Cut(depths, DeadSlot(g, s), g.cell[s].lo, g.cell[s].lo + 2, 1))
  {
    SplicedFacts(g, d);
    NodeFacts(g, Spliced(g, d));
    hide Linked, TreeOf, BlackDepths, Counts, RedOk;
  }

  // ---------- the deletion as the code runs it ----------

  lemma PlacedAt<N>(g: Shape<N>, d: N)
    requires Linked(g) && d in g.cell
    ensures 0 <= g.cell[d].pos < |g.order| && g.order[g.cell[d].pos] == d
  {}

  /** However the fix-up ran, the tree after it comes from the one before by deleting d. */
  lemma DeletedIntro<N>(before: Shape<N>, after: Shape<N>, d: N, c: Color)
    requires Weak(before) && d in before.cell && Weak(after) && c == ColorOf(before, Spliced(before, d))
    requires c == RED ==> after == Unlink(before, d)
    requires c == BLACK && !Enters(Unlink(before, d), Filler(before, d)) ==> after == Blacken(Unlink(before, d), Filler(before, d))
    requires Linked(Unlink(before, d))
    requires c == BLACK && Enters(Unlink(before, d), Filler(before, d)) ==>
               Filler(before, d) in Unlink(before, d).cell && Settles(Unlink(before, d), Filler(before, d), after)
    requires after.order == Unlink(before, d).order && after.cell.Keys == Unlink(before, d).cell.Keys && after.leaf == before.leaf
    ensures DeletedFrom(before, after, d)
  {
    UnlinkAround(before, d);
    UnlinkLinked(before, d);
    if c == RED {
      RedDepths(before, d);
    } else if !Enters(Unlink(before, d), Filler(before, d)) {
      QuietDepths(before, d);
    } else {
      EnteredDepths(before, d);
    }
  }

  lemma StuckMeaning<N>(g: Shape<N>, d: N)
    requires Linked(g) && d in g.cell && Linked(Unlink(g, d))
    ensures DeleteStuck(g, d) <==> ColorOf(g, Spliced(g, d)) == BLACK && Stuck(Unlink(g, d), Filler(g, d))
  {}

  /**
   In any weakly valid tree, where the fix-up climbs and does not get stuck: the deletion keeps the counts of all other
   paths, or lowers them all by one, or, after a double rotation below a red parent, raises those of the slots lo..hi-1
   of the tree without d by one.
   */
  lemma DeleteKeepsCounts<N>(before: Shape<N>, after: Shape<N>, d: N)
    requires Linked(before) && Linked(after) && DeletedFrom(before, after, d) && !Harmless(before, d) && !DeleteStuck(before, d)
    ensures Linked(Unlink(before, d))
    ensures var e, c, r := ClimbEnd(Unlink(before, d), Filler(before, d)), OtherDepths(before, d), BlackDepths(TreeOf(after));
            && (e == AtRed || e == Rightly ==> r == c) && (e == AtRoot ==> Plus(1, r) == c)
            && (e.Lifting? ==> r == Lift(c, e.lo, e.hi) && 0 <= e.lo < e.hi <= |c| && e.hi - e.lo < |c|)
            && (Balanced(after) && AllEqual(c) ==> !e.Lifting?) && (!e.Lifting? ==> (Balanced(after) <==> AllEqual(c)))
  {
    var h, x := Unlink(before, d), Filler(before, d);
    SettlesBalanced(h, x, after);
    if Breaks(h, x) {
      LiftProper(h, x);
      CountsSize(TreeOf(h), {x});
      TreeInOrder(h);
    }
    hide Linked, TreeOf, ClimbEnd, Unlink, Filler, OtherDepths;
  }

  /** Deletion from a red-black tree, in one sentence: when the result is one again. */
  lemma DeleteFromRedBlack<N>(before: Shape<N>, after: Shape<N>, d: N)
    requires Linked(before) && RedBlack(TreeOf(before)) && Weak(after) && DeletedFrom(before, after, d)
    ensures Spliced(before, d) in before.cell
    ensures RedBlack(TreeOf(after)) <==>
            || before.cell[Spliced(before, d)].color == RED || ColorOf(before, Filler(before, d)) == RED
            || |InOrder(TreeOf(before))| == 1
  {
    WeakMeaning(before);
    WeakMeaning(after);
    TreeInOrder(before);
    LoopNotEntered(before, d);
    StaysBalanced(before, d);
  }
}
