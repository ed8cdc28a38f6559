/** Concrete trees on which the deletion code does not do what a red-black tree promises. Nodes are numbers, 0 is the sentinel. */
module Examples {
  import opened Nodes
  import opened Shapes
  import opened BlackCounts
  import opened Trees
  import opened ShapeTrees
  import opened ColorRules
  import opened DeleteSteps
  import opened LastRotation
  import opened RotationCounts
  import opened DeleteFixup
  import opened Unlinking
  import opened DeleteOutcome

  /** Every count below n is k. */
  ghost predicate Even(g: Shape<int>, n: int, extra: set<int>, k: int)
    requires Linked(g) && (n in g.cell || n == g.leaf)
  {
    AllAre(Counts(Subtree(g, n), extra), k)
  }

  lemma EvenLeaf(g: Shape<int>, extra: set<int>)
    requires Linked(g)
    ensures Even(g, g.leaf, extra, 0)
  {}

  lemma EvenAbove(g: Shape<int>, n: int, l: int, r: int, extra: set<int>, k: int)
    requires Linked(g) && n in g.cell && l == g.cell[n].left && r == g.cell[n].right
    requires (l in g.cell || l == g.leaf) && (r in g.cell || r == g.leaf) && Even(g, l, extra, k) && Even(g, r, extra, k)
    ensures Even(g, n, extra, k + Weight(n, g.cell[n].color, extra))
  {
    PlusAllAre(Weight(n, g.cell[n].color, extra), Counts(Subtree(g, l), extra), Counts(Subtree(g, r), extra),
               k + Weight(n, g.cell[n].color, extra));
  }

  lemma EvenRoot(g: Shape<int>, extra: set<int>, k: int)
    requires Linked(g) && (g.root in g.cell || g.root == g.leaf) && Even(g, g.root, extra, k)
    ensures AllEqual(Counts(TreeOf(g), extra)) && AllAre(Counts(TreeOf(g), extra), k)
  {}

  // ---------- a black childless node is deleted ----------

  /** 2 above 1 and 3, all black. */
  ghost function ThreeBlack(): Shape<int> {
    Shape(0, 2, [1, 2, 3], map[
      1 := Cell(0, 0, 2, BLACK, 0, 0, 1),
      2 := Cell(1, 3, 0, BLACK, 0, 1, 3),
      3 := Cell(0, 0, 2, BLACK, 2, 2, 3)])
  }

  lemma ThreeLinked()
    ensures Linked(ThreeBlack()) && Weak(ThreeBlack())
  {
    var g := ThreeBlack();
    assert Hangs(g, 1) && Hangs(g, 2) && Hangs(g, 3);
  }

  lemma ThreeBalanced()
    requires Linked(ThreeBlack())
    ensures Balanced(ThreeBlack())
  {
    var g := ThreeBlack();
    EvenLeaf(g, {});
    EvenAbove(g, 1, 0, 0, {}, 0);
    EvenAbove(g, 3, 0, 0, {}, 0);
    EvenAbove(g, 2, 1, 3, {}, 1);
    EvenRoot(g, {}, 2);
  }

  /** A red-black tree, and the deletion of a black childless node, as the code runs it: the black counts then differ. */
  lemma BlackChildlessDeleted()
    ensures Linked(ThreeBlack()) && RedBlack(TreeOf(ThreeBlack()))
    ensures var after := Blacken(Unlink(ThreeBlack(), 1), 0);
            Linked(after) && Weak(after) && DeletedFrom(ThreeBlack(), after, 1) && !RedBlack(TreeOf(after))
  {
    var g := ThreeBlack();
    ThreeLinked();
    ThreeBalanced();
    WeakMeaning(g);
    TreeInOrder(g);
    assert Spliced(g, 1) == 1 && Filler(g, 1) == 0;
    UnlinkAround(g, 1);
    LoopNotEntered(g, 1);
    BlackenWeak(Unlink(g, 1), 0);
    BlackenBlack(Unlink(g, 1), 0);
    DeletedIntro(g, Unlink(g, 1), 1, BLACK);
    DeleteFromRedBlack(g, Unlink(g, 1), 1);
  }

  // ---------- a red inner nephew below a red parent ----------

  /**
   1 is one black short, its parent 2 is red, its sibling 6 black, with a red child 4 on 1's side and a black one, 7,
   on the other.
   */
  ghost function Nephew(): Shape<int> {
    Shape(0, 8, [1, 2, 3, 4, 5, 6, 7, 8, 9, 10, 11], map[
      1 := Cell(0, 0, 2, BLACK, 0, 0, 1),
      2 := Cell(1, 6, 8, RED, 0, 1, 7),
      3 := Cell(0, 0, 4, BLACK, 2, 2, 3),
      4 := Cell(3, 5, 6, RED, 2, 3, 5),
      5 := Cell(0, 0, 4, BLACK, 4, 4, 5),
      6 := Cell(4, 7, 2, BLACK, 2, 5, 7),
      7 := Cell(0, 0, 6, BLACK, 6, 6, 7),
      8 := Cell(2, 10, 0, BLACK, 0, 7, 11),
      9 := Cell(0, 0, 10, BLACK, 8, 8, 9),
      10 := Cell(9, 11, 8, BLACK, 8, 9, 11),
      11 := Cell(0, 0, 10, BLACK, 10, 10, 11)])
  }

  lemma NephewPlacedLow()
    ensures forall n :: 1 <= n <= 6 ==> n in Nephew().cell && Placed(Nephew(), n)
  {
    var g := Nephew();
    assert Placed(g, 1) && Placed(g, 2) && Placed(g, 3) && Placed(g, 4) && Placed(g, 5) && Placed(g, 6);
  }

  lemma NephewPlacedHigh()
    ensures forall n :: 7 <= n <= 11 ==> n in Nephew().cell && Placed(Nephew(), n)
  {
    var g := Nephew();
    assert Placed(g, 7) && Placed(g, 8) && Placed(g, 9) && Placed(g, 10) && Placed(g, 11);
  }

  lemma NephewOrder()
    ensures forall i :: 0 <= i < |Nephew().order| ==> Nephew().order[i] in Nephew().cell && Nephew().cell[Nephew().order[i]].pos == i
  {}

  lemma NephewIndexed()
    ensures Indexed(Nephew())
  {
    NephewPlacedLow();
    NephewPlacedHigh();
    NephewOrder();
    assert forall n :: n in Nephew().cell ==> 1 <= n <= 6 || 7 <= n <= 11;
    hide Placed;
  }

  lemma NephewHangsLow()
    ensures forall n :: 1 <= n <= 6 ==> n in Nephew().cell && Hangs(Nephew(), n)
  {
    var g := Nephew();
    assert Hangs(g, 1) && Hangs(g, 2) && Hangs(g, 3) && Hangs(g, 4) && Hangs(g, 5) && Hangs(g, 6);
  }

  lemma NephewHangsHigh()
    ensures forall n :: 7 <= n <= 11 ==> n in Nephew().cell && Hangs(Nephew(), n)
  {
    var g := Nephew();
    assert Hangs(g, 7) && Hangs(g, 8) && Hangs(g, 9) && Hangs(g, 10) && Hangs(g, 11);
  }

  lemma NephewLinked()
    ensures Linked(Nephew())
  {
    NephewIndexed();
    NephewHangsLow();
    NephewHangsHigh();
    NephewNodes();
    hide Indexed, Hangs, Fills;
    var g := Nephew();
    forall n | n in g.cell ensures Hangs(g, n) {
      assert 1 <= n <= 6 || 7 <= n <= 11;
    }
  }

  lemma NephewNodes()
    ensures forall n :: n in Nephew().cell ==> 1 <= n <= 6 || 7 <= n <= 11
    ensures var g := Nephew(); Fills(g, g.root, 0, |g.order|, g.leaf)
  {}

  lemma NephewAround()
    requires Linked(Nephew())
    ensures Around(Nephew(), 1) && Enters(Nephew(), 1)
  {
    hide Linked;
  }

  lemma NephewCounts()
    requires Linked(Nephew())
    ensures AllEqual(Counts(TreeOf(Nephew()), {1})) && Counts(TreeOf(Nephew()), {1}) == [3, 3, 3, 3, 3, 3, 3, 3, 3, 3, 3, 3]
  {
    var g := Nephew();
    hide Linked, Even;
    EvenLeaf(g, {1});
    EvenAbove(g, 1, 0, 0, {1}, 0);
    EvenAbove(g, 3, 0, 0, {1}, 0);
    EvenAbove(g, 5, 0, 0, {1}, 0);
    EvenAbove(g, 7, 0, 0, {1}, 0);
    EvenAbove(g, 9, 0, 0, {1}, 0);
    EvenAbove(g, 11, 0, 0, {1}, 0);
    EvenAbove(g, 4, 3, 5, {1}, 1);
    EvenAbove(g, 6, 4, 7, {1}, 1);
    EvenAbove(g, 2, 1, 6, {1}, 2);
    EvenAbove(g, 10, 9, 11, {1}, 1);
    EvenAbove(g, 8, 2, 10, {1}, 2);
    EvenRoot(g, {1}, 3);
    CountsSize(TreeOf(g), {1});
    TreeInOrder(g);
  }

  /**
   1 is exactly one short, so the fix-up gets through; but it ends in four slots with four blacks and eight with
   three. The tree below, 4 rotated above 6 and then above 2, is one like that.
   */
  lemma InnerNephewBreaks()
    ensures Linked(Nephew()) && Around(Nephew(), 1) && Enters(Nephew(), 1) && AllEqual(Counts(TreeOf(Nephew()), {1}))
    ensures ClimbEnd(Nephew(), 1) == Lifting(0, 4)
    ensures forall h: Shape<int> :: Linked(h) && Settles(Nephew(), 1, h) ==>
              BlackDepths(TreeOf(h)) == [4, 4, 4, 4, 3, 3, 3, 3, 3, 3, 3, 3] && !Balanced(h)
    ensures var r := LastRotate(SwapRotate(Nephew(), 6, 4), 2, 4, 6, BLACK, RED);
            Linked(r) && Weak(r) && Settles(Nephew(), 1, r)
  {
    hide *;
    NephewLinked();
    NephewAround();
    NephewCounts();
    NephewMet();
    EnterClimbing(Nephew(), 1);
    NephewEnds();
    forall h: Shape<int> | Linked(h) && Settles(Nephew(), 1, h)
      ensures BlackDepths(TreeOf(h)) == [4, 4, 4, 4, 3, 3, 3, 3, 3, 3, 3, 3] && !Balanced(h)
    {
      NephewLifted(h);
    }
  }

  lemma NephewLifted(h: Shape<int>)
    requires Linked(Nephew()) && 1 in Nephew().cell && Linked(h) && Settles(Nephew(), 1, h)
    requires Counts(TreeOf(Nephew()), {1}) == [3, 3, 3, 3, 3, 3, 3, 3, 3, 3, 3, 3] && ClimbEnd(Nephew(), 1) == Lifting(0, 4)
    ensures BlackDepths(TreeOf(h)) == [4, 4, 4, 4, 3, 3, 3, 3, 3, 3, 3, 3] && !Balanced(h)
  {
    hide Linked, ClimbEnd, Nephew, TreeOf, Counts, Lift;
    LiftedThrees();
    assert BlackDepths(TreeOf(h))[0] != BlackDepths(TreeOf(h))[4];
  }

  lemma LiftedThrees()
    ensures Lift([3, 3, 3, 3, 3, 3, 3, 3, 3, 3, 3, 3], 0, 4) == [4, 4, 4, 4, 3, 3, 3, 3, 3, 3, 3, 3]
  {}

  lemma NephewMet()
    requires Linked(Nephew())
    ensures ClimbEnd(Nephew(), 1) == Lifting(0, 4)
  {
    hide Linked;
  }

  lemma NephewEnds()
    requires Climbing(Nephew(), 1) && ClimbEnd(Nephew(), 1) == Lifting(0, 4)
    ensures var r := LastRotate(SwapRotate(Nephew(), 6, 4), 2, 4, 6, BLACK, RED);
            Linked(r) && Weak(r) && Settles(Nephew(), 1, r)
  {
    NephewPlace();
    hide *;
    DoubleStep(Nephew(), 1, 2, 6, 4);
    var h := SwapRotate(Nephew(), 6, 4);
    NephewLast(h);
    LastWeak(h, 1, 2, 4, 6, BLACK, RED);
    DoubleEndSettles(Nephew(), h, 1, 2, 6, 4);
    LastAsRotate(h, 2, 4, 6, BLACK, RED);
    WeakLinked(LastRotate(h, 2, 4, 6, BLACK, RED));
  }

  lemma NephewPlace()
    requires Climbing(Nephew(), 1)
    ensures var g := Nephew();
            && Level(g, 1, 2, 6) && 4 == Near(g, 2, 1, 6) && ColorOf(g, 4) == RED && ColorOf(g, Far(g, 2, 1, 6)) == BLACK
            && 6 in g.cell && 4 in g.cell && 2 in g.cell && g.cell[2].color == RED && InnerNephew(g, 2, 1, 6)
  {
    hide Climbing;
  }

  lemma NephewLast(h: Shape<int>)
    requires FarRed(h, 1, 2, 4, 6) && h.cell[2].color == RED
    ensures LastColors(h, 2, BLACK, RED) && 2 in h.cell && 4 in h.cell
  {}

  // ---------- a sibling that is the sentinel ----------

  /** Seven black nodes: 4 above 2 and 6, above 1, 3, 5 and 7. */
  ghost function Seven(): Shape<int> {
    Shape(0, 4, [1, 2, 3, 4, 5, 6, 7], map[
      1 := Cell(0, 0, 2, BLACK, 0, 0, 1),
      2 := Cell(1, 3, 4, BLACK, 0, 1, 3),
      3 := Cell(0, 0, 2, BLACK, 2, 2, 3),
      4 := Cell(2, 6, 0, BLACK, 0, 3, 7),
      5 := Cell(0, 0, 6, BLACK, 4, 4, 5),
      6 := Cell(5, 7, 4, BLACK, 4, 5, 7),
      7 := Cell(0, 0, 6, BLACK, 6, 6, 7)])
  }

  ghost function WithoutFive(): Shape<int> {
    Shape(0, 4, [1, 2, 3, 4, 6, 7], map[
      1 := Cell(0, 0, 2, BLACK, 0, 0, 1),
      2 := Cell(1, 3, 4, BLACK, 0, 1, 3),
      3 := Cell(0, 0, 2, BLACK, 2, 2, 3),
      4 := Cell(2, 6, 0, BLACK, 0, 3, 6),
      6 := Cell(0, 7, 4, BLACK, 4, 4, 6),
      7 := Cell(0, 0, 6, BLACK, 5, 5, 6)])
  }

  ghost function WithoutSeven(): Shape<int> {
    Shape(0, 4, [1, 2, 3, 4, 6], map[
      1 := Cell(0, 0, 2, BLACK, 0, 0, 1),
      2 := Cell(1, 3, 4, BLACK, 0, 1, 3),
      3 := Cell(0, 0, 2, BLACK, 2, 2, 3),
      4 := Cell(2, 6, 0, BLACK, 0, 3, 5),
      6 := Cell(0, 0, 4, BLACK, 4, 4, 5)])
  }

  /** 4 above 2 and 6, and 1 below 2, all black. */
  ghost function Lopsided(): Shape<int> {
    Shape(0, 4, [1, 2, 4, 6], map[
      1 := Cell(0, 0, 2, BLACK, 0, 0, 1),
      2 := Cell(1, 0, 4, BLACK, 0, 1, 2),
      4 := Cell(2, 6, 0, BLACK, 0, 2, 4),
      6 := Cell(0, 0, 4, BLACK, 3, 3, 4)])
  }

  /** 4 above 2 above 1, all black. */
  ghost function Chain(): Shape<int> {
    Shape(0, 4, [1, 2, 4], map[
      1 := Cell(0, 0, 2, BLACK, 0, 0, 1),
      2 := Cell(1, 0, 4, BLACK, 0, 1, 2),
      4 := Cell(2, 0, 0, BLACK, 0, 2, 3)])
  }

  lemma SevenLinked()
    ensures Linked(Seven())
  {
    var g := Seven();
    SevenIndexed();
    SevenHangs();
    hide Indexed, Hangs, Fills;
    forall n | n in g.cell ensures Hangs(g, n) {
      assert 1 <= n <= 7;
    }
  }

  lemma SevenIndexed()
    ensures Indexed(Seven()) && Fills(Seven(), 4, 0, 7, 0)
  {
    var g := Seven();
    assert Placed(g, 1) && Placed(g, 2) && Placed(g, 3) && Placed(g, 4) && Placed(g, 5) && Placed(g, 6) && Placed(g, 7);
  }

  lemma SevenHangs()
    ensures forall n :: 1 <= n <= 7 ==> n in Seven().cell && Hangs(Seven(), n)
  {
    var g := Seven();
    assert Hangs(g, 1) && Hangs(g, 2) && Hangs(g, 3) && Hangs(g, 4) && Hangs(g, 5) && Hangs(g, 6) && Hangs(g, 7);
  }

  /** Deleting the childless d, as the code runs it, takes g to h and never enters the fix-up's loop. */
  ghost predicate Plucks(g: Shape<int>, d: int, h: Shape<int>) {
    && Linked(g) && d in g.cell && Linked(Unlink(g, d)) && Blacken(Unlink(g, d), Filler(g, d)) == h
    && Harmless(g, d) && !DeleteStuck(g, d)
  }

  lemma Pluck(g: Shape<int>, d: int, h: Shape<int>)
    requires Linked(g) && d in g.cell && g.cell[d].left == g.leaf && g.cell[d].right == g.leaf && h == Splice(g, d)
    ensures Linked(h) && Plucks(g, d, h)
  {
    UnlinkLinked(g, d);
    assert Unlink(g, d) == h && Filler(g, d) == g.leaf;
    hide Linked;
    SpliceNodes(g, d);
    BlackenBlack(h, g.leaf);
    HarmlessNotStuck(g, d);
  }

  lemma SpliceSame(g: Shape<int>, d: int, h: Shape<int>)
    requires Indexed(g) && d in g.cell && g.order[..g.cell[d].pos] + g.order[g.cell[d].pos + 1..] == h.order
    requires h.cell.Keys == g.cell.Keys - {d} && forall n :: n in h.cell ==> h.cell[n] == SplicedCell(g, d, n)
    requires g.root != d && h.leaf == g.leaf && h.root == g.root
    ensures Splice(g, d) == h
  {
    var s := Splice(g, d);
    assert s.cell.Keys == h.cell.Keys;
    forall n | n in s.cell ensures s.cell[n] == h.cell[n] {
      assert s.cell[n] == SplicedCell(g, d, n);
    }
  }

  lemma FiveSpliced()
    ensures var g, h := Seven(), WithoutFive();
            && h.cell.Keys == g.cell.Keys - {5} && g.order[..4] + g.order[5..] == h.order
            && forall n :: n in h.cell ==> h.cell[n] == SplicedCell(g, 5, n)
  {}

  lemma FivePlucked()
    requires Linked(Seven())
    ensures Linked(WithoutFive()) && Plucks(Seven(), 5, WithoutFive())
  {
    FiveSpliced();
    hide Linked, Plucks, SplicedCell;
    SpliceSame(Seven(), 5, WithoutFive());
    Pluck(Seven(), 5, WithoutFive());
  }

  lemma SevenSpliced()
    ensures var g, h := WithoutFive(), WithoutSeven();
            && h.cell.Keys == g.cell.Keys - {7} && g.order[..5] + g.order[6..] == h.order
            && forall n :: n in h.cell ==> h.cell[n] == SplicedCell(g, 7, n)
  {}

  lemma SevenPlucked()
    requires Linked(WithoutFive())
    ensures Linked(WithoutSeven()) && Plucks(WithoutFive(), 7, WithoutSeven())
  {
    SevenSpliced();
    hide Linked, Plucks, SplicedCell;
    SpliceSame(WithoutFive(), 7, WithoutSeven());
    Pluck(WithoutFive(), 7, WithoutSeven());
  }

  lemma ThreeSpliced()
    ensures var g, h := WithoutSeven(), Lopsided();
            && h.cell.Keys == g.cell.Keys - {3} && g.order[..2] + g.order[3..] == h.order
            && forall n :: n in h.cell ==> h.cell[n] == SplicedCell(g, 3, n)
  {}

  lemma ThreePlucked()
    requires Linked(WithoutSeven())
    ensures Linked(Lopsided()) && Plucks(WithoutSeven(), 3, Lopsided())
  {
    ThreeSpliced();
    hide Linked, Plucks, SplicedCell;
    SpliceSame(WithoutSeven(), 3, Lopsided());
    Pluck(WithoutSeven(), 3, Lopsided());
  }

  lemma SixSpliced()
    ensures var g, h := Lopsided(), Chain();
            && h.cell.Keys == g.cell.Keys - {6} && g.order[..3] + g.order[4..] == h.order
            && forall n :: n in h.cell ==> h.cell[n] == SplicedCell(g, 6, n)
  {}

  lemma SixPlucked()
    requires Linked(Lopsided())
    ensures Linked(Chain()) && Plucks(Lopsided(), 6, Chain())
  {
    SixSpliced();
    hide Linked, Plucks, SplicedCell;
    SpliceSame(Lopsided(), 6, Chain());
    Pluck(Lopsided(), 6, Chain());
  }

  /** Deleting 5, 7 and 3 from seven black nodes leaves the lopsided tree, and deleting 6 from that the chain. */
  lemma ChainReached()
    ensures Plucks(Seven(), 5, WithoutFive()) && Plucks(WithoutFive(), 7, WithoutSeven())
    ensures Plucks(WithoutSeven(), 3, Lopsided()) && Plucks(Lopsided(), 6, Chain())
    ensures Linked(Seven()) && Linked(Lopsided()) && Linked(Chain())
  {
    hide *;
    SevenLinked();
    FivePlucked();
    SevenPlucked();
    ThreePlucked();
    SixPlucked();
  }

  lemma AllBlack<N>(g: Shape<N>)
    requires Linked(g) && forall n :: n in g.cell ==> g.cell[n].color == BLACK
    ensures Weak(g)
  {
    forall n | n in g.cell ensures RedOk(g, n, g.leaf) {}
    if g.root in g.cell { assert g.cell[g.root].color == BLACK; }
  }

  /** Taking out d, which has one child, that child fills the gap. */
  lemma TakenOut(g: Shape<int>, d: int, h: Shape<int>)
    requires Linked(g) && Spliceable(g, d) && g.cell[d].color == BLACK && h == Splice(g, d)
    ensures Linked(h) && (DeleteStuck(g, d) <==> Stuck(h, Replacement(g, d)))
    ensures Harmless(g, d) <==> !Enters(h, Replacement(g, d))
  {
    UnlinkLinked(g, d);
    assert Unlink(g, d) == h && Filler(g, d) == Replacement(g, d) && Spliced(g, d) == d;
    hide Linked, Stuck, Splice;
  }

  ghost function ChainCut(): Shape<int> {
    Shape(0, 4, [1, 4], map[
      1 := Cell(0, 0, 4, BLACK, 0, 0, 1),
      4 := Cell(1, 0, 0, BLACK, 0, 1, 2)])
  }

  ghost function LopsidedCut(): Shape<int> {
    Shape(0, 4, [1, 4, 6], map[
      1 := Cell(0, 0, 4, BLACK, 0, 0, 1),
      4 := Cell(1, 6, 0, BLACK, 0, 1, 3),
      6 := Cell(0, 0, 4, BLACK, 2, 2, 3)])
  }

  /**
   On the chain the fix-up for 2 is entered at 1, whose sibling is the sentinel: there the source follows a nil link,
   although the weak invariant holds.
   */
  lemma SentinelSibling()
    ensures Linked(Chain()) && Weak(Chain()) && DeleteStuck(Chain(), 2)
  {
    ChainReached();
    hide Linked, Weak, DeleteStuck, Plucks, Stuck;
    AllBlack(Chain());
    SpliceSame(Chain(), 2, ChainCut());
    TakenOut(Chain(), 2, ChainCut());
    ChainStuck();
  }

  lemma ChainStuck()
    requires Linked(ChainCut())
    ensures Stuck(ChainCut(), 1)
  {
    hide Linked;
  }

  /** On the lopsided tree the fix-up for 2 is entered too, and gets through. */
  lemma LopsidedPasses()
    ensures Linked(Lopsided()) && Weak(Lopsided()) && !DeleteStuck(Lopsided(), 2) && !Harmless(Lopsided(), 2)
  {
    ChainReached();
    LopsidedSpliced();
    LopsidedEnters();
    hide Linked, Weak, DeleteStuck, Harmless, Plucks, Stuck, SplicedCell, Enters;
    AllBlack(Lopsided());
    SpliceSame(Lopsided(), 2, LopsidedCut());
    TakenOut(Lopsided(), 2, LopsidedCut());
    LopsidedFree();
  }

  lemma LopsidedSpliced()
    ensures var g, h := Lopsided(), LopsidedCut();
            && h.cell.Keys == g.cell.Keys - {2} && g.order[..1] + g.order[2..] == h.order
            && forall n :: n in h.cell ==> h.cell[n] == SplicedCell(g, 2, n)
  {}

  lemma LopsidedEnters()
    ensures Enters(LopsidedCut(), 1)
  {}

  lemma LopsidedFree()
    requires Linked(LopsidedCut())
    ensures !Stuck(LopsidedCut(), 1)
  {
    hide Linked;
  }
}
