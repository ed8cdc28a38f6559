/** Coloured binary trees as values, and what makes one a red-black tree. */
module Trees {
  import opened Nodes
  import opened BlackCounts

  datatype Tree<N> = Leaf | Branch(left: Tree<N>, node: N, color: Color, right: Tree<N>)

  ghost function InOrder<N>(t: Tree<N>): seq<N> {
    match t
    case Leaf => []
    case Branch(l, n, _, r) => InOrder(l) + [n] + InOrder(r)
  }

  ghost function Height<N>(t: Tree<N>): nat {
    match t
    case Leaf => 0
    case Branch(l, _, _, r) => 1 + if Height(l) > Height(r) then Height(l) else Height(r)
  }

  /** What a node adds to the counts below it; nodes in extra are counted once more. */
  ghost function Weight<N>(n: N, c: Color, extra: set<N>): nat {
    (if c == BLACK then 1 else 0) + if n in extra then 1 else 0
  }

  /** For each LEAF, from left to right: the total weight of the nodes on the way to it from the root. */
  ghost function Counts<N>(t: Tree<N>, extra: set<N>): seq<int> {
    match t
    case Leaf => [0]
    case Branch(l, n, c, r) => Plus(Weight(n, c, extra), Counts(l, extra) + Counts(r, extra))
  }

  /** For each LEAF, from left to right: the number of black nodes on the way to it. */
  ghost function BlackDepths<N>(t: Tree<N>): seq<int> {
    Counts(t, {})
  }

  ghost predicate RootBlack<N>(t: Tree<N>) { t.Branch? ==> t.color == BLACK }

  ghost predicate NoRedRed<N>(t: Tree<N>) {
    match t
    case Leaf => true
    case Branch(l, _, c, r) => (c == RED ==> RootBlack(l) && RootBlack(r)) && NoRedRed(l) && NoRedRed(r)
  }

  ghost predicate RedBlack<N>(t: Tree<N>) {
    RootBlack(t) && NoRedRed(t) && AllEqual(BlackDepths(t))
  }

  lemma {:induction false} CountsSize<N>(t: Tree<N>, extra: set<N>)
    ensures |Counts(t, extra)| == |InOrder(t)| + 1
  {
    if t.Branch? {
      CountsSize(t.left, extra);
      CountsSize(t.right, extra);
    }
  }

  lemma InOrderOfBranch<N>(l: Tree<N>, n: N, c: Color, r: Tree<N>)
    ensures InOrder(Branch(l, n, c, r)) == InOrder(l) + [n] + InOrder(r)
  {}

  lemma CountsOfBranch<N>(l: Tree<N>, n: N, c: Color, r: Tree<N>, extra: set<N>)
    ensures Counts(Branch(l, n, c, r), extra) == Plus(Weight(n, c, extra), Counts(l, extra) + Counts(r, extra))
  {}

  lemma WeightOf<N>(c: N, color: Color, n: N)
    ensures Weight(c, color, {n}) == Weight(c, color, {}) + if c == n then 1 else 0
  {}

  lemma LeafCounts<N>(extra: set<N>)
    ensures Counts<N>(Leaf, extra) == [0]
  {}

  // ---------- the counts are those of the root-to-LEAF paths ----------

  datatype Turn = GoLeft | GoRight

  /** path leads from the root of t to a LEAF. */
  ghost predicate ToLeaf<N>(t: Tree<N>, path: seq<Turn>) {
    match t
    case Leaf => path == []
    case Branch(l, _, _, r) => path != [] && ToLeaf(if path[0] == GoLeft then l else r, path[1..])
  }

  ghost function BlacksOn<N>(t: Tree<N>, path: seq<Turn>): int
    requires ToLeaf(t, path)
  {
    match t
    case Leaf => 0
    case Branch(l, n, c, r) => Weight(n, c, {}) + BlacksOn(if path[0] == GoLeft then l else r, path[1..])
  }

  lemma {:induction false} PathHasSlot<N>(t: Tree<N>, path: seq<Turn>) returns (i: nat)
    requires ToLeaf(t, path)
    ensures i < |BlackDepths(t)| && BlackDepths(t)[i] == BlacksOn(t, path)
  {
    if t.Leaf? {
      i := 0;
    } else if path[0] == GoLeft {
      i := PathHasSlot(t.left, path[1..]);
    } else {
      i := PathHasSlot(t.right, path[1..]);
      i := i + |BlackDepths(t.left)|;
    }
  }

  lemma {:induction false} SlotHasPath<N>(t: Tree<N>, i: nat) returns (path: seq<Turn>)
    requires i < |BlackDepths(t)|
    ensures ToLeaf(t, path) && BlackDepths(t)[i] == BlacksOn(t, path)
  {
    if t.Leaf? {
      path := [];
    } else if i < |BlackDepths(t.left)| {
      var p := SlotHasPath(t.left, i);
      path := [GoLeft] + p;
    } else {
      var p := SlotHasPath(t.right, i - |BlackDepths(t.left)|);
      path := [GoRight] + p;
    }
  }

  ghost predicate PathsAgree<N>(t: Tree<N>) {
    forall p, q :: ToLeaf(t, p) && ToLeaf(t, q) ==> BlacksOn(t, p) == BlacksOn(t, q)
  }

  /** Equal counts in all slots means what it should: all root-to-LEAF paths meet equally many black nodes. */
  lemma EqualCountsOnAllPaths<N>(t: Tree<N>)
    ensures AllEqual(BlackDepths(t)) <==> PathsAgree(t)
  {
    var d := BlackDepths(t);
    if AllEqual(d) {
      forall p, q | ToLeaf(t, p) && ToLeaf(t, q) ensures BlacksOn(t, p) == BlacksOn(t, q) {
        var i := PathHasSlot(t, p);
        var j := PathHasSlot(t, q);
      }
    }
    if PathsAgree(t) {
      forall i, j | 0 <= i < |d| && 0 <= j < |d| ensures d[i] == d[j] {
        var p := SlotHasPath(t, i);
        var q := SlotHasPath(t, j);
      }
    }
  }

  // ---------- height ----------

  ghost function Pow2(k: nat): nat { if k == 0 then 1 else 2 * Pow2(k - 1) }

  lemma {:induction false} Pow2Monotone(a: nat, b: nat)
    requires a <= b
    ensures Pow2(a) <= Pow2(b)
    decreases b
  {
    if a < b { Pow2Monotone(a, b - 1); }
  }

  lemma {:induction false} Pow2Double(k: nat)
    ensures Pow2(2 * k) == Pow2(k) * Pow2(k)
  {
    if k > 0 {
      Pow2Double(k - 1);
      assert Pow2(2 * k) == 2 * Pow2(2 * k - 1) == 4 * Pow2(2 * (k - 1));
    }
  }

  lemma {:induction false} CountBounds<N>(t: Tree<N>, k: int)
    requires NoRedRed(t) && AllAre(BlackDepths(t), k)
    ensures 0 <= k && Pow2(k) <= |InOrder(t)| + 1
    ensures Height(t) <= 2 * k + if RootBlack(t) then 0 else 1
  {
    match t
    case Leaf => assert BlackDepths(t)[0] == k;
    case Branch(l, n, c, r) =>
      var b := Weight(n, c, {});
      PlusAllAre(b, BlackDepths(l), BlackDepths(r), k);
      CountBounds(l, k - b);
      CountBounds(r, k - b);
  }

  lemma Squares(a: nat, b: nat)
    requires a <= b
    ensures a * a <= b * b
  {}

  /** The height of a red-black tree of n nodes is at most 2 * log2(n + 1). */
  lemma HeightBound<N>(t: Tree<N>)
    requires RedBlack(t)
    ensures Pow2(Height(t)) <= (|InOrder(t)| + 1) * (|InOrder(t)| + 1)
  {
    CountsSize(t, {});
    var k := BlackDepths(t)[0];
    assert AllAre(BlackDepths(t), k);
    CountBounds(t, k);
    Pow2Monotone(Height(t), 2 * k);
    Pow2Double(k);
    Squares(Pow2(k), |InOrder(t)| + 1);
  }
}
