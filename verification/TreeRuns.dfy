/** Whole runs of tree operations, from an empty tree, against a finite map. */
module TreeRuns {
  import opened Nodes
  import opened Shapes
  import opened Trees
  import opened ShapeTrees
  import opened ColorRules
  import opened KeyOrder
  import opened Unlinking
  import opened DeleteFixup
  import opened DeleteOutcome
  import opened DeleteWrites
  import opened Traversal
  import opened RBtrees

  datatype Op = Insert(key: Item) | Find(key: Item) | Delete(key: Item)

  /** The map after an operation. */
  ghost function After(cmp: CompareFunc, s: set<Item>, op: Op): set<Item> {
    match op
    case Insert(key) => if Holds(cmp, s, key) then s else s + {key}
    case Find(_) => s
    case Delete(key) => s - {LookUp(cmp, s, key)}
  }

  /** Its answer: the stored item that compares equal to the key, or nil. */
  ghost function Answer(cmp: CompareFunc, s: set<Item>, op: Op): Item {
    LookUp(cmp, s, op.key)
  }

  ghost function MapAfter(cmp: CompareFunc, ops: seq<Op>): set<Item> {
    if ops == [] then {} else After(cmp, MapAfter(cmp, ops[..|ops| - 1]), ops[|ops| - 1])
  }

  ghost function Answers(cmp: CompareFunc, ops: seq<Op>): seq<Item> {
    if ops == [] then []
    else Answers(cmp, ops[..|ops| - 1]) + [Answer(cmp, MapAfter(cmp, ops[..|ops| - 1]), ops[|ops| - 1])]
  }

  ghost predicate NoDelete(ops: seq<Op>) { forall i :: 0 <= i < |ops| ==> !ops[i].Delete? }

  /** The spliced place becomes the root exactly when it was the root. */
  lemma EntersBefore<N>(g: Shape<N>, d: N)
    requires Linked(g) && d in g.cell
    ensures var s, r := Spliced(g, d), Filler(g, d);
            && s in g.cell && (r in g.cell || r == g.leaf) && (r in g.cell ==> r != s && r != d)
            && (Enters(Unlink(g, d), r) <==> r in g.cell && g.cell[r].color == BLACK && g.cell[s].parent != g.leaf)
  {
    SplicedFacts(g, d);
    UnlinkLinked(g, d);
    FillerApart(g, d);
    var s := Spliced(g, d);
    assert Hangs(g, s);
    SpliceRoot(g, s);
    if s != d {
      SuccessorFacts(g, d);
      SuccessorRename(g, d);
      RenameFiller(Splice(g, s), d, s, Filler(g, d));
      assert Hangs(g, d);
    }
  }

  lemma SpliceRoot<N>(g: Shape<N>, s: N)
    requires Linked(g) && Spliceable(g, s)
    ensures var h, r := Splice(g, s), Replacement(g, s);
            && (r in g.cell ==> r in h.cell && h.cell[r].color == g.cell[r].color && (h.root == r <==> g.root == s))
            && (g.root == s <==> g.cell[s].parent == g.leaf)
  {
    assert Hangs(g, s);
  }

  lemma RenameFiller<N>(g: Shape<N>, d: N, m: N, r: N)
    requires Linked(g) && d in g.cell && m !in g.cell && m != g.leaf && r != d && r != m
    ensures var h := Rename(g, d, m);
            && (r in g.cell <==> r in h.cell) && (r in g.cell ==> h.cell[r].color == g.cell[r].color && (h.root == r <==> g.root == r))
  {}

  /** The links read to find the spliced place and its filler. */
  lemma HarmlessLinks<N>(g: Shape<N>, d: N)
    requires Linked(g) && d in g.cell
    ensures Spliced(g, d) in g.cell && (Filler(g, d) in g.cell || Filler(g, d) == g.leaf)
    ensures Filler(g, d) == if g.cell[Spliced(g, d)].left == g.leaf then g.cell[Spliced(g, d)].right else g.cell[Spliced(g, d)].left
    ensures g.cell[d].left == g.leaf || g.cell[d].right == g.leaf ==> Spliced(g, d) == d
    ensures g.cell[d].left != g.leaf && g.cell[d].right != g.leaf ==>
              g.cell[d].right in g.cell && 0 <= g.cell[g.cell[d].right].lo < |g.order|
              && g.order[g.cell[g.cell[d].right].lo] == Spliced(g, d)
  {
    SplicedFacts(g, d);
    EntersBefore(g, d);
    if !Spliceable(g, d) { TwoChildren(g, d); }
  }

  /** A tree at one moment, as a value: its shape and the keys of its nodes. */
  datatype Stage = Stage(shape: Shape<Node>, keyOf: map<Node, Item>)

  ghost function StageOf(tree: RBtree): Stage
    reads tree`g, tree.g.cell.Keys`keyValue
  {
    Stage(tree.g, map n | n in tree.g.cell :: n.keyValue)
  }

  ghost predicate Matching(cmp: CompareFunc, st: Stage, key: Item, d: Node) {
    d in st.keyOf && cmp(st.keyOf[d], key) == 0
  }

  /** Deleting key would lead the fix-up to a sentinel sibling. */
  ghost predicate StuckAt(cmp: CompareFunc, st: Stage, key: Item) {
    Linked(st.shape) && exists d :: d in st.shape.cell && Matching(cmp, st, key, d) && DeleteStuck(st.shape, d)
  }

  /** Deleting key would not enter the fix-up's loop. */
  ghost predicate HarmlessAt(cmp: CompareFunc, st: Stage, key: Item) {
    Linked(st.shape) && forall d :: d in st.shape.cell && Matching(cmp, st, key, d) ==> Harmless(st.shape, d)
  }

  lemma HarmlessPasses(cmp: CompareFunc, st: Stage, key: Item)
    requires HarmlessAt(cmp, st, key)
    ensures !StuckAt(cmp, st, key)
  {
    forall d | d in st.shape.cell && Matching(cmp, st, key, d) ensures !DeleteStuck(st.shape, d) {
      HarmlessNotStuck(st.shape, d);
    }
  }

  lemma BalancedPasses(cmp: CompareFunc, st: Stage, key: Item)
    requires Weak(st.shape) && Balanced(st.shape)
    ensures HarmlessAt(cmp, st, key) && !StuckAt(cmp, st, key)
  {
    forall d | d in st.shape.cell ensures Harmless(st.shape, d) && !DeleteStuck(st.shape, d) {
      LoopNotEntered(st.shape, d);
    }
  }

  /**
   Whether deleting key leaves the fix-up's loop body alone: nothing is found, a red place disappears, or what
   fills the gap is missing, red or the new root.
   */
  method IsHarmless(tree: RBtree, key: Item) returns (ok: bool)
    requires tree.Valid() && key != Nil
    ensures ok <==> HarmlessAt(tree.Compare, StageOf(tree), key)
  {
    hide *;
    tree.ValidParts();
    var node, _ := tree.FindNode(key);
    if node == null {
      tree.NothingCompares(key);
      NothingHarms(tree, key);
      return true;
    }
    ghost var g := tree.g;
    tree.OnlyNode(key, node);
    HarmlessLinks(g, node);
    EntersBefore(g, node);
    tree.Fields(node);
    tree.Fields(tree.LEAF);
    var s: Node := node;
    if node.leftChild != tree.LEAF && node.rightChild != tree.LEAF {
      s := TreeFirstNode(node.rightChild, tree.LEAF, g);
    }
    tree.Fields(s);
    var r: Node := if s.leftChild == tree.LEAF then s.rightChild else s.leftChild;
    tree.Fields(r);
    ok := s.color == RED || r == tree.LEAF || r.color == RED || s.parent == tree.LEAF;
    OneHarms(tree, key, node);
  }

  lemma NothingHarms(tree: RBtree, key: Item)
    requires Linked(tree.g) && forall d :: d in tree.g.cell ==> tree.Compare(d.keyValue, key) != 0
    ensures HarmlessAt(tree.Compare, StageOf(tree), key)
  {}

  lemma OneHarms(tree: RBtree, key: Item, d: Node)
    requires Linked(tree.g) && d in tree.g.cell && tree.Compare(d.keyValue, key) == 0
    requires forall e :: e in tree.g.cell && tree.Compare(e.keyValue, key) == 0 ==> e == d
    ensures HarmlessAt(tree.Compare, StageOf(tree), key)
            <==> !(ColorOf(tree.g, Spliced(tree.g, d)) == BLACK && Enters(Unlink(tree.g, d), Filler(tree.g, d)))
  {
    assert Matching(tree.Compare, StageOf(tree), key, d);
  }

  lemma StuckAtMeaning(tree: RBtree, key: Item)
    requires Linked(tree.g)
    ensures StuckAt(tree.Compare, StageOf(tree), key) <==>
            exists d :: d in tree.g.cell && tree.Compare(d.keyValue, key) == 0 && DeleteStuck(tree.g, d)
  {
    if d :| d in tree.g.cell && tree.Compare(d.keyValue, key) == 0 && DeleteStuck(tree.g, d) {
      assert Matching(tree.Compare, StageOf(tree), key, d);
    }
  }

  /**
   Deleting from a red-black tree always gets through, and gives a red-black tree exactly when the place that
   disappeared was red, had a red child to fill it, or was the only one.
   */
  method DeleteInRedBlack(tree: RBtree, key: Item) returns (item: Item, met: bool)
    requires tree.Valid() && Linked(tree.g) && RedBlack(TreeOf(tree.g))
    modifies tree`root, tree`g, tree.g.cell.Keys`parent, tree.g.cell.Keys`leftChild, tree.g.cell.Keys`rightChild
    modifies tree.g.cell.Keys`color, tree.LEAF`color
    ensures !met && tree.Valid() && Linked(tree.g) && Linked(old(tree.g))
    ensures item == if key == Nil then Nil else LookUp(tree.Compare, old(tree.Contents()), key)
    ensures item == Nil ==> tree.g == old(tree.g)
    ensures item != Nil ==> tree.Contents() == old(tree.Contents()) - {item}
    ensures item != Nil ==>
              exists d :: d in old(tree.g).cell && old(d.keyValue) == item && Spliced(old(tree.g), d) in old(tree.g).cell
                   && (RedBlack(TreeOf(tree.g)) <==>
                       || old(tree.g).cell[Spliced(old(tree.g), d)].color == RED
                       || ColorOf(old(tree.g), Filler(old(tree.g), d)) == RED || |InOrder(TreeOf(old(tree.g)))| == 1)
  {
    hide *;
    tree.ValidParts();
    ghost var g0 := tree.g;
    WeakMeaning(g0);
    forall d | d in g0.cell ensures !DeleteStuck(g0, d) { LoopNotEntered(g0, d); }
    item, met := tree.Delete(key);
    tree.ValidParts();
    if item != Nil {
      ghost var d :| d in g0.cell && old(d.keyValue) == item && DeletedFrom(g0, tree.g, d);
      DeleteFromRedBlack(g0, tree.g, d);
    }
  }

  lemma AfterMeaning(cmp: CompareFunc, s: set<Item>, op: Op)
    requires Nil !in s
    ensures Answer(cmp, s, op) == LookUp(cmp, s, op.key)
    ensures op.Insert? ==> After(cmp, s, op) == if Holds(cmp, s, op.key) then s else s + {op.key}
    ensures op.Find? ==> After(cmp, s, op) == s
    ensures op.Delete? ==> After(cmp, s, op) == s - {LookUp(cmp, s, op.key)}
    ensures s - {Nil} == s
  {}

  /** One operation. Only a deletion can meet the sentinel as a sibling, and exactly where StuckAt says so. */
  method Step(tree: RBtree, op: Op) returns (out: Item, met: bool)
    requires tree.Valid() && op.key != Nil
    modifies tree`root, tree`g, tree.g.cell.Keys`parent, tree.g.cell.Keys`leftChild, tree.g.cell.Keys`rightChild
    modifies tree.g.cell.Keys`color, tree.LEAF`color
    ensures tree.Matches() && Linked(tree.g) && Linked(old(tree.g)) && fresh(tree.g.cell.Keys - old(tree.g.cell.Keys))
    ensures met <==> op.Delete? && StuckAt(tree.Compare, old(StageOf(tree)), op.key)
    ensures !met ==> tree.Valid()
    ensures !met ==> tree.Contents() == After(tree.Compare, old(tree.Contents()), op)
    ensures !met ==> out == Answer(tree.Compare, old(tree.Contents()), op)
    ensures !op.Delete? && Balanced(old(tree.g)) ==> Balanced(tree.g)
  {
    hide *;
    tree.ValidParts();
    tree.KeysNotNil();
    AfterMeaning(tree.Compare, tree.Contents(), op);
    StuckAtMeaning(tree, op.key);
    met := false;
    match op {
      case Insert(key) =>
        out := tree.Insert(key);
      case Find(key) =>
        out := tree.FindKey(key);
      case Delete(key) =>
        out, met := tree.Delete(key);
    }
    if !met { tree.ValidParts(); }
  }

  ghost function KeysIn(st: Stage): (keys: seq<Item>)
    requires forall i :: 0 <= i < |st.shape.order| ==> st.shape.order[i] in st.keyOf
  {
    seq(|st.shape.order|, i requires 0 <= i < |st.shape.order| => st.keyOf[st.shape.order[i]])
  }

  /** The weak invariant, keys strictly increasing in order, and the stored items those of the finite map. */
  ghost predicate Stands(cmp: CompareFunc, st: Stage, stored: set<Item>) {
    && Weak(st.shape) && st.keyOf.Keys == st.shape.cell.Keys
    && Sorted(cmp, KeysIn(st)) && Elements(KeysIn(st)) == stored
  }

  /** st is the state before the i-th operation of a run, and that operation got through. */
  ghost predicate Passed(cmp: CompareFunc, ops: seq<Op>, i: nat, st: Stage)
    requires i < |ops|
  {
    Stands(cmp, st, MapAfter(cmp, ops[..i])) && (ops[i].Delete? ==> !StuckAt(cmp, st, ops[i].key))
  }

  lemma PassedIntro(cmp: CompareFunc, ops: seq<Op>, i: nat, st: Stage)
    requires i < |ops| && Stands(cmp, st, MapAfter(cmp, ops[..i])) && !(ops[i].Delete? && StuckAt(cmp, st, ops[i].key))
    ensures Passed(cmp, ops, i, st)
  {}

  lemma ValidStands(tree: RBtree)
    requires tree.Valid()
    ensures Stands(tree.Compare, StageOf(tree), tree.Contents()) && Linked(tree.g) && StageOf(tree).shape == tree.g
  {
    hide *;
    tree.ValidParts();
    StageKeys(tree);
    StandsIntro(tree.Compare, StageOf(tree), tree.Keys());
  }

  lemma StageKeys(tree: RBtree)
    requires Linked(tree.g)
    ensures StageOf(tree).shape == tree.g && StageOf(tree).keyOf.Keys == tree.g.cell.Keys
    ensures forall i :: 0 <= i < |tree.g.order| ==> tree.g.order[i] in StageOf(tree).keyOf
    ensures KeysIn(StageOf(tree)) == tree.Keys()
  {
    var st := StageOf(tree);
    assert forall i :: 0 <= i < |st.shape.order| ==> st.shape.order[i] in tree.g.cell;
    hide Linked;
    assert |KeysIn(st)| == |tree.Keys()|;
    assert forall i :: 0 <= i < |st.shape.order| ==> KeysIn(st)[i] == tree.Keys()[i];
  }

  lemma StandsIntro(cmp: CompareFunc, st: Stage, keys: seq<Item>)
    requires Weak(st.shape) && st.keyOf.Keys == st.shape.cell.Keys
    requires forall i :: 0 <= i < |st.shape.order| ==> st.shape.order[i] in st.keyOf
    requires KeysIn(st) == keys && Sorted(cmp, keys)
    ensures Stands(cmp, st, Elements(keys))
  {
    hide Weak, Sorted, Elements, KeysIn;
  }

  lemma StuckNotHarmless(cmp: CompareFunc, st: Stage, key: Item)
    requires StuckAt(cmp, st, key)
    ensures !HarmlessAt(cmp, st, key)
  {
    if HarmlessAt(cmp, st, key) { HarmlessPasses(cmp, st, key); }
  }

  lemma RunStart(cmp: CompareFunc, ops: seq<Op>)
    ensures MapAfter(cmp, ops[..0]) == {} && Answers(cmp, ops[..0]) == [] && NoDelete(ops[..0])
    ensures ops[..|ops|] == ops
  {}

  /**
   Runs operations from an empty tree; trace holds the tree's state before every operation and at the end. The
   weak invariant holds in every state, and the answers are those of the finite map. The run stops early exactly at
   the first deletion that meets the sentinel as a sibling; so it is complete where all deletions are harmless, and
   without deletions the tree is a red-black tree throughout.
   */
  method Run(cmp: CompareFunc, leaf: Node, ops: seq<Op>)
      returns (tree: RBtree, outs: seq<Item>, done: nat, ghost trace: seq<Stage>)
    requires Lawful(cmp) && IsSentinel(leaf) && forall i :: 0 <= i < |ops| ==> ops[i].key != Nil
    modifies leaf`color
    ensures done <= |ops| && |trace| == done + 1 && trace[0].shape == Empty(leaf) && tree.Compare == cmp && tree.Matches()
    ensures forall i :: 0 <= i < done ==> Passed(cmp, ops, i, trace[i])
    ensures Stands(cmp, trace[done], MapAfter(cmp, ops[..done])) && outs == Answers(cmp, ops[..done])
    ensures done == |ops| ==> tree.Valid() && StageOf(tree) == trace[done] && tree.Contents() == MapAfter(cmp, ops)
    ensures done < |ops| ==> ops[done].Delete? && StuckAt(cmp, trace[done], ops[done].key)
    ensures (forall i :: 0 <= i <= done && i < |ops| && ops[i].Delete? ==> HarmlessAt(cmp, trace[i], ops[i].key)) ==> done == |ops|
    ensures NoDelete(ops[..done]) ==> Linked(trace[done].shape) && Balanced(trace[done].shape)
    ensures NoDelete(ops) ==> done == |ops|
  {
    hide *;
    tree := new RBtree.InitTree(cmp, leaf);
    outs, done, trace := [], 0, [StageOf(tree)];
    ValidStands(tree);
    RunStart(cmp, ops);
    while done < |ops|
      invariant done <= |ops| && fresh(tree) && tree.Valid() && tree.Compare == cmp && tree.LEAF == leaf && Linked(tree.g)
      invariant fresh(tree.g.cell.Keys) && |trace| == done + 1 && trace[0].shape == Empty(leaf)
      invariant trace[done] == StageOf(tree) && trace[done].shape == tree.g
      invariant forall i :: 0 <= i < done ==> Passed(cmp, ops, i, trace[i])
      invariant Stands(cmp, trace[done], MapAfter(cmp, ops[..done])) && outs == Answers(cmp, ops[..done])
      invariant tree.Contents() == MapAfter(cmp, ops[..done])
      invariant NoDelete(ops[..done]) ==> Balanced(tree.g)
    {
      RunStep(cmp, ops, done);
      var out, met := Step(tree, ops[done]);
      if met {
        StuckNotHarmless(cmp, trace[done], ops[done].key);
        DeleteSeen(ops, done);
        return;
      }
      PassedIntro(cmp, ops, done, trace[done]);
      ValidStands(tree);
      outs, done := outs + [out], done + 1;
      trace := trace + [StageOf(tree)];
    }
    tree.ValidParts();
  }

  lemma DeleteSeen(ops: seq<Op>, i: nat)
    requires i < |ops| && ops[i].Delete?
    ensures !NoDelete(ops)
  {}

  lemma RunStep(cmp: CompareFunc, ops: seq<Op>, i: nat)
    requires i < |ops|
    ensures MapAfter(cmp, ops[..i + 1]) == After(cmp, MapAfter(cmp, ops[..i]), ops[i])
    ensures Answers(cmp, ops[..i + 1]) == Answers(cmp, ops[..i]) + [Answer(cmp, MapAfter(cmp, ops[..i]), ops[i])]
    ensures NoDelete(ops[..i + 1]) <==> NoDelete(ops[..i]) && !ops[i].Delete?
  {
    assert ops[..i + 1][..i] == ops[..i];
  }
}
