/** The link writes of a deletion amount to Unlink. */
module DeleteWrites {
  import opened Shapes
  import opened ShapeTrees
  import opened FieldWrites
  import opened Unlinking

  /** Every node of h is a node of g with the same links and colour. */
  ghost predicate KeepsFields<N>(g: Shape<N>, h: Shape<N>) {
    && g.leaf == h.leaf && g.root == h.root && h.cell.Keys <= g.cell.Keys
    && forall n {:trigger SameFields(g, h, n)} :: n in h.cell ==> SameFields(g, h, n)
  }

  lemma SameKeepsFields<N>(g: Shape<N>, h: Shape<N>)
    requires SameLinks(g, h)
    ensures KeepsFields(g, h)
  {}

  /** switchNodes: b takes a's place below a's parent. */
  ghost function Switch<N>(g: Shape<N>, a: N, b: N): Shape<N>
    requires a in g.cell
  {
    Adopted(Rehang(g, g.cell[a].parent, a, b), b, g.cell[a].parent)
  }

  /** How the links around n, and around a node d that is to leave, exclude each other. */
  ghost predicate LinksExclude<N>(g: Shape<N>, d: N, n: N) {
    && d in g.cell && n in g.cell && g.leaf !in g.cell
    && (n != g.cell[d].parent ==> g.cell[n].left != d && g.cell[n].right != d)
    && (n == g.cell[d].parent ==> (g.cell[n].left == d) != (g.cell[n].right == d) && g.root != d)
    && (g.root == d <==> g.cell[d].parent !in g.cell)
    && g.cell[d].parent != d
  }

  lemma LinkedAround<N>(g: Shape<N>, d: N, n: N)
    requires Linked(g) && d in g.cell && n in g.cell
    ensures LinksExclude(g, d, n)
  {
    assert Hangs(g, d) && Hangs(g, n);
  }

  lemma SwitchSpliceAt<N>(g: Shape<N>, d: N, n: N)
    requires Indexed(g) && LinksExclude(g, d, n) && n != d
    requires var r := Replacement(g, d); r != d && (r in g.cell || r == g.leaf) && (r == g.cell[d].parent ==> r == g.leaf)
    ensures n in Switch(g, d, Replacement(g, d)).cell && SameFields(Switch(g, d, Replacement(g, d)), Splice(g, d), n)
  {}

  lemma SwitchSplice<N>(g: Shape<N>, d: N)
    requires Linked(g) && Spliceable(g, d)
    ensures KeepsFields(Switch(g, d, Replacement(g, d)), Splice(g, d))
  {
    var r := Replacement(g, d);
    assert r != d && (r in g.cell || r == g.leaf) && (r == g.cell[d].parent ==> r == g.leaf) by {
      assert Hangs(g, d);
      if r in g.cell { assert Hangs(g, r); }
    }
    forall n | n in Splice(g, d).cell
      ensures n in Switch(g, d, Replacement(g, d)).cell && SameFields(Switch(g, d, Replacement(g, d)), Splice(g, d), n)
    {
      LinkedAround(g, d, n);
      SwitchSpliceAt(g, d, n);
    }
    SwitchFrame(g, d);
  }

  lemma SwitchFrame<N>(g: Shape<N>, d: N)
    requires Linked(g) && Spliceable(g, d)
    ensures var h, k := Switch(g, d, Replacement(g, d)), Splice(g, d);
            h.leaf == k.leaf && h.root == k.root && k.cell.Keys <= h.cell.Keys
  {
    assert Hangs(g, d);
  }

  /** m takes over everything below and beside d: d's place, left child and colour. */
  ghost function TakeOver<N>(g: Shape<N>, d: N, m: N): Shape<N>
    requires d in g.cell && m in g.cell
  {
    var g1 := Switch(g, d, m);
    var l := g.cell[d].left;
    var g2 := WithLeft(g1, m, l);
    var g3 := Adopted(g2, l, m);
    WithColor(g3, m, g.cell[d].color)
  }

  /** m is first taken out of its own place, then given d's right child. */
  ghost function TakeOut<N>(g: Shape<N>, d: N, m: N): Shape<N>
    requires d in g.cell && m in g.cell
  {
    var g1 := Switch(g, m, g.cell[m].right);
    var r := g1.cell[d].right;
    Adopted(WithRight(g1, m, r), r, m)
  }

  ghost function DeleteWrites<N>(g: Shape<N>, d: N, m: N): Shape<N>
    requires d in g.cell && m in g.cell
  {
    if g.cell[m].parent == d && g.cell[m].right in g.cell
    then TakeOver(WithParent(g, g.cell[m].right, m), d, m)
    else TakeOver(TakeOut(g, d, m), d, m)
  }

  /** d has two children and m is its successor; the nodes written to are distinct. */
  ghost predicate Pair<N>(g: Shape<N>, d: N, m: N) {
    && d in g.cell && m in g.cell && d != m && g.leaf !in g.cell
    && var c, e := g.cell[d], g.cell[m];
    && c.left in g.cell && c.right in g.cell && e.left == g.leaf && (e.right in g.cell || e.right == g.leaf)
    && c.left != d && c.left != m && c.left != c.right && c.right != d && c.left != e.right
    && c.left != e.parent && c.left != c.parent && c.right != c.parent
    && c.parent != m && c.parent != d && e.parent in g.cell && e.parent != m
    && e.right != d && e.right != m && (e.right == c.parent ==> e.right == g.leaf) && e.right != e.parent
    && (e.parent == d <==> c.right == m) && e.right != c.right
    && g.cell[c.left].parent == d && g.cell[c.right].parent == d && (e.right in g.cell ==> g.cell[e.right].parent == m)
  }

  lemma LinkedPair<N>(g: Shape<N>, d: N)
    requires Linked(g) && d in g.cell && !Spliceable(g, d)
    ensures Pair(g, d, Successor(g, d))
  {
    var m := Successor(g, d);
    SuccessorFacts(g, d);
    NodeFacts(g, d);
    NodeFacts(g, m);
    var c, e := g.cell[d], g.cell[m];
    NodeFacts(g, c.left);
    NodeFacts(g, c.right);
    NodeFacts(g, e.parent);
    hide Linked;
    Nested(g, c.right, m);
    if c.parent in g.cell { assert Hangs(g, c.parent); }
    if e.right in g.cell { assert Hangs(g, e.right); }
  }

  /** Which links of n can lead to d or to its successor m, and where n's own parent link can lead. */
  ghost predicate Beside<N>(g: Shape<N>, d: N, m: N, n: N)
    requires d in g.cell && m in g.cell
  {
    && n in g.cell && LinksExclude(g, d, n) && LinksExclude(g, m, n)
    && (g.cell[n].parent == d ==> n == g.cell[d].left || n == g.cell[d].right)
    && (g.cell[n].parent == m ==> n == g.cell[m].right)
  }

  lemma LinkedBeside<N>(g: Shape<N>, d: N, m: N, n: N)
    requires Linked(g) && d in g.cell && m in g.cell && n in g.cell && g.cell[m].left == g.leaf
    ensures Beside(g, d, m, n)
  {
    LinkedAround(g, d, n);
    LinkedAround(g, m, n);
    assert Hangs(g, n);
  }

  lemma DeleteWritesDirect<N>(g: Shape<N>, d: N, m: N, n: N)
    requires Indexed(g) && m in g.cell && Indexed(Splice(g, m)) && Pair(g, d, m) && Beside(g, d, m, n) && n != d && n != m
    requires g.cell[m].parent == d && g.cell[m].right in g.cell && d in Splice(g, m).cell
    ensures n in DeleteWrites(g, d, m).cell && n in Rename(Splice(g, m), d, m).cell
    ensures SameFields(DeleteWrites(g, d, m), Rename(Splice(g, m), d, m), n)
  {
    var h := Splice(g, m);
    assert n in Rename(h, d, m).cell && Rename(h, d, m).cell[n] == RenamedCell(h, d, m, n);
    var k := WithParent(g, g.cell[m].right, m);
    assert DeleteWrites(g, d, m) == TakeOver(k, d, m);
    TakeOverCell(k, d, m, n);
    hide Rename, TakeOver, DeleteWrites;
  }

  lemma DeleteWritesDirectSelf<N>(g: Shape<N>, d: N, m: N)
    requires Indexed(g) && m in g.cell && Indexed(Splice(g, m)) && Pair(g, d, m) && Beside(g, d, m, d)
    requires g.cell[m].parent == d && g.cell[m].right in g.cell && d in Splice(g, m).cell
    ensures m in DeleteWrites(g, d, m).cell && m in Rename(Splice(g, m), d, m).cell
    ensures SameFields(DeleteWrites(g, d, m), Rename(Splice(g, m), d, m), m)
  {
    var h := Splice(g, m);
    assert m in Rename(h, d, m).cell && Rename(h, d, m).cell[m] == RenamedCell(h, d, m, m);
    var k := WithParent(g, g.cell[m].right, m);
    assert DeleteWrites(g, d, m) == TakeOver(k, d, m);
    TakeOverOwnCell(k, d, m);
    hide Rename, TakeOver, DeleteWrites;
  }

  /** The second half of TakeOut: d's right child goes to m. */
  ghost function TakeRight<N>(g: Shape<N>, d: N, m: N): Shape<N>
    requires d in g.cell && m in g.cell
  {
    Adopted(WithRight(g, m, g.cell[d].right), g.cell[d].right, m)
  }

  /** h is g without m, apart from positions; d and its neighbours in h are distinct. */
  ghost predicate Renamable<N>(g: Shape<N>, h: Shape<N>, d: N, m: N) {
    && d in h.cell && m !in h.cell && m in g.cell && h.leaf !in h.cell && m != h.leaf && KeepsFields(g, h)
    && g.cell.Keys == h.cell.Keys + {m}
    && var c := h.cell[d];
    && c.parent != d && c.parent != m && (c.parent in h.cell || c.parent == h.leaf)
    && c.left != d && c.left != m && c.right != d && c.right != m
    && (c.left in h.cell || c.left == h.leaf) && (c.right in h.cell || c.right == h.leaf)
    && (c.left == c.right ==> c.left == h.leaf)
    && (c.left == c.parent ==> c.left == h.leaf) && (c.right == c.parent ==> c.right == h.leaf)
    && (c.left in h.cell ==> h.cell[c.left].parent == d) && (c.right in h.cell ==> h.cell[c.right].parent == d)
  }

  ghost predicate RenamableAt<N>(h: Shape<N>, d: N, n: N) {
    && LinksExclude(h, d, n) && (h.cell[n].parent == d ==> n == h.cell[d].left || n == h.cell[d].right)
  }

  lemma TakeOverAt<N>(g: Shape<N>, h: Shape<N>, d: N, m: N, n: N)
    requires Indexed(h) && Renamable(g, h, d, m) && RenamableAt(h, d, n) && n != d
    ensures n in TakeOver(TakeRight(g, d, m), d, m).cell && n in Rename(h, d, m).cell
    ensures SameFields(TakeOver(TakeRight(g, d, m), d, m), Rename(h, d, m), n)
  {
    assert SameFields(g, h, d) && SameFields(g, h, n);
    assert n in Rename(h, d, m).cell && Rename(h, d, m).cell[n] == RenamedCell(h, d, m, n);
    TakeRightCell(g, d, m, n);
    if g.cell[d].parent in g.cell && g.cell[d].parent != d { TakeRightCell(g, d, m, g.cell[d].parent); }
    TakeOverCell(TakeRight(g, d, m), d, m, n);
    hide Rename, TakeRight, TakeOver, KeepsFields;
  }

  lemma TakeOverCell<N>(g: Shape<N>, d: N, m: N, n: N)
    requires d in g.cell && m in g.cell && n in g.cell && n != m && n != d && d != m
    requires g.cell[d].left != m && g.cell[d].left != d && g.cell[d].parent != m && g.cell[d].parent != d
    requires g.cell[d].left == g.cell[d].parent ==> g.cell[d].left !in g.cell
    ensures n in TakeOver(g, d, m).cell
    ensures var c, k := g.cell[d], TakeOver(g, d, m).cell[n];
            && k.left == (if n == c.parent && d == g.cell[n].left then m else g.cell[n].left)
            && k.right == (if n == c.parent && d != g.cell[n].left then m else g.cell[n].right)
            && k.parent == (if n == c.left then m else g.cell[n].parent) && k.color == g.cell[n].color
  {}

  lemma TakeRightCell<N>(g: Shape<N>, d: N, m: N, n: N)
    requires d in g.cell && m in g.cell && n in g.cell && n != m && d != m && g.cell[d].right != m && g.cell[d].right != d
    ensures var r, k := g.cell[d].right, TakeRight(g, d, m);
            && k.cell.Keys == g.cell.Keys && k.root == g.root && k.leaf == g.leaf && k.cell[d] == g.cell[d]
            && k.cell[n] == if n == r then g.cell[n].(parent := m) else g.cell[n]
  {}

  lemma TakeOverSelf<N>(g: Shape<N>, h: Shape<N>, d: N, m: N)
    requires Indexed(h) && Renamable(g, h, d, m) && RenamableAt(h, d, d)
    ensures m in TakeOver(TakeRight(g, d, m), d, m).cell && m in Rename(h, d, m).cell
    ensures SameFields(TakeOver(TakeRight(g, d, m), d, m), Rename(h, d, m), m)
  {
    assert SameFields(g, h, d);
    assert Rename(h, d, m).cell[m] == RenamedCell(h, d, m, m);
    TakeOverOwnCell(TakeRight(g, d, m), d, m);
    hide Rename, TakeOver;
  }

  lemma TakeOverOwnCell<N>(g: Shape<N>, d: N, m: N)
    requires d in g.cell && m in g.cell && d != m && g.cell[d].left != m && g.cell[d].left != d && g.cell[d].parent != m
    requires g.cell[d].left == g.cell[d].parent ==> g.cell[d].left !in g.cell
    ensures m in TakeOver(g, d, m).cell
    ensures var c, k := g.cell[d], TakeOver(g, d, m).cell[m];
            k.left == c.left && k.right == g.cell[m].right && k.parent == c.parent && k.color == c.color
  {}

  lemma TakeOverFrame<N>(g: Shape<N>, h: Shape<N>, d: N, m: N)
    requires Indexed(h) && Renamable(g, h, d, m) && RenamableAt(h, d, d)
    ensures var r, k := TakeOver(TakeRight(g, d, m), d, m), Rename(h, d, m);
            r.leaf == k.leaf && r.root == k.root && k.cell.Keys <= r.cell.Keys
  {
    assert SameFields(g, h, d);
    assert Rename(h, d, m).cell.Keys == h.cell.Keys - {d} + {m};
    TakeOverShape(TakeRight(g, d, m), d, m);
    hide Rename, TakeOver;
  }

  lemma TakeOverShape<N>(g: Shape<N>, d: N, m: N)
    requires d in g.cell && m in g.cell
    ensures var r := TakeOver(g, d, m);
            r.leaf == g.leaf && r.cell.Keys == g.cell.Keys && r.root == if g.cell[d].parent in g.cell then g.root else m
  {}

  lemma SpliceRenamable<N>(g: Shape<N>, d: N, m: N)
    requires Linked(g) && d in g.cell && d != m && Spliceable(g, m) && Linked(Splice(g, m))
    requires KeepsFields(Switch(g, m, Replacement(g, m)), Splice(g, m))
    ensures Renamable(Switch(g, m, Replacement(g, m)), Splice(g, m), d, m)
  {
    SwitchKeys(g, m);
    NeighboursApart(Splice(g, m), d);
    assert Splice(g, m).leaf == g.leaf;
    hide Linked, Splice, Switch, Replacement;
  }

  /** The parent and the children of a node are distinct, and its children point back at it. */
  lemma NeighboursApart<N>(h: Shape<N>, d: N)
    requires Linked(h) && d in h.cell
    ensures h.leaf !in h.cell
    ensures var c := h.cell[d];
            && c.parent != d && (c.parent in h.cell || c.parent == h.leaf)
            && c.left != d && c.right != d
            && (c.left in h.cell || c.left == h.leaf) && (c.right in h.cell || c.right == h.leaf)
            && (c.left == c.right ==> c.left == h.leaf)
            && (c.left == c.parent ==> c.left == h.leaf) && (c.right == c.parent ==> c.right == h.leaf)
            && (c.left in h.cell ==> h.cell[c.left].parent == d) && (c.right in h.cell ==> h.cell[c.right].parent == d)
  {
    assert Hangs(h, d);
    if h.cell[d].left in h.cell { assert Hangs(h, h.cell[d].left); }
    if h.cell[d].right in h.cell { assert Hangs(h, h.cell[d].right); }
  }

  lemma SwitchKeys<N>(g: Shape<N>, m: N)
    requires Linked(g) && Spliceable(g, m)
    ensures Switch(g, m, Replacement(g, m)).cell.Keys == g.cell.Keys == Splice(g, m).cell.Keys + {m}
  {
    assert Hangs(g, m);
  }

  lemma LinkedRenamableAt<N>(h: Shape<N>, d: N, n: N)
    requires Linked(h) && d in h.cell && n in h.cell
    ensures RenamableAt(h, d, n)
  {
    LinkedAround(h, d, n);
    assert Hangs(h, n);
  }

  lemma TakeOverSame<N>(g: Shape<N>, h: Shape<N>, d: N, m: N)
    requires Linked(h) && Renamable(g, h, d, m)
    ensures KeepsFields(TakeOver(TakeRight(g, d, m), d, m), Rename(h, d, m))
  {
    LinkedRenamableAt(h, d, d);
    TakeOverFrame(g, h, d, m);
    TakeOverSelf(g, h, d, m);
    forall n | n in Rename(h, d, m).cell
      ensures n in TakeOver(TakeRight(g, d, m), d, m).cell
      ensures SameFields(TakeOver(TakeRight(g, d, m), d, m), Rename(h, d, m), n)
    {
      if n != m {
        LinkedRenamableAt(h, d, n);
        TakeOverAt(g, h, d, m, n);
      }
    }
  }

  lemma DirectSame<N>(g: Shape<N>, d: N, m: N)
    requires Linked(g) && d in g.cell && !Spliceable(g, d) && m == Successor(g, d)
    requires Pair(g, d, m) && g.cell[m].parent == d && g.cell[m].right in g.cell && Linked(Splice(g, m)) && d in Splice(g, m).cell
    ensures KeepsFields(DeleteWrites(g, d, m), Rename(Splice(g, m), d, m))
  {
    LinkedBeside(g, d, m, d);
    DeleteWritesDirectSelf(g, d, m);
    DirectFrame(g, d, m);
    forall n | n in Rename(Splice(g, m), d, m).cell
      ensures n in DeleteWrites(g, d, m).cell
      ensures SameFields(DeleteWrites(g, d, m), Rename(Splice(g, m), d, m), n)
    {
      if n != m {
        LinkedBeside(g, d, m, n);
        DeleteWritesDirect(g, d, m, n);
      }
    }
  }

  lemma DirectFrame<N>(g: Shape<N>, d: N, m: N)
    requires Indexed(g) && m in g.cell && Indexed(Splice(g, m)) && Pair(g, d, m) && Beside(g, d, m, d)
    requires g.cell[m].parent == d && g.cell[m].right in g.cell && d in Splice(g, m).cell
    ensures var r, k := DeleteWrites(g, d, m), Rename(Splice(g, m), d, m);
            r.leaf == k.leaf && r.root == k.root && k.cell.Keys <= r.cell.Keys
  {
    var h, k := Splice(g, m), WithParent(g, g.cell[m].right, m);
    assert Rename(h, d, m).cell.Keys == h.cell.Keys - {d} + {m} && h.cell.Keys == g.cell.Keys - {m};
    assert DeleteWrites(g, d, m) == TakeOver(k, d, m);
    TakeOverShape(k, d, m);
    hide Rename, TakeOver, DeleteWrites;
  }

  /** The writes of deleteNode, whichever branch they take, put d's successor in d's place. */
  lemma DeleteWritesSame<N>(g: Shape<N>, d: N)
    requires Linked(g) && d in g.cell && !Spliceable(g, d)
    ensures Pair(g, d, Successor(g, d)) && KeepsFields(DeleteWrites(g, d, Successor(g, d)), Unlink(g, d))
  {
    var m := Successor(g, d);
    hide *;
    SuccessorPlace(g, d);
    LinkedPair(g, d);
    SuccessorRename(g, d);
    if g.cell[m].parent == d && g.cell[m].right in g.cell {
      DirectSame(g, d, m);
    } else {
      SwitchSplice(g, m);
      SpliceRenamable(g, d, m);
      TakeOverSame(Switch(g, m, g.cell[m].right), Splice(g, m), d, m);
      DeleteWritesTwoSteps(g, d, m);
    }
  }

  lemma SuccessorPlace<N>(g: Shape<N>, d: N)
    requires Linked(g) && d in g.cell && !Spliceable(g, d)
    ensures var m := Successor(g, d);
            && m in g.cell && m != d && Spliceable(g, m) && Replacement(g, m) == g.cell[m].right && Linked(Splice(g, m))
            && Unlink(g, d) == Rename(Splice(g, m), d, m)
  {
    SuccessorFacts(g, d);
    SpliceLinked(g, Successor(g, d));
  }

  lemma DeleteWritesTwoSteps<N>(g: Shape<N>, d: N, m: N)
    requires d in g.cell && m in g.cell && !(g.cell[m].parent == d && g.cell[m].right in g.cell)
    requires d in Switch(g, m, g.cell[m].right).cell && m in Switch(g, m, g.cell[m].right).cell
    ensures var s := TakeRight(Switch(g, m, g.cell[m].right), d, m);
            d in s.cell && m in s.cell && DeleteWrites(g, d, m) == TakeOver(s, d, m)
  {}

  // ---------- the nodes the code reads on the way ----------

  lemma TwoChildren<N>(g: Shape<N>, d: N)
    requires Linked(g) && d in g.cell && !Spliceable(g, d)
    ensures g.cell[d].right in g.cell && 0 <= g.cell[g.cell[d].right].lo < |g.order|
    ensures g.order[g.cell[g.cell[d].right].lo] == Successor(g, d)
    ensures Spliced(g, d) == Successor(g, d) && Filler(g, d) == g.cell[Successor(g, d)].right
  {
    assert Hangs(g, d);
    SuccessorFacts(g, d);
  }

  lemma PairParts<N>(g: Shape<N>, d: N, m: N)
    requires Pair(g, d, m)
    ensures d in g.cell && m in g.cell && d != m && (g.cell[m].right in g.cell || g.cell[m].right == g.leaf) && g.cell[m].parent in g.cell
  {}

  lemma DirectParts<N>(g: Shape<N>, d: N, m: N)
    requires Linked(g) && Pair(g, d, m) && g.cell[m].parent == d && g.cell[m].right in g.cell
    ensures var h := WithParent(g, g.cell[m].right, m);
            && d in h.cell && m in h.cell && d != m && h.cell[d].parent != d && h.cell.Keys == g.cell.Keys && h.leaf == g.leaf
            && (h.cell[d].parent in h.cell || h.cell[d].parent == h.leaf) && h.cell[d].left in h.cell
            && DeleteWrites(g, d, m) == TakeOver(h, d, m)
  {
    assert Hangs(g, d);
  }

  lemma ViaParts<N>(g: Shape<N>, d: N, m: N)
    requires Pair(g, d, m)
    ensures var h := Switch(g, m, g.cell[m].right);
            && d in h.cell && m in h.cell && h.cell.Keys == g.cell.Keys && h.leaf == g.leaf
            && (h.cell[d].right in h.cell || h.cell[d].right == h.leaf)
  {}

  lemma ViaMoved<N>(g: Shape<N>, d: N, m: N)
    requires Linked(g) && Pair(g, d, m) && !(g.cell[m].parent == d && g.cell[m].right in g.cell)
    ensures var h := TakeOut(g, d, m);
            && d in h.cell && m in h.cell && h.cell[d].parent != d && h.cell.Keys == g.cell.Keys && h.leaf == g.leaf
            && (h.cell[d].parent in h.cell || h.cell[d].parent == h.leaf) && h.cell[d].left in h.cell
            && DeleteWrites(g, d, m) == TakeOver(h, d, m)
    ensures var h := Switch(g, m, g.cell[m].right);
            d in h.cell && m in h.cell && TakeOut(g, d, m) == Adopted(WithRight(h, m, h.cell[d].right), h.cell[d].right, m)
  {
    assert Hangs(g, d);
  }

  lemma OneChild<N>(g: Shape<N>, d: N)
    requires Linked(g) && d in g.cell && Spliceable(g, d)
    ensures Spliced(g, d) == d && Filler(g, d) == Replacement(g, d)
    ensures Replacement(g, d) == if g.cell[d].left == g.leaf then g.cell[d].right else g.cell[d].left
    ensures Replacement(g, d) in g.cell || Replacement(g, d) == g.leaf
    ensures g.cell[d].parent in g.cell || g.cell[d].parent == g.leaf
    ensures KeepsFields(Switch(g, d, Replacement(g, d)), Unlink(g, d))
  {
    assert Hangs(g, d);
    SwitchSplice(g, d);
  }

  lemma ChildCount<N>(g: Shape<N>, d: N)
    requires d in g.cell
    ensures Spliceable(g, d) <==> g.cell[d].left == g.leaf || g.cell[d].right == g.leaf
  {}
}
