/**
 A binary tree of linked nodes as a value: every link, colour and in-order position of every node.
 The tree operations keep one of these beside the real fields; N is the type of node identities.
 */
module Shapes {
  import opened Nodes

  /** One node: its links, its colour, and the interval lo..hi-1 of in-order positions its subtree holds. */
  datatype Cell<N> = Cell(left: N, right: N, parent: N, color: Color, lo: int, pos: int, hi: int)

  /** order is the in-order sequence of the nodes. The sentinel leaf stands for every missing link. */
  datatype Shape<N> = Shape(leaf: N, root: N, order: seq<N>, cell: map<N, Cell<N>>)

  ghost predicate Placed<N>(g: Shape<N>, n: N)
    requires n in g.cell
  {
    0 <= g.cell[n].lo <= g.cell[n].pos < g.cell[n].hi <= |g.order| && g.order[g.cell[n].pos] == n
  }

  /** order lists every node exactly once, and every interval lies inside it around its node. */
  ghost predicate Indexed<N>(g: Shape<N>) {
    && g.leaf !in g.cell
    && (forall i :: 0 <= i < |g.order| ==> g.order[i] in g.cell && g.cell[g.order[i]].pos == i)
    && (forall n {:trigger g.cell[n]} :: n in g.cell ==> Placed(g, n))
  }

  /** c roots a subtree holding exactly positions lo..hi-1, and points back at p. */
  ghost predicate Fills<N>(g: Shape<N>, c: N, lo: int, hi: int, p: N) {
    if c == g.leaf then lo == hi
    else c in g.cell && g.cell[c].lo == lo && g.cell[c].hi == hi && g.cell[c].parent == p
  }

  ghost predicate HasChildren<N>(g: Shape<N>, n: N)
    requires n in g.cell
  {
    var c := g.cell[n];
    Fills(g, c.left, c.lo, c.pos, n) && Fills(g, c.right, c.pos + 1, c.hi, n)
  }

  ghost predicate HasParent<N>(g: Shape<N>, n: N)
    requires n in g.cell
  {
    var p := g.cell[n].parent;
    if p == g.leaf then n == g.root else IsChild(g, p, n)
  }

  ghost predicate IsChild<N>(g: Shape<N>, x: N, y: N) {
    x in g.cell && y in g.cell && (y == g.cell[x].left || y == g.cell[x].right)
  }

  ghost predicate Hangs<N>(g: Shape<N>, n: N)
    requires n in g.cell
  {
    HasChildren(g, n) && HasParent(g, n)
  }

  /** Well linked: a binary tree under root, parent links consistent, in-order sequence g.order. */
  ghost predicate Linked<N>(g: Shape<N>) {
    && Indexed(g)
    && Fills(g, g.root, 0, |g.order|, g.leaf)
    && (forall n {:trigger Hangs(g, n)} :: n in g.cell ==> Hangs(g, n))
  }

  /** What linkedness says around one node. */
  lemma NodeFacts<N>(g: Shape<N>, n: N)
    requires Linked(g) && n in g.cell
    ensures Placed(g, n) && HasChildren(g, n) && HasParent(g, n) && g.leaf !in g.cell
  {
    assert Hangs(g, n);
  }

  ghost function ColorOf<N>(g: Shape<N>, n: N): Color {
    if n in g.cell then g.cell[n].color else BLACK
  }

  // ---------- painting ----------

  ghost function Paint<N>(g: Shape<N>, paint: map<N, Color>): Shape<N> {
    g.(cell := map n | n in g.cell :: if n in paint then g.cell[n].(color := paint[n]) else g.cell[n])
  }

  ghost function Blacken<N>(g: Shape<N>, x: N): Shape<N> {
    Paint(g, map[x := BLACK])
  }

  lemma PaintLinked<N>(g: Shape<N>, paint: map<N, Color>)
    requires Linked(g)
    ensures Linked(Paint(g, paint))
  {
    var r := Paint(g, paint);
    PaintIndexed(g, paint);
    forall n | n in r.cell ensures Hangs(r, n) {
      PaintHangs(g, paint, n);
    }
    hide Indexed, Hangs;
  }

  lemma PaintIndexed<N>(g: Shape<N>, paint: map<N, Color>)
    requires Linked(g)
    ensures Indexed(Paint(g, paint)) && Fills(Paint(g, paint), g.root, 0, |g.order|, g.leaf)
  {}

  lemma PaintHangs<N>(g: Shape<N>, paint: map<N, Color>, n: N)
    requires Linked(g) && n in g.cell
    ensures Hangs(Paint(g, paint), n)
  {
    NodeFacts(g, n);
    hide Linked;
  }

  // ---------- rotation ----------

  /** y, a child of x, goes up; x goes down; y's subtree on the side of x moves under x. */
  ghost function RotatedCell<N>(g: Shape<N>, x: N, y: N, n: N): Cell<N>
    requires x in g.cell && y in g.cell && n in g.cell
  {
    var c, d, e := g.cell[n], g.cell[x], g.cell[y];
    var mid := if y == d.right then e.left else e.right;
    if n == x then
      if y == d.right then Cell(d.left, mid, y, d.color, d.lo, d.pos, e.pos)
      else Cell(mid, d.right, y, d.color, e.pos + 1, d.pos, d.hi)
    else if n == y then
      if y == d.right then Cell(x, e.right, d.parent, e.color, d.lo, e.pos, d.hi)
      else Cell(e.left, x, d.parent, e.color, d.lo, e.pos, d.hi)
    else
      Cell(if c.left == x then y else c.left, if c.right == x then y else c.right,
           if n == mid then x else c.parent, c.color, c.lo, c.pos, c.hi)
  }

  ghost function Rotate<N>(g: Shape<N>, x: N, y: N): Shape<N>
    requires x in g.cell && y in g.cell
  {
    g.(root := if g.root == x then y else g.root, cell := map n | n in g.cell :: RotatedCell(g, x, y, n))
  }

  /** Painting before or after a rotation comes to the same. */
  lemma PaintRotated<N>(g: Shape<N>, x: N, y: N, paint: map<N, Color>)
    requires x in g.cell && y in g.cell
    ensures Paint(Rotate(g, x, y), paint) == Rotate(Paint(g, paint), x, y)
  {
    var a, b := Paint(Rotate(g, x, y), paint), Rotate(Paint(g, paint), x, y);
    assert a.cell.Keys == b.cell.Keys;
    forall n | n in g.cell ensures a.cell[n] == b.cell[n] {
      PaintRotatedCell(g, x, y, paint, n);
    }
    assert a.cell == b.cell;
  }

  lemma PaintRotatedCell<N>(g: Shape<N>, x: N, y: N, paint: map<N, Color>, n: N)
    requires x in g.cell && y in g.cell && n in g.cell
    ensures n in Paint(Rotate(g, x, y), paint).cell && n in Rotate(Paint(g, paint), x, y).cell
    ensures Paint(Rotate(g, x, y), paint).cell[n] == Rotate(Paint(g, paint), x, y).cell[n]
  {}

  lemma PaintTwice<N>(g: Shape<N>, first: map<N, Color>, second: map<N, Color>)
    ensures Paint(Paint(g, first), second) == Paint(g, first + second)
  {
    assert Paint(Paint(g, first), second).cell == Paint(g, first + second).cell;
  }

  lemma RotateHangsPivot<N>(g: Shape<N>, x: N, y: N)
    requires Linked(g) && IsChild(g, x, y)
    ensures Hangs(Rotate(g, x, y), x)
  {
    assert Hangs(g, x) && Hangs(g, y);
  }

  lemma RotateHangsRiser<N>(g: Shape<N>, x: N, y: N)
    requires Linked(g) && IsChild(g, x, y)
    ensures Hangs(Rotate(g, x, y), y)
  {
    NodeFacts(g, x);
    NodeFacts(g, y);
    hide Linked;
  }

  lemma RotateLeftHangsOther<N>(g: Shape<N>, x: N, y: N, n: N)
    requires Linked(g) && IsChild(g, x, y) && n in g.cell && n != x && n != y && y == g.cell[x].right
    ensures Hangs(Rotate(g, x, y), n)
  {
    NodeFacts(g, x);
    NodeFacts(g, y);
    NodeFacts(g, n);
    hide Linked;
  }

  lemma RotateRightHangsOther<N>(g: Shape<N>, x: N, y: N, n: N)
    requires Linked(g) && IsChild(g, x, y) && n in g.cell && n != x && n != y && y != g.cell[x].right
    ensures Hangs(Rotate(g, x, y), n)
  {
    NodeFacts(g, x);
    NodeFacts(g, y);
    NodeFacts(g, n);
    hide Linked;
  }

  lemma RotatePlaced<N>(g: Shape<N>, x: N, y: N, n: N)
    requires Linked(g) && IsChild(g, x, y) && n in g.cell
    ensures Placed(Rotate(g, x, y), n) && Rotate(g, x, y).cell[n].pos == g.cell[n].pos
  {
    assert Hangs(g, x) && Hangs(g, y);
  }

  lemma RotateIndexed<N>(g: Shape<N>, x: N, y: N)
    requires Linked(g) && IsChild(g, x, y)
    ensures Indexed(Rotate(g, x, y))
  {
    forall n | n in g.cell ensures Placed(Rotate(g, x, y), n) && Rotate(g, x, y).cell[n].pos == g.cell[n].pos {
      RotatePlaced(g, x, y, n);
    }
  }

  lemma RotateLinked<N>(g: Shape<N>, x: N, y: N)
    requires Linked(g) && IsChild(g, x, y)
    ensures Linked(Rotate(g, x, y))
  {
    var r := Rotate(g, x, y);
    RotateIndexed(g, x, y);
    RotateHangsPivot(g, x, y);
    RotateHangsRiser(g, x, y);
    forall n | n in r.cell ensures Hangs(r, n) {
      if n == x || n == y {
      } else if y == g.cell[x].right {
        RotateLeftHangsOther(g, x, y, n);
      } else {
        RotateRightHangsOther(g, x, y, n);
      }
    }
    assert Hangs(g, x) && Hangs(g, y);
  }

  lemma RotateKeepsNodes<N>(g: Shape<N>, x: N, y: N)
    requires x in g.cell && y in g.cell
    ensures Rotate(g, x, y).order == g.order && Rotate(g, x, y).cell.Keys == g.cell.Keys && Rotate(g, x, y).leaf == g.leaf
  {}

  /** The links of a node lead to nodes or to the sentinel. */
  lemma LinksStay<N>(g: Shape<N>, n: N)
    requires Linked(g) && n in g.cell
    ensures g.cell[n].left in g.cell || g.cell[n].left == g.leaf
    ensures g.cell[n].right in g.cell || g.cell[n].right == g.leaf
    ensures g.cell[n].parent in g.cell || g.cell[n].parent == g.leaf
    ensures g.cell[n].left != g.leaf ==> IsChild(g, n, g.cell[n].left) && g.cell[n].left != g.cell[n].right
    ensures g.cell[n].right != g.leaf ==> IsChild(g, n, g.cell[n].right)
  {
    assert Hangs(g, n);
  }

  // ---------- attaching ----------

  /** Where a bound moves when a position is inserted at t (Opened) or taken out at k (Closed). */
  ghost function Opened(v: int, t: int): int { if v >= t then v + 1 else v }
  ghost function Closed(v: int, k: int): int { if v > k then v - 1 else v }

  /** q has a free link on the given side. */
  ghost predicate Free<N>(g: Shape<N>, q: N, onLeft: bool) {
    q in g.cell && (if onLeft then g.cell[q].left else g.cell[q].right) == g.leaf
  }

  /** The in-order position of a node hung on q. */
  ghost function Slot<N>(g: Shape<N>, q: N, onLeft: bool): int
    requires q in g.cell
  {
    if onLeft then g.cell[q].pos else g.cell[q].pos + 1
  }

  ghost function AttachedCell<N>(g: Shape<N>, q: N, onLeft: bool, z: N, n: N): Cell<N>
    requires q in g.cell && (n == z || n in g.cell)
  {
    var p := Slot(g, q, onLeft);
    if n == z then Cell(g.leaf, g.leaf, q, RED, p, p, p + 1)
    else
      var c := g.cell[n];
      var t := if onLeft then p + 1 else p;
      Cell(if n == q && onLeft then z else c.left, if n == q && !onLeft then z else c.right, c.parent, c.color,
           Opened(c.lo, t), Opened(c.pos, p), Opened(c.hi, t))
  }

  /** The red node z hung on q. */
  ghost function Attach<N>(g: Shape<N>, q: N, onLeft: bool, z: N): Shape<N>
    requires Indexed(g) && q in g.cell
  {
    var p := Slot(g, q, onLeft);
    Shape(g.leaf, g.root, g.order[..p] + [z] + g.order[p..],
          map n | n in g.cell.Keys + {z} :: AttachedCell(g, q, onLeft, z, n))
  }

  lemma AttachPlaced<N>(g: Shape<N>, q: N, onLeft: bool, z: N, n: N)
    requires Linked(g) && Free(g, q, onLeft) && z !in g.cell && z != g.leaf && (n == z || n in g.cell)
    ensures Placed(Attach(g, q, onLeft, z), n)
  {
    NodeFacts(g, q);
    hide Linked;
  }

  lemma AttachListed<N>(g: Shape<N>, q: N, onLeft: bool, z: N, i: int)
    requires Linked(g) && Free(g, q, onLeft) && z !in g.cell && z != g.leaf && 0 <= i <= |g.order|
    ensures var r := Attach(g, q, onLeft, z); r.order[i] in r.cell && r.cell[r.order[i]].pos == i
  {
    var p := Slot(g, q, onLeft);
    assert Attach(g, q, onLeft, z).order[i] == if i < p then g.order[i] else if i == p then z else g.order[i - 1];
  }

  lemma AttachIndexed<N>(g: Shape<N>, q: N, onLeft: bool, z: N)
    requires Linked(g) && Free(g, q, onLeft) && z !in g.cell && z != g.leaf
    ensures Indexed(Attach(g, q, onLeft, z))
  {
    var r := Attach(g, q, onLeft, z);
    forall i | 0 <= i < |r.order| ensures r.order[i] in r.cell && r.cell[r.order[i]].pos == i {
      AttachListed(g, q, onLeft, z, i);
    }
    forall n | n == z || n in g.cell ensures Placed(Attach(g, q, onLeft, z), n) {
      AttachPlaced(g, q, onLeft, z, n);
    }
  }

  lemma AttachHangs<N>(g: Shape<N>, q: N, onLeft: bool, z: N, n: N)
    requires Linked(g) && Free(g, q, onLeft) && z !in g.cell && z != g.leaf && (n == z || n in g.cell)
    ensures Hangs(Attach(g, q, onLeft, z), n)
  {
    assert Hangs(g, q);
    if n != z { assert Hangs(g, n); }
  }

  lemma AttachLinked<N>(g: Shape<N>, q: N, onLeft: bool, z: N)
    requires Linked(g) && Free(g, q, onLeft) && z !in g.cell && z != g.leaf
    ensures Linked(Attach(g, q, onLeft, z))
  {
    var r := Attach(g, q, onLeft, z);
    AttachIndexed(g, q, onLeft, z);
    forall n | n in r.cell ensures Hangs(r, n) {
      AttachHangs(g, q, onLeft, z, n);
    }
    assert Hangs(g, q);
  }

  /** The tree of the single node z. */
  ghost function Single<N>(leaf: N, z: N): Shape<N> {
    Shape(leaf, z, [z], map[z := Cell(leaf, leaf, leaf, RED, 0, 0, 1)])
  }

  ghost function Empty<N>(leaf: N): Shape<N> {
    Shape(leaf, leaf, [], map[])
  }

  lemma SingleLinked<N>(leaf: N, z: N)
    requires z != leaf
    ensures Linked(Single(leaf, z)) && Linked(Empty(leaf))
  {
    var r := Single(leaf, z);
    assert r.cell.Keys == {z};
    forall n | n in r.cell ensures Hangs(r, n) {}
  }

  // ---------- splicing out ----------

  /** d has at most one child. */
  ghost predicate Spliceable<N>(g: Shape<N>, d: N) {
    d in g.cell && (g.cell[d].left == g.leaf || g.cell[d].right == g.leaf)
  }

  /** What takes d's place: its child, or the sentinel. */
  ghost function Replacement<N>(g: Shape<N>, d: N): N
    requires d in g.cell
  {
    if g.cell[d].left == g.leaf then g.cell[d].right else g.cell[d].left
  }

  ghost function SplicedCell<N>(g: Shape<N>, d: N, n: N): Cell<N>
    requires d in g.cell && n in g.cell
  {
    var c, k, r := g.cell[n], g.cell[d].pos, Replacement(g, d);
    Cell(if c.left == d then r else c.left, if c.right == d then r else c.right,
         if n == r then g.cell[d].parent else c.parent, c.color,
         Closed(c.lo, k), Closed(c.pos, k), Closed(c.hi, k))
  }

  /** d taken out, its replacement hung in its place. */
  ghost function Splice<N>(g: Shape<N>, d: N): Shape<N>
    requires Indexed(g) && d in g.cell
  {
    var k := g.cell[d].pos;
    Shape(g.leaf, if g.root == d then Replacement(g, d) else g.root, g.order[..k] + g.order[k + 1..],
          map n | n in g.cell.Keys - {d} :: SplicedCell(g, d, n))
  }

  lemma SplicePlaced<N>(g: Shape<N>, d: N, n: N)
    requires Linked(g) && Spliceable(g, d) && n in g.cell && n != d
    ensures Placed(Splice(g, d), n)
  {
    assert Hangs(g, n);
  }

  lemma SpliceIndexed<N>(g: Shape<N>, d: N)
    requires Linked(g) && Spliceable(g, d)
    ensures Indexed(Splice(g, d))
  {
    forall n | n in g.cell && n != d ensures Placed(Splice(g, d), n) {
      SplicePlaced(g, d, n);
    }
  }

  lemma SpliceFillsLeft<N>(g: Shape<N>, d: N, n: N)
    requires Linked(g) && Spliceable(g, d) && n in g.cell && n != d
    ensures var r := Splice(g, d); Fills(r, r.cell[n].left, r.cell[n].lo, r.cell[n].pos, n)
  {
    assert HasChildren(g, d) && HasChildren(g, n) by { assert Hangs(g, d) && Hangs(g, n); }
  }

  lemma SpliceFillsRight<N>(g: Shape<N>, d: N, n: N)
    requires Linked(g) && Spliceable(g, d) && n in g.cell && n != d
    ensures var r := Splice(g, d); Fills(r, r.cell[n].right, r.cell[n].pos + 1, r.cell[n].hi, n)
  {
    NodeFacts(g, d);
    NodeFacts(g, n);
    hide Linked;
  }

  lemma SpliceHasParent<N>(g: Shape<N>, d: N, n: N)
    requires Linked(g) && Spliceable(g, d) && n in g.cell && n != d
    ensures HasParent(Splice(g, d), n)
  {
    NodeFacts(g, d);
    NodeFacts(g, n);
    var r := Splice(g, d);
    assert r.cell[n] == SplicedCell(g, d, n);
    assert r.cell.Keys == g.cell.Keys - {d};
    var p := g.cell[n].parent;
    if p in g.cell && p != d { assert r.cell[p] == SplicedCell(g, d, p); }
    if p == d && g.cell[d].parent in g.cell { assert r.cell[g.cell[d].parent] == SplicedCell(g, d, g.cell[d].parent); }
    hide Linked, Splice;
  }

  lemma SpliceLinked<N>(g: Shape<N>, d: N)
    requires Linked(g) && Spliceable(g, d)
    ensures Linked(Splice(g, d))
  {
    var r := Splice(g, d);
    SpliceIndexed(g, d);
    forall n | n in r.cell ensures Hangs(r, n) {
      SpliceFillsLeft(g, d, n);
      SpliceFillsRight(g, d, n);
      SpliceHasParent(g, d, n);
    }
    assert Hangs(g, d);
  }

  // ---------- putting one node in another's place ----------

  ghost function Renamed<N>(d: N, m: N, n: N): N { if n == d then m else n }

  ghost function RenamedCell<N>(g: Shape<N>, d: N, m: N, n: N): Cell<N>
    requires d in g.cell && (n == m || n in g.cell)
  {
    var c := if n == m then g.cell[d] else g.cell[n];
    c.(left := Renamed(d, m, c.left), right := Renamed(d, m, c.right), parent := Renamed(d, m, c.parent))
  }

  /** m, from outside, takes over d's links, colour and position; d leaves. */
  ghost function Rename<N>(g: Shape<N>, d: N, m: N): Shape<N>
    requires Indexed(g) && d in g.cell
  {
    Shape(g.leaf, Renamed(d, m, g.root), g.order[g.cell[d].pos := m],
          map n | n in g.cell.Keys - {d} + {m} :: RenamedCell(g, d, m, n))
  }

  lemma RenameHangs<N>(g: Shape<N>, d: N, m: N, n: N)
    requires Linked(g) && d in g.cell && m !in g.cell && m != g.leaf && n != d && (n == m || n in g.cell)
    ensures Hangs(Rename(g, d, m), n)
  {
    assert Hangs(g, if n == m then d else n);
  }

  lemma RenameLinked<N>(g: Shape<N>, d: N, m: N)
    requires Linked(g) && d in g.cell && m !in g.cell && m != g.leaf
    ensures Linked(Rename(g, d, m))
  {
    var r := Rename(g, d, m);
    RenameIndexed(g, d, m);
    forall n | n in r.cell ensures Hangs(r, n) {
      RenameHangs(g, d, m, n);
    }
    hide Indexed, Hangs;
  }

  lemma RenameIndexed<N>(g: Shape<N>, d: N, m: N)
    requires Linked(g) && d in g.cell && m !in g.cell && m != g.leaf
    ensures Indexed(Rename(g, d, m)) && Fills(Rename(g, d, m), Rename(g, d, m).root, 0, |g.order|, g.leaf)
  {}
}
