/** Sorted key sequences, and the finite map they stand for. */
module KeyOrder {
  import opened Nodes

  /** No nil key, and every key strictly below every later one. */
  ghost predicate Sorted(cmp: CompareFunc, ks: seq<Item>) {
    && (forall i :: 0 <= i < |ks| ==> ks[i] != Nil)
    && (forall i, j :: 0 <= i < j < |ks| ==> cmp(ks[i], ks[j]) < 0)
  }

  /** key belongs at p: everything before is below it, everything from p on above it. */
  ghost predicate Separates(cmp: CompareFunc, ks: seq<Item>, key: Item, lo: int, hi: int)
    requires 0 <= lo <= hi <= |ks|
  {
    (forall i :: 0 <= i < lo ==> cmp(ks[i], key) < 0) && (forall i :: hi <= i < |ks| ==> cmp(ks[i], key) > 0)
  }

  lemma NarrowRight(cmp: CompareFunc, ks: seq<Item>, key: Item, lo: int, k: int, hi: int)
    requires Lawful(cmp) && Sorted(cmp, ks) && key != Nil && 0 <= lo <= k < hi <= |ks|
    requires Separates(cmp, ks, key, lo, hi) && cmp(ks[k], key) < 0
    ensures Separates(cmp, ks, key, k + 1, hi)
  {
    forall i | 0 <= i < k + 1 ensures cmp(ks[i], key) < 0 {
      if i < k {
        Below(cmp, ks[i], ks[k], key);
      }
    }
  }

  lemma NarrowLeft(cmp: CompareFunc, ks: seq<Item>, key: Item, lo: int, k: int, hi: int)
    requires Lawful(cmp) && Sorted(cmp, ks) && key != Nil && 0 <= lo <= k < hi <= |ks|
    requires Separates(cmp, ks, key, lo, hi) && cmp(ks[k], key) > 0
    ensures Separates(cmp, ks, key, lo, k)
  {
    forall i | k <= i < |ks| ensures cmp(ks[i], key) > 0 {
      if i > k {
        assert cmp(key, ks[k]) < 0;
        Below(cmp, key, ks[k], ks[i]);
      }
    }
  }

  lemma Below(cmp: CompareFunc, a: Item, b: Item, c: Item)
    requires Lawful(cmp) && a != Nil && b != Nil && c != Nil && cmp(a, b) < 0 && cmp(b, c) < 0
    ensures cmp(a, c) < 0
  {
    assert cmp(c, b) > 0;
    assert cmp(c, a) > 0;
  }

  // ---------- the finite map ----------

  ghost function Elements(ks: seq<Item>): set<Item> { set i | 0 <= i < |ks| :: ks[i] }

  ghost predicate Holds(cmp: CompareFunc, s: set<Item>, key: Item) {
    exists k :: k in s && cmp(k, key) == 0
  }

  /** The stored item that compares equal to key, or nil. */
  ghost function LookUp(cmp: CompareFunc, s: set<Item>, key: Item): Item {
    if Holds(cmp, s, key) then var k :| k in s && cmp(k, key) == 0; k else Nil
  }

  lemma SameIndex(cmp: CompareFunc, ks: seq<Item>, i: int, j: int)
    requires Lawful(cmp) && Sorted(cmp, ks) && 0 <= i < |ks| && 0 <= j < |ks| && cmp(ks[i], ks[j]) == 0
    ensures i == j
  {
    assert cmp(ks[j], ks[i]) == 0;
  }

  lemma Distinct(cmp: CompareFunc, ks: seq<Item>, i: int, j: int)
    requires Lawful(cmp) && Sorted(cmp, ks) && 0 <= i < |ks| && 0 <= j < |ks| && ks[i] == ks[j]
    ensures i == j
  {
    assert cmp(ks[i], ks[i]) == 0;
  }

  lemma SameClass(cmp: CompareFunc, a: Item, b: Item, key: Item)
    requires Lawful(cmp) && a != Nil && b != Nil && key != Nil && cmp(a, key) == 0 && cmp(b, key) == 0
    ensures cmp(a, b) == 0
  {
    assert cmp(key, a) == 0 && cmp(key, b) == 0;
    assert cmp(a, b) <= 0 && cmp(b, a) <= 0;
  }

  lemma SortedUnique(cmp: CompareFunc, ks: seq<Item>, key: Item, k: Item)
    requires Lawful(cmp) && Sorted(cmp, ks) && key != Nil && k in Elements(ks) && cmp(k, key) == 0
    ensures LookUp(cmp, Elements(ks), key) == k
  {
    var m := LookUp(cmp, Elements(ks), key);
    var i :| 0 <= i < |ks| && ks[i] == k;
    var j :| 0 <= j < |ks| && ks[j] == m;
    SameClass(cmp, k, m, key);
    SameIndex(cmp, ks, i, j);
  }

  lemma SeparatedAbsent(cmp: CompareFunc, ks: seq<Item>, key: Item, p: int)
    requires 0 <= p <= |ks| && Separates(cmp, ks, key, p, p)
    ensures !Holds(cmp, Elements(ks), key) && LookUp(cmp, Elements(ks), key) == Nil
  {
  }

  ghost function Inserted(ks: seq<Item>, p: int, key: Item): seq<Item>
    requires 0 <= p <= |ks|
  {
    ks[..p] + [key] + ks[p..]
  }

  lemma InsertSorted(cmp: CompareFunc, ks: seq<Item>, key: Item, p: int)
    requires Lawful(cmp) && Sorted(cmp, ks) && key != Nil && 0 <= p <= |ks| && Separates(cmp, ks, key, p, p)
    ensures Sorted(cmp, Inserted(ks, p, key))
  {
    var r := Inserted(ks, p, key);
    forall i, j | 0 <= i < j < |r| ensures cmp(r[i], r[j]) < 0 {
      if i == p { assert cmp(ks[j - 1], key) > 0; }
    }
  }

  lemma InsertElements(ks: seq<Item>, key: Item, p: int)
    requires 0 <= p <= |ks|
    ensures Elements(Inserted(ks, p, key)) == Elements(ks) + {key}
  {
    var r := Inserted(ks, p, key);
    forall k | k in Elements(ks) + {key} ensures k in Elements(r) {
      if k in Elements(ks) {
        var i :| 0 <= i < |ks| && ks[i] == k;
        assert r[if i < p then i else i + 1] == k;
      } else {
        assert r[p] == k;
      }
    }
  }

  ghost function Removed(ks: seq<Item>, p: int): seq<Item>
    requires 0 <= p < |ks|
  {
    ks[..p] + ks[p + 1..]
  }

  lemma RemoveSorted(cmp: CompareFunc, ks: seq<Item>, p: int)
    requires Sorted(cmp, ks) && 0 <= p < |ks|
    ensures Sorted(cmp, Removed(ks, p))
  {
  }

  lemma RemoveElements(cmp: CompareFunc, ks: seq<Item>, p: int)
    requires Lawful(cmp) && Sorted(cmp, ks) && 0 <= p < |ks|
    ensures Elements(Removed(ks, p)) == Elements(ks) - {ks[p]}
  {
    RemovedHas(ks, p);
    forall k | k in Elements(Removed(ks, p)) ensures k in Elements(ks) && k != ks[p] {
      var j := RemovedFrom(ks, p, k);
      if k == ks[p] { Distinct(cmp, ks, j, p); }
    }
  }

  lemma RemovedHas(ks: seq<Item>, p: int)
    requires 0 <= p < |ks|
    ensures Elements(ks) - {ks[p]} <= Elements(Removed(ks, p))
  {
    var r := Removed(ks, p);
    forall k | k in Elements(ks) - {ks[p]} ensures k in Elements(r) {
      var i :| 0 <= i < |ks| && ks[i] == k;
      assert r[if i < p then i else i - 1] == k;
    }
  }

  lemma RemovedFrom(ks: seq<Item>, p: int, k: Item) returns (j: int)
    requires 0 <= p < |ks| && k in Elements(Removed(ks, p))
    ensures 0 <= j < |ks| && j != p && ks[j] == k
  {
    var r := Removed(ks, p);
    var i :| 0 <= i < |r| && r[i] == k;
    j := if i < p then i else i + 1;
  }

  lemma RemovedKeys(order: seq<Node>, p: int)
    requires 0 <= p < |order|
    ensures |KeysOf(order)| == |order| && KeysOf(order)[p] == order[p].keyValue
    ensures KeysOf(order[..p] + order[p + 1..]) == Removed(KeysOf(order), p)
  {
    hide KeysOf;
    var o, r := order[..p] + order[p + 1..], Removed(KeysOf(order), p);
    forall i | 0 <= i < |o| ensures KeysOf(o)[i] == r[i] {
      assert o[i] == order[if i < p then i else i + 1];
      assert r[i] == KeysOf(order)[if i < p then i else i + 1];
    }
  }

  lemma AttachedKeys(order: seq<Node>, p: int, z: Node)
    requires 0 <= p <= |order|
    ensures |KeysOf(order)| == |order|
    ensures KeysOf(order[..p] + [z] + order[p..]) == Inserted(KeysOf(order), p, z.keyValue)
  {
    hide KeysOf;
    var o, r := order[..p] + [z] + order[p..], Inserted(KeysOf(order), p, z.keyValue);
    forall i | 0 <= i < |o| ensures KeysOf(o)[i] == r[i] {
      assert o[i] == if i < p then order[i] else if i == p then z else order[i - 1];
    }
  }
}
