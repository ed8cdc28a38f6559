/** Sequences of black counts, one per missing link (LEAF slot) of a tree, from left to right. */
module BlackCounts {

  ghost predicate AllEqual(s: seq<int>) {
    forall i, j :: 0 <= i < |s| && 0 <= j < |s| ==> s[i] == s[j]
  }

  ghost predicate AllAre(s: seq<int>, k: int) {
    forall i :: 0 <= i < |s| ==> s[i] == k
  }

  lemma PlusAllAre(b: int, l: seq<int>, r: seq<int>, k: int)
    ensures AllAre(Plus(b, l + r), k) <==> AllAre(l, k - b) && AllAre(r, k - b)
  {
    var d := Plus(b, l + r);
    if AllAre(d, k) {
      assert forall i :: 0 <= i < |l| ==> l[i] == d[i] - b;
      assert forall i :: 0 <= i < |r| ==> r[i] == d[|l| + i] - b;
    }
  }

  /** Every count raised by k. */
  ghost function Plus(k: int, s: seq<int>): (r: seq<int>)
    ensures |r| == |s| && forall i :: 0 <= i < |s| ==> r[i] == s[i] + k
  {
    seq(|s|, i requires 0 <= i < |s| => s[i] + k)
  }

  /** Slot i split in two. */
  ghost function Twice(s: seq<int>, i: int): seq<int>
    requires 0 <= i < |s|
  {
    s[..i + 1] + s[i..]
  }

  /** The slot dead closed, and the counts at lo..hi-1 lowered by drop. */
  ghost function Cut(s: seq<int>, dead: int, lo: int, hi: int, drop: int): (r: seq<int>)
    requires |s| > 0
    ensures |r| == |s| - 1
  {
    seq(|s| - 1, i requires 0 <= i < |s| - 1 =>
      var j := if i < dead then i else i + 1;
      if lo <= j < hi then s[j] - drop else s[j])
  }

  lemma PlusZero(s: seq<int>)
    ensures Plus(0, s) == s
  {}

  lemma PlusConcat(k: int, s: seq<int>, t: seq<int>)
    ensures Plus(k, s + t) == Plus(k, s) + Plus(k, t)
  {}

  lemma PlusPlus(k: int, m: int, s: seq<int>)
    ensures Plus(k, Plus(m, s)) == Plus(k + m, s)
  {}

  /** A red node adds nothing, so three runs of slots can be grouped either way. */
  lemma Regroup(k: int, a: seq<int>, b: seq<int>, c: seq<int>)
    ensures Plus(k, a + Plus(0, b + c)) == Plus(k, Plus(0, a + b) + c)
  {
    PlusZero(a + b);
    PlusZero(b + c);
    assert a + (b + c) == (a + b) + c;
  }

  lemma TwiceSum(k: int, l: seq<int>, r: seq<int>, i: int)
    requires 0 <= i < |l| + |r|
    ensures Twice(Plus(k, l + r), i) == Plus(k, if i < |l| then Twice(l, i) + r else l + Twice(r, i - |l|))
  {
    hide Twice, Plus;
    TwicePlus(k, l + r, i);
    TwiceConcat(l, r, i);
  }

  lemma TwicePlus(k: int, s: seq<int>, i: int)
    requires 0 <= i < |s|
    ensures Twice(Plus(k, s), i) == Plus(k, Twice(s, i))
  {
    hide Plus;
    PlusConcat(k, s[..i + 1], s[i..]);
    assert Plus(k, s)[..i + 1] == Plus(k, s[..i + 1]);
    assert Plus(k, s)[i..] == Plus(k, s[i..]);
  }

  lemma TwiceConcat(l: seq<int>, r: seq<int>, i: int)
    requires 0 <= i < |l| + |r|
    ensures Twice(l + r, i) == if i < |l| then Twice(l, i) + r else l + Twice(r, i - |l|)
  {
    var t := l + r;
    if i < |l| {
      assert t[..i + 1] == l[..i + 1] && t[i..] == l[i..] + r;
    } else {
      assert t[..i + 1] == l + r[..i - |l| + 1] && t[i..] == r[i - |l|..];
    }
  }

  lemma TwiceAllEqual(s: seq<int>, i: int, k: int)
    requires 0 <= i < |s|
    ensures AllEqual(Plus(k, Twice(s, i))) <==> AllEqual(s)
  {
    var r := Plus(k, Twice(s, i));
    assert |r| == |s| + 1;
    forall x | 0 <= x < |s| ensures s[x] + k == r[if x <= i then x else x + 1] {}
    forall x | 0 <= x < |r| ensures r[x] == s[if x <= i then x else x - 1] + k {}
    hide Twice, Plus;
    SpreadEqual(s, r, i, k);
  }

  lemma SpreadEqual(s: seq<int>, r: seq<int>, i: int, k: int)
    requires 0 <= i < |s| && |r| == |s| + 1
    requires forall x :: 0 <= x < |s| ==> s[x] + k == r[if x <= i then x else x + 1]
    requires forall x :: 0 <= x < |r| ==> r[x] == s[if x <= i then x else x - 1] + k
    ensures AllEqual(r) <==> AllEqual(s)
  {
    if AllEqual(s) {
      forall x | 0 <= x < |r| ensures r[x] == s[0] + k {}
    }
    if AllEqual(r) {
      forall x | 0 <= x < |s| ensures s[x] == r[0] - k {}
    }
  }

  lemma CutSumLeft(k: int, l: seq<int>, r: seq<int>, dead: int, lo: int, hi: int, drop: int)
    requires 0 <= dead < |l| && hi <= |l|
    ensures Cut(Plus(k, l + r), dead, lo, hi, drop) == Plus(k, Cut(l, dead, lo, hi, drop) + r)
  {}

  lemma CutSumRight(k: int, l: seq<int>, r: seq<int>, dead: int, lo: int, hi: int, drop: int)
    requires |l| <= dead < |l| + |r| && |l| <= lo
    ensures Cut(Plus(k, l + r), dead, lo, hi, drop) == Plus(k, l + Cut(r, dead - |l|, lo - |l|, hi - |l|, drop))
  {}

  /** The only child's counts, seen from below a node that is taken out. */
  lemma CutOnlyChild(k: int, s: seq<int>, drop: int)
    ensures Cut(Plus(k, [0] + s), 0, 0, |s| + 1, drop) == Plus(k - drop, s)
    ensures Cut(Plus(k, s + [0]), |s|, 0, |s| + 1, drop) == Plus(k - drop, s)
  {}

  /** The last rotation of a deletion keeps the counts of the subtree it works on. */
  lemma LastRegroup(k: int, x: seq<int>, m: seq<int>, t: seq<int>)
    ensures Plus(k, x + Plus(1, m + t)) == Plus(k, Plus(1, Plus(-1, x) + m) + Plus(1, t))
    ensures Plus(k, Plus(1, t + m) + x) == Plus(k, Plus(1, t) + Plus(1, m + Plus(-1, x)))
  {}

  lemma EqualParts(k: int, l: seq<int>, r: seq<int>)
    requires AllEqual(Plus(k, l + r))
    ensures AllEqual(l) && AllEqual(r)
    ensures |l| > 0 && |r| > 0 ==> l[0] == r[0]
  {
    var d := Plus(k, l + r);
    assert forall i :: 0 <= i < |l| ==> l[i] == d[i] - k;
    assert forall i :: 0 <= i < |r| ==> r[i] == d[|l| + i] - k;
  }

  /** The counts at lo..hi-1 raised by one, all others kept. */
  ghost function Lift(s: seq<int>, lo: int, hi: int): (r: seq<int>)
    ensures |r| == |s| && forall i :: 0 <= i < |s| ==> r[i] == if lo <= i < hi then s[i] + 1 else s[i]
  {
    seq(|s|, i requires 0 <= i < |s| => if lo <= i < hi then s[i] + 1 else s[i])
  }

  lemma LiftSumLeft(k: int, l: seq<int>, r: seq<int>, lo: int, hi: int)
    requires hi <= |l|
    ensures Plus(k, Lift(l, lo, hi) + r) == Lift(Plus(k, l + r), lo, hi)
  {}

  lemma LiftSumRight(k: int, l: seq<int>, r: seq<int>, lo: int, hi: int)
    requires |l| <= lo
    ensures Plus(k, l + Lift(r, lo - |l|, hi - |l|)) == Lift(Plus(k, l + r), lo, hi)
  {}

  lemma LiftAll(k: int, s: seq<int>)
    ensures Plus(k + 1, s) == Lift(Plus(k, s), 0, |s|)
  {}

  /** What is lifted by one stretch and lowered by its rear or its front part is lifted by the rest. */
  lemma LiftRest(s: seq<int>, t: seq<int>, lo: int, mid: int, hi: int)
    requires lo <= mid <= hi
    ensures Lift(t, mid, hi) == Lift(s, lo, hi) ==> t == Lift(s, lo, mid)
    ensures Lift(t, lo, mid) == Lift(s, lo, hi) ==> t == Lift(s, mid, hi)
  {
    var a, b, c := Lift(s, lo, hi), Lift(t, mid, hi), Lift(t, lo, mid);
    if b == a {
      assert |t| == |s|;
      forall i | 0 <= i < |t| ensures t[i] == Lift(s, lo, mid)[i] { assert b[i] == a[i]; }
    }
    if c == a {
      assert |t| == |s|;
      forall i | 0 <= i < |t| ensures t[i] == Lift(s, mid, hi)[i] { assert c[i] == a[i]; }
    }
  }

  /** Lifting some but not all of equal counts makes them unequal. */
  lemma LiftUneven(s: seq<int>, lo: int, hi: int)
    requires AllEqual(s) && 0 <= lo < hi <= |s| && hi - lo < |s|
    ensures !AllEqual(Lift(s, lo, hi))
  {
    var r := Lift(s, lo, hi);
    assert r[lo] == s[lo] + 1;
    if lo > 0 { assert r[0] == s[0]; } else { assert r[hi] == s[hi]; }
  }

  /** Closing a slot without lowering anything keeps equal counts equal. */
  lemma CutEqual(s: seq<int>, dead: int, lo: int, hi: int)
    requires |s| > 0 && AllEqual(s)
    ensures AllEqual(Cut(s, dead, lo, hi, 0))
  {}

  /** Lowering one of two slots and closing the other keeps equal counts equal only if there are no further slots. */
  lemma CutTwo(s: seq<int>, dead: int, lo: int)
    requires AllEqual(s) && 0 <= lo && lo + 2 <= |s| && lo <= dead < lo + 2
    ensures AllEqual(Cut(s, dead, lo, lo + 2, 1)) <==> |s| == 2
  {
    var r := Cut(s, dead, lo, lo + 2, 1);
    assert r[lo] == s[0] - 1;
    if |s| > 2 {
      if lo > 0 { assert r[0] == s[0]; }
      else { assert r[1] == s[2] == s[0]; }
    }
  }
}
