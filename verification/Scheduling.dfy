/** The round-robin pass over the protocols of a layer, on values: queues, score, cursor and what handlers were given. */
module Scheduling {
  import opened Nodes

  const LOOP_DIR_IN := 1
  const LOOP_DIR_OUT := 2

  type Frame = nat

  /** A frame handed to the handler of the protocol registered under a key. */
  datatype Delivery = Delivery(to: Item, frame: Frame)

  /** What the k-th handler call of the run returns. Any handlers whatever behave like some such sequence. */
  type Results = nat -> int

  /**
   A pass under way, protocols known by their in-order position: the next one, the score left, the queue of each,
   all deliveries so far, and the positions visited.
   */
  datatype Pass = Pass(at: int, score: int, queues: seq<seq<Frame>>, log: seq<Delivery>, visited: seq<int>)

  // ---------- one queue ----------

  datatype Served = Served(score: int, left: seq<Frame>, log: seq<Delivery>)

  ghost function Serve(result: Results, key: Item, score: int, queue: seq<Frame>, log: seq<Delivery>): Served
    decreases |queue|
  {
    if score <= 0 || queue == [] then Served(score, queue, log)
    else
      Serve(result, key, if result(|log|) > 0 then score - 1 else score, queue[1..], log + [Delivery(key, queue[0])])
  }

  ghost function Deliveries(key: Item, frames: seq<Frame>): (r: seq<Delivery>)
    ensures |r| == |frames|
  {
    seq(|frames|, i requires 0 <= i < |frames| => Delivery(key, frames[i]))
  }

  /** How many of the handler calls lo..hi-1 returned a positive value. */
  ghost function Positives(result: Results, lo: nat, hi: nat): (r: nat)
    requires lo <= hi
    ensures r <= hi - lo
    decreases hi - lo
  {
    if lo == hi then 0 else (if result(lo) > 0 then 1 else 0) + Positives(result, lo + 1, hi)
  }

  lemma {:induction false} PositivesSplit(result: Results, lo: nat, mid: nat, hi: nat)
    requires lo <= mid <= hi
    ensures Positives(result, lo, hi) == Positives(result, lo, mid) + Positives(result, mid, hi)
    decreases mid - lo
  {
    if lo < mid { PositivesSplit(result, lo + 1, mid, hi); }
  }

  /**
   A prefix of the queue was handed over in order, the rest is left, and each positive result cost one point; there was
   a point left when the last frame was handed over.
   */
  ghost predicate ServedFrom(result: Results, key: Item, score: int, queue: seq<Frame>, log: seq<Delivery>, s: Served) {
    && |s.left| <= |queue|
    && (var k := |queue| - |s.left|;
        && s.left == queue[k..] && s.log == log + Deliveries(key, queue[..k])
        && s.score == score - Positives(result, |log|, |log| + k)
        && (k > 0 ==> score - Positives(result, |log|, |log| + k - 1) > 0))
  }

  /** Serving stops only where the score is used up or the queue is empty, and never goes below zero. */
  lemma {:induction false} ServeMeaning(result: Results, key: Item, score: int, queue: seq<Frame>, log: seq<Delivery>)
    ensures var s := Serve(result, key, score, queue, log);
            && ServedFrom(result, key, score, queue, log, s)
            && (s.score <= 0 || s.left == []) && s.score <= score && (score >= 0 ==> s.score >= 0)
            && (score <= 0 ==> s.left == queue)
    decreases |queue|
  {
    if score > 0 && queue != [] {
      hide ServedFrom, Deliveries;
      var next := if result(|log|) > 0 then score - 1 else score;
      var log1 := log + [Delivery(key, queue[0])];
      ServeMeaning(result, key, next, queue[1..], log1);
      ServedStep(result, key, score, queue, log, Serve(result, key, next, queue[1..], log1));
    } else {
      assert queue[0..] == queue && log + Deliveries(key, []) == log;
    }
  }

  lemma ServedStep(result: Results, key: Item, score: int, queue: seq<Frame>, log: seq<Delivery>, s: Served)
    requires score > 0 && queue != []
    requires ServedFrom(result, key, if result(|log|) > 0 then score - 1 else score, queue[1..], log + [Delivery(key, queue[0])], s)
    ensures ServedFrom(result, key, score, queue, log, s)
  {
    var k := |queue| - |s.left|;
    assert queue[1..][k - 1..] == queue[k..];
    var first, later := [Delivery(key, queue[0])], Deliveries(key, queue[1..][..k - 1]);
    assert Deliveries(key, queue[..k]) == first + later;
    assert s.log == (log + first) + later == log + (first + later);
    assert k > 1 ==> Positives(result, |log|, |log| + k - 1) == (if result(|log|) > 0 then 1 else 0) + Positives(result, |log| + 1, |log| + k - 1);
    assert Positives(result, |log|, |log| + k) == (if result(|log|) > 0 then 1 else 0) + Positives(result, |log| + 1, |log| + k);
  }

  // ---------- one pass ----------

  /** The position after c among n, the first one after the last. */
  ghost function Next(n: nat, c: int): int { if c + 1 >= n then 0 else c + 1 }

  ghost function Visit(result: Results, keys: seq<Item>, p: Pass): Pass
    requires |p.queues| == |keys| && 0 <= p.at < |keys|
  {
    var s := Serve(result, keys[p.at], p.score, p.queues[p.at], p.log);
    Pass(Next(|keys|, p.at), s.score, p.queues[p.at := s.left], s.log, p.visited + [p.at])
  }

  /** At most left more visits, as long as the score is above 1. */
  ghost function RunPass(result: Results, keys: seq<Item>, p: Pass, left: nat): Pass
    requires |p.queues| == |keys| && 0 <= p.at < |keys|
    decreases left
  {
    if left == 0 || p.score <= 1 then p else RunPass(result, keys, Visit(result, keys, p), left - 1)
  }

  /** A whole call: one round at most, from position at. */
  ghost function Round(result: Results, keys: seq<Item>, at: int, score: int, queues: seq<seq<Frame>>, log: seq<Delivery>): Pass
    requires |queues| == |keys| && 0 <= at < |keys|
  {
    RunPass(result, keys, Pass(at, score, queues, log, []), |keys|)
  }

  /** The first m positions of the endless cyclic repetition of 0..n-1 from c on. */
  ghost function Cyclic(n: nat, c: int, m: nat): (r: seq<int>)
    ensures |r| == m
    decreases m
  {
    if m == 0 then [] else [c] + Cyclic(n, Next(n, c), m - 1)
  }

  /** The position reached from c by m steps. */
  ghost function Advance(n: nat, c: int, m: nat): int
    decreases m
  {
    if m == 0 then c else Advance(n, Next(n, c), m - 1)
  }

  lemma {:induction false} CyclicSplit(n: nat, c: int, k: nat, m: nat)
    ensures Cyclic(n, c, k + m) == Cyclic(n, c, k) + Cyclic(n, Advance(n, c, k), m)
    decreases k
  {
    if k > 0 {
      CyclicSplit(n, Next(n, c), k - 1, m);
      assert k + m - 1 == (k - 1) + m;
    }
  }

  lemma {:induction false} AdvanceMeaning(n: nat, c: int, m: nat)
    requires 0 <= c < n && m <= n
    ensures Advance(n, c, m) == if c + m < n then c + m else if c + m < 2 * n then c + m - n else c
    decreases m
  {
    if m > 0 {
      if c + 1 < n { AdvanceMeaning(n, c + 1, m - 1); } else { AdvanceMeaning(n, 0, m - 1); }
    }
  }

  lemma {:induction false} CyclicAt(n: nat, c: int, m: nat, i: nat)
    requires 0 <= c < n && i < m
    ensures Cyclic(n, c, m)[i] == Advance(n, c, i) && 0 <= Cyclic(n, c, m)[i] < n
    decreases m
  {
    if i > 0 { CyclicAt(n, Next(n, c), m - 1, i - 1); }
  }

  /**
   A call visits between one and all n protocols when the score is above 1 and none otherwise, consecutive in cyclic
   order from the cursor and no one twice; the new cursor is the one after the last visited.
   */
  lemma RoundVisits(result: Results, keys: seq<Item>, at: int, score: int, queues: seq<seq<Frame>>, log: seq<Delivery>)
    requires |queues| == |keys| && 0 <= at < |keys|
    ensures var p, n := Round(result, keys, at, score, queues, log), |keys|;
            && |p.visited| <= n && p.visited == Cyclic(n, at, |p.visited|) && p.at == Advance(n, at, |p.visited|)
            && (score > 1 <==> |p.visited| >= 1) && 0 <= p.at < n
            && (forall i, j :: 0 <= i < j < |p.visited| ==> p.visited[i] != p.visited[j])
  {
    var n := |keys|;
    PassVisits(result, keys, Pass(at, score, queues, log, []), n);
    var p := Round(result, keys, at, score, queues, log);
    assert p.visited == [] + Cyclic(n, at, |p.visited|) == Cyclic(n, at, |p.visited|);
    forall i, j | 0 <= i < j < |p.visited| ensures p.visited[i] != p.visited[j] {
      CyclicAt(n, at, |p.visited|, i);
      CyclicAt(n, at, |p.visited|, j);
      AdvanceMeaning(n, at, i);
      AdvanceMeaning(n, at, j);
    }
  }

  lemma {:induction false} PassVisits(result: Results, keys: seq<Item>, p: Pass, left: nat)
    requires |p.queues| == |keys| && 0 <= p.at < |keys|
    ensures var r, n := RunPass(result, keys, p, left), |keys|;
            && |p.visited| <= |r.visited| <= |p.visited| + left
            && r.visited == p.visited + Cyclic(n, p.at, |r.visited| - |p.visited|)
            && r.at == Advance(n, p.at, |r.visited| - |p.visited|) && 0 <= r.at < n
            && (left > 0 && p.score > 1 <==> |r.visited| > |p.visited|)
    decreases left
  {
    if left > 0 && p.score > 1 {
      var q := Visit(result, keys, p);
      assert q.visited == p.visited + [p.at] && q.at == Next(|keys|, p.at) && |q.queues| == |keys|;
      assert RunPass(result, keys, p, left) == RunPass(result, keys, q, left - 1);
      hide Visit, RunPass;
      PassVisits(result, keys, q, left - 1);
      var r := RunPass(result, keys, q, left - 1);
      var m := |r.visited| - |q.visited|;
      assert Cyclic(|keys|, p.at, m + 1) == [p.at] + Cyclic(|keys|, q.at, m);
      assert Advance(|keys|, p.at, m + 1) == Advance(|keys|, q.at, m);
    }
  }

  // ---------- conservation ----------

  /** The frames a log hands to one key, in order. */
  ghost function DeliveredTo(log: seq<Delivery>, key: Item): seq<Frame> {
    if log == [] then [] else (if log[0].to == key then [log[0].frame] else []) + DeliveredTo(log[1..], key)
  }

  lemma {:induction false} DeliveredSplit(a: seq<Delivery>, b: seq<Delivery>, key: Item)
    ensures DeliveredTo(a + b, key) == DeliveredTo(a, key) + DeliveredTo(b, key)
  {
    if a == [] {
      assert a + b == b;
    } else {
      assert (a + b)[0] == a[0] && (a + b)[1..] == a[1..] + b;
      DeliveredSplit(a[1..], b, key);
      var first := if a[0].to == key then [a[0].frame] else [];
      assert DeliveredTo(a + b, key) == first + DeliveredTo(a[1..] + b, key);
      assert DeliveredTo(a, key) == first + DeliveredTo(a[1..], key);
      hide DeliveredTo;
    }
  }

  lemma {:induction false} DeliveredWhole(key: Item, frames: seq<Frame>, other: Item)
    ensures DeliveredTo(Deliveries(key, frames), other) == if key == other then frames else []
  {
    if frames != [] {
      assert Deliveries(key, frames)[1..] == Deliveries(key, frames[1..]);
      DeliveredWhole(key, frames[1..], other);
      assert frames == [frames[0]] + frames[1..];
    }
  }

  ghost predicate Distinct(keys: seq<Item>) { forall i, j :: 0 <= i < j < |keys| ==> keys[i] != keys[j] }

  /** What the run from p to r gave the handlers. */
  ghost function Since(p: Pass, r: Pass): seq<Delivery>
    requires |p.log| <= |r.log|
  {
    r.log[|p.log|..]
  }

  /** Every frame is handed over once, in order, or stays in place, and the score pays for the positive results only. */
  ghost predicate Conserves(result: Results, keys: seq<Item>, p: Pass, r: Pass) {
    && |p.log| <= |r.log| && r.log[..|p.log|] == p.log && |r.queues| == |p.queues| == |keys|
    && r.score == p.score - Positives(result, |p.log|, |r.log|)
    && forall i :: 0 <= i < |keys| ==> Kept(keys, p, r, i)
  }

  ghost predicate Kept(keys: seq<Item>, p: Pass, r: Pass, i: int)
    requires 0 <= i < |keys| == |p.queues| == |r.queues| && |p.log| <= |r.log|
  {
    DeliveredTo(Since(p, r), keys[i]) + r.queues[i] == p.queues[i]
  }

  lemma VisitConserves(result: Results, keys: seq<Item>, p: Pass)
    requires |p.queues| == |keys| && 0 <= p.at < |keys| && Distinct(keys)
    ensures Conserves(result, keys, p, Visit(result, keys, p))
  {
    hide Serve, Deliveries, Positives, DeliveredTo;
    var q := Visit(result, keys, p);
    ServeMeaning(result, keys[p.at], p.score, p.queues[p.at], p.log);
    forall i | 0 <= i < |keys| ensures Kept(keys, p, q, i) {
      VisitKeeps(result, keys, p, i);
    }
  }

  lemma VisitKeeps(result: Results, keys: seq<Item>, p: Pass, i: int)
    requires |p.queues| == |keys| && 0 <= p.at < |keys| && Distinct(keys) && 0 <= i < |keys|
    ensures var q := Visit(result, keys, p); |p.log| <= |q.log| && |q.queues| == |keys| && Kept(keys, p, q, i)
  {
    hide Serve, Deliveries, Positives, DeliveredTo;
    var k := VisitDelivers(result, keys, p);
    var q := Visit(result, keys, p);
    DeliveredWhole(keys[p.at], p.queues[p.at][..k], keys[i]);
    if i == p.at {
      assert p.queues[i][..k] + p.queues[i][k..] == p.queues[i];
    } else {
      assert keys[i] != keys[p.at];
      assert [] + p.queues[i] == p.queues[i];
    }
    hide Visit, Since;
  }

  /** A visit hands over the first k frames of the queue it serves. */
  lemma VisitDelivers(result: Results, keys: seq<Item>, p: Pass) returns (k: nat)
    requires |p.queues| == |keys| && 0 <= p.at < |keys|
    ensures var q := Visit(result, keys, p);
            && |p.log| <= |q.log| && k <= |p.queues[p.at]|
            && q.queues == p.queues[p.at := p.queues[p.at][k..]]
            && Since(p, q) == Deliveries(keys[p.at], p.queues[p.at][..k])
  {
    hide Serve, Deliveries, Positives;
    ServeMeaning(result, keys[p.at], p.score, p.queues[p.at], p.log);
    k := |p.queues[p.at]| - |Visit(result, keys, p).queues[p.at]|;
  }

  lemma ConservesTrans(result: Results, keys: seq<Item>, p: Pass, q: Pass, r: Pass)
    requires Conserves(result, keys, p, q) && Conserves(result, keys, q, r)
    ensures Conserves(result, keys, p, r)
  {
    hide DeliveredTo;
    assert r.log[..|p.log|] == r.log[..|q.log|][..|p.log|];
    PositivesSplit(result, |p.log|, |q.log|, |r.log|);
    assert Since(p, r) == Since(p, q) + Since(q, r);
    forall i | 0 <= i < |keys| ensures Kept(keys, p, r, i) {
      assert Kept(keys, p, q, i) && Kept(keys, q, r, i);
      DeliveredSplit(Since(p, q), Since(q, r), keys[i]);
    }
  }

  lemma ConservesSelf(result: Results, keys: seq<Item>, p: Pass)
    requires |p.queues| == |keys|
    ensures Conserves(result, keys, p, p)
  {
    assert Since(p, p) == [];
    forall i | 0 <= i < |keys| ensures Kept(keys, p, p, i) {
      assert DeliveredTo([], keys[i]) + p.queues[i] == p.queues[i];
    }
  }

  lemma {:induction false} PassConserves(result: Results, keys: seq<Item>, p: Pass, left: nat)
    requires |p.queues| == |keys| && 0 <= p.at < |keys| && Distinct(keys)
    ensures Conserves(result, keys, p, RunPass(result, keys, p, left))
    decreases left
  {
    hide Conserves, Visit;
    if left == 0 || p.score <= 1 {
      ConservesSelf(result, keys, p);
    } else {
      var q := Visit(result, keys, p);
      VisitStays(result, keys, p);
      VisitConserves(result, keys, p);
      PassConserves(result, keys, q, left - 1);
      ConservesTrans(result, keys, p, q, RunPass(result, keys, q, left - 1));
    }
  }

  lemma VisitStays(result: Results, keys: seq<Item>, p: Pass)
    requires |p.queues| == |keys| && 0 <= p.at < |keys|
    ensures var q := Visit(result, keys, p);
            && |q.queues| == |keys| && q.at == Next(|keys|, p.at) && 0 <= q.at < |keys|
            && q.visited == p.visited + [p.at] && q.score <= p.score && (p.score >= 0 ==> q.score >= 0)
            && (q.score <= 0 || q.queues[p.at] == [])
            && forall i :: 0 <= i < |keys| && i != p.at ==> q.queues[i] == p.queues[i]
  {
    ServeMeaning(result, keys[p.at], p.score, p.queues[p.at], p.log);
  }

  /** Score, frames and order are conserved over a call, and the score never becomes negative. */
  lemma RoundConserves(result: Results, keys: seq<Item>, at: int, score: int, queues: seq<seq<Frame>>, log: seq<Delivery>)
    requires |queues| == |keys| && 0 <= at < |keys| && Distinct(keys)
    ensures var p, r := Pass(at, score, queues, log, []), Round(result, keys, at, score, queues, log);
            Conserves(result, keys, p, r) && (score >= 0 ==> r.score >= 0)
  {
    PassConserves(result, keys, Pass(at, score, queues, log, []), |keys|);
    if score >= 0 { NeverNegative(result, keys, Pass(at, score, queues, log, []), |keys|); }
  }

  /** Beyond the deliveries up to cut, which left more than one point, only one protocol was served. */
  ghost predicate FundedAt(result: Results, keys: seq<Item>, p: Pass, r: Pass, cut: int) {
    && |p.log| <= cut <= |r.log| && p.score - Positives(result, |p.log|, cut) > 1
    && r.visited != [] && 0 <= r.visited[|r.visited| - 1] < |keys|
    && forall j :: cut <= j < |r.log| ==> r.log[j].to == keys[r.visited[|r.visited| - 1]]
  }

  /** Also the last protocol a call visits was reached with more than one point left. */
  lemma RoundFunded(result: Results, keys: seq<Item>, at: int, score: int, queues: seq<seq<Frame>>, log: seq<Delivery>)
    requires |queues| == |keys| && 0 <= at < |keys|
    ensures var p, r := Pass(at, score, queues, log, []), Round(result, keys, at, score, queues, log);
            r.visited != [] ==> exists cut :: FundedAt(result, keys, p, r, cut)
  {
    if score > 1 {
      var cut := PassFunded(result, keys, Pass(at, score, queues, log, []), |keys|);
    }
  }

  lemma {:induction false} PassFunded(result: Results, keys: seq<Item>, p: Pass, left: nat) returns (cut: int)
    requires |p.queues| == |keys| && 0 <= p.at < |keys| && p.score > 1 && left > 0
    ensures FundedAt(result, keys, p, RunPass(result, keys, p, left), cut)
    decreases left
  {
    hide Visit, Deliveries, Positives;
    var q := Visit(result, keys, p);
    VisitStays(result, keys, p);
    VisitScores(result, keys, p);
    if left > 1 && q.score > 1 {
      cut := PassFunded(result, keys, q, left - 1);
      PositivesSplit(result, |p.log|, |q.log|, cut);
    } else {
      cut := |p.log|;
      assert Positives(result, cut, cut) == 0 by { NoPositives(result, cut); }
      assert RunPass(result, keys, p, left) == q;
    }
  }

  lemma NoPositives(result: Results, k: nat)
    ensures Positives(result, k, k) == 0
  {}

  lemma VisitScores(result: Results, keys: seq<Item>, p: Pass)
    requires |p.queues| == |keys| && 0 <= p.at < |keys|
    ensures var q := Visit(result, keys, p);
            && |p.log| <= |q.log| && q.score == p.score - Positives(result, |p.log|, |q.log|)
            && forall j :: |p.log| <= j < |q.log| ==> q.log[j].to == keys[p.at]
  {
    hide Serve, Positives;
    ServeMeaning(result, keys[p.at], p.score, p.queues[p.at], p.log);
  }

  lemma {:induction false} NeverNegative(result: Results, keys: seq<Item>, p: Pass, left: nat)
    requires |p.queues| == |keys| && 0 <= p.at < |keys| && p.score >= 0
    ensures RunPass(result, keys, p, left).score >= 0
    decreases left
  {
    if left > 0 && p.score > 1 {
      hide Visit;
      VisitStays(result, keys, p);
      NeverNegative(result, keys, Visit(result, keys, p), left - 1);
    }
  }

  /** Where more than one point is left, every protocol was visited and every queue is empty. */
  lemma ScoreLeftMeansEmpty(result: Results, keys: seq<Item>, at: int, score: int, queues: seq<seq<Frame>>, log: seq<Delivery>)
    requires |queues| == |keys| && 0 <= at < |keys|
    requires Round(result, keys, at, score, queues, log).score > 1
    ensures var r := Round(result, keys, at, score, queues, log);
            |r.visited| == |keys| == |r.queues| && forall i :: 0 <= i < |keys| ==> r.queues[i] == []
  {
    var n := |keys|;
    var p := Pass(at, score, queues, log, []);
    EmptiesVisited(result, keys, p, n);
    RoundVisits(result, keys, at, score, queues, log);
    forall i | 0 <= i < n ensures Round(result, keys, at, score, queues, log).queues[i] == [] {
      var k := if i >= at then i - at else i - at + n;
      AdvanceMeaning(n, at, k);
      CyclicAt(n, at, n, k);
      assert Cyclic(n, at, n)[k] == i;
    }
  }

  lemma {:induction false} EmptiesVisited(result: Results, keys: seq<Item>, p: Pass, left: nat)
    requires |p.queues| == |keys| && 0 <= p.at < |keys| && RunPass(result, keys, p, left).score > 1
    requires forall j :: 0 <= j < |p.visited| ==> 0 <= p.visited[j] < |keys| && p.queues[p.visited[j]] == []
    ensures var r := RunPass(result, keys, p, left);
            && |r.queues| == |keys| && |r.visited| == |p.visited| + left
            && forall j :: 0 <= j < |r.visited| ==> 0 <= r.visited[j] < |keys| && r.queues[r.visited[j]] == []
    decreases left
  {
    if left > 0 && p.score > 1 {
      hide Visit;
      VisitStays(result, keys, p);
      var q := Visit(result, keys, p);
      ScoreFalls(result, keys, q, left - 1);
      EmptiesVisited(result, keys, q, left - 1);
    }
  }

  lemma {:induction false} ScoreFalls(result: Results, keys: seq<Item>, p: Pass, left: nat)
    requires |p.queues| == |keys| && 0 <= p.at < |keys|
    ensures RunPass(result, keys, p, left).score <= p.score
    decreases left
  {
    if left > 0 && p.score > 1 {
      hide Visit;
      VisitStays(result, keys, p);
      ScoreFalls(result, keys, Visit(result, keys, p), left - 1);
    }
  }
}
