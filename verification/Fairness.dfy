/** Runs of scheduler calls in both directions: the cursors chain the calls into one endless round. */
module Fairness {
  import opened Nodes
  import opened Scheduling

  // ---------- counting visits ----------

  ghost function Count(s: seq<int>, p: int): nat {
    if s == [] then 0 else (if s[0] == p then 1 else 0) + Count(s[1..], p)
  }

  /** How many steps lead from c to p. */
  ghost function Distance(n: nat, c: int, p: int): int { if p >= c then p - c else p - c + n }

  /** How often a position d steps ahead is met in m steps around n. */
  ghost function Meetings(n: nat, d: int, m: int): nat
    requires n > 0 && d >= 0
    decreases if m < 0 then 0 else m
  {
    if m <= d then 0 else 1 + Meetings(n, d, m - n)
  }

  lemma {:induction false} Shifted(n: nat, d: nat, k: nat, m: int)
    requires n > 0
    ensures Meetings(n, d, m) == Meetings(n, d + k, m + k)
    decreases if m < 0 then 0 else m
  {
    if m > d { Shifted(n, d, k, m - n); }
  }

  lemma {:induction false} CountCyclic(n: nat, c: int, m: nat, p: int)
    requires 0 <= c < n && 0 <= p < n
    ensures Count(Cyclic(n, c, m), p) == Meetings(n, Distance(n, c, p), m)
    decreases m
  {
    if m > 0 {
      var s := Cyclic(n, c, m);
      assert s[0] == c && s[1..] == Cyclic(n, Next(n, c), m - 1);
      CountCyclic(n, Next(n, c), m - 1, p);
      if p == c { Shifted(n, 0, n - 1, m - n); }
      else { Shifted(n, Distance(n, c, p) - 1, 1, m - 1); }
    }
  }

  /** Two positions, however far ahead, are met equally often or one once more than the other. */
  lemma {:induction false} MeetingsClose(n: nat, d: int, e: int, m: int)
    requires 0 <= d < n && 0 <= e < n
    ensures Meetings(n, d, m) <= Meetings(n, e, m) + 1
    decreases if m < 0 then 0 else m
  {
    if m > d && m > e { MeetingsClose(n, d, e, m - n); }
  }

  /** One round meets every position exactly once, wherever it starts. */
  lemma OneRound(n: nat, c: int, p: int)
    requires 0 <= c < n && 0 <= p < n
    ensures Count(Cyclic(n, c, n), p) == 1
  {
    CountCyclic(n, c, n, p);
    assert Meetings(n, Distance(n, c, p), 0) == 0;
  }

  lemma {:induction false} AdvanceStays(n: nat, c: int, m: nat)
    requires 0 <= c < n
    ensures 0 <= Advance(n, c, m) < n
    decreases m
  {
    if m > 0 { AdvanceStays(n, Next(n, c), m - 1); }
  }

  /** Any n consecutive elements of the repetition are one round. */
  lemma Window(n: nat, c: int, m: nat, i: nat)
    requires 0 <= c < n && i + n <= m
    ensures 0 <= Advance(n, c, i) < n && Cyclic(n, c, m)[i..i + n] == Cyclic(n, Advance(n, c, i), n)
  {
    AdvanceStays(n, c, i);
    CyclicSplit(n, c, i, m - i);
    CyclicSplit(n, Advance(n, c, i), n, m - i - n);
    assert n + (m - i - n) == m - i && i + (m - i) == m;
  }

  // ---------- runs ----------

  /** A cursor not yet used is unset. */
  datatype Cursor = Unset | At(position: int)

  datatype Cursors = Cursors(nodeIn: Cursor, nodeOut: Cursor)

  /** One call of the loop: budget, direction, and whatever the queues, the log and the handlers are at that time. */
  datatype LoopCall = LoopCall(direction: int, score: int, queues: seq<seq<Frame>>, log: seq<Delivery>, result: Results)

  ghost predicate CursorOk(n: nat, c: Cursor) { c.At? ==> 0 <= c.position < n }

  ghost predicate CursorsOk(n: nat, cs: Cursors) { n > 0 && CursorOk(n, cs.nodeIn) && CursorOk(n, cs.nodeOut) }

  /** The position a cursor stands for: an unset one is set to the first node. */
  ghost function PositionOf(c: Cursor): int { if c.At? then c.position else 0 }

  /** The cursor of one direction; every direction but LOOP_DIR_IN has the same one. */
  ghost function CursorFor(cs: Cursors, incoming: bool): Cursor { if incoming then cs.nodeIn else cs.nodeOut }

  ghost predicate CallOk(n: nat, call: LoopCall) { |call.queues| == n }

  ghost predicate CallsOk(n: nat, calls: seq<LoopCall>) { forall i :: 0 <= i < |calls| ==> CallOk(n, calls[i]) }

  ghost function RoundOf(keys: seq<Item>, cs: Cursors, call: LoopCall): Pass
    requires CursorsOk(|keys|, cs) && CallOk(|keys|, call)
  {
    Round(call.result, keys, PositionOf(CursorFor(cs, call.direction == LOOP_DIR_IN)), call.score, call.queues, call.log)
  }

  /** Both cursors end up set; the one of the call's direction moves behind the last visited protocol. */
  ghost function CursorsAfter(keys: seq<Item>, cs: Cursors, call: LoopCall): Cursors
    requires CursorsOk(|keys|, cs) && CallOk(|keys|, call)
  {
    var at := RoundOf(keys, cs, call).at;
    if call.direction == LOOP_DIR_IN then Cursors(At(at), At(PositionOf(cs.nodeOut)))
    else Cursors(At(PositionOf(cs.nodeIn)), At(at))
  }

  lemma CursorsStayOk(keys: seq<Item>, cs: Cursors, call: LoopCall)
    requires CursorsOk(|keys|, cs) && CallOk(|keys|, call)
    ensures CursorsOk(|keys|, CursorsAfter(keys, cs, call))
  {
    RoundVisits(call.result, keys, PositionOf(CursorFor(cs, call.direction == LOOP_DIR_IN)), call.score, call.queues, call.log);
  }

  /** The positions visited by the calls of one direction, one after another. */
  ghost function Visits(keys: seq<Item>, cs: Cursors, calls: seq<LoopCall>, incoming: bool): seq<int>
    requires CursorsOk(|keys|, cs) && CallsOk(|keys|, calls)
    decreases |calls|
  {
    if calls == [] then []
    else
      CursorsStayOk(keys, cs, calls[0]);
      (if (calls[0].direction == LOOP_DIR_IN) == incoming then RoundOf(keys, cs, calls[0]).visited else [])
      + Visits(keys, CursorsAfter(keys, cs, calls[0]), calls[1..], incoming)
  }

  /**
   Whatever the budgets, the queues, the handlers, and the calls in the other direction: what a direction visits
   over a run is the beginning of the endless cyclic repetition of the in-order sequence, from its first cursor.
   */
  lemma {:induction false} RunIsCyclic(keys: seq<Item>, cs: Cursors, calls: seq<LoopCall>, incoming: bool)
    requires CursorsOk(|keys|, cs) && CallsOk(|keys|, calls)
    ensures var v := Visits(keys, cs, calls, incoming); v == Cyclic(|keys|, PositionOf(CursorFor(cs, incoming)), |v|)
    decreases |calls|
  {
    if calls != [] {
      var call, n, start := calls[0], |keys|, PositionOf(CursorFor(cs, incoming));
      CursorsStayOk(keys, cs, call);
      var next := CursorsAfter(keys, cs, call);
      RunIsCyclic(keys, next, calls[1..], incoming);
      var later := Visits(keys, next, calls[1..], incoming);
      if (call.direction == LOOP_DIR_IN) == incoming {
        RoundVisits(call.result, keys, start, call.score, call.queues, call.log);
        var now := RoundOf(keys, cs, call).visited;
        CyclicSplit(n, start, |now|, |later|);
      } else {
        assert [] + later == later;
      }
    }
  }

  /** So over any run no protocol is visited more than once more often than another. */
  lemma RunIsFair(keys: seq<Item>, cs: Cursors, calls: seq<LoopCall>, incoming: bool, p: int, q: int)
    requires CursorsOk(|keys|, cs) && CallsOk(|keys|, calls)
    requires 0 <= p < |keys| && 0 <= q < |keys|
    ensures var v := Visits(keys, cs, calls, incoming); Count(v, p) <= Count(v, q) + 1
  {
    var v, n, start := Visits(keys, cs, calls, incoming), |keys|, PositionOf(CursorFor(cs, incoming));
    RunIsCyclic(keys, cs, calls, incoming);
    CountCyclic(n, start, |v|, p);
    CountCyclic(n, start, |v|, q);
    MeetingsClose(n, Distance(n, start, p), Distance(n, start, q), |v|);
  }

  /** And any n consecutive visits are exactly one to each protocol, so none starves. */
  lemma NoneStarves(keys: seq<Item>, cs: Cursors, calls: seq<LoopCall>, incoming: bool, p: int, i: nat)
    requires CursorsOk(|keys|, cs) && CallsOk(|keys|, calls)
    requires 0 <= p < |keys| && i + |keys| <= |Visits(keys, cs, calls, incoming)|
    ensures Count(Visits(keys, cs, calls, incoming)[i..i + |keys|], p) == 1
  {
    var v, start := Visits(keys, cs, calls, incoming), PositionOf(CursorFor(cs, incoming));
    RunIsCyclic(keys, cs, calls, incoming);
    Window(|keys|, start, |v|, i);
    OneRound(|keys|, Advance(|keys|, start, i), p);
  }

  /** Calls in the other direction, with whatever budgets, change nothing in what a direction visits. */
  lemma {:induction false} OtherDirectionInvisible(keys: seq<Item>, cs: Cursors, calls: seq<LoopCall>, incoming: bool)
    requires CursorsOk(|keys|, cs) && CallsOk(|keys|, calls)
    requires forall i :: 0 <= i < |calls| ==> (calls[i].direction == LOOP_DIR_IN) != incoming
    ensures Visits(keys, cs, calls, incoming) == []
    ensures var after := CursorsAfterAll(keys, cs, calls);
            CursorsOk(|keys|, after) && PositionOf(CursorFor(after, incoming)) == PositionOf(CursorFor(cs, incoming))
    decreases |calls|
  {
    if calls != [] {
      CursorsStayOk(keys, cs, calls[0]);
      OtherDirectionInvisible(keys, CursorsAfter(keys, cs, calls[0]), calls[1..], incoming);
    }
  }

  ghost function CursorsAfterAll(keys: seq<Item>, cs: Cursors, calls: seq<LoopCall>): Cursors
    requires CursorsOk(|keys|, cs) && CallsOk(|keys|, calls)
    decreases |calls|
  {
    if calls == [] then cs
    else
      CursorsStayOk(keys, cs, calls[0]);
      CursorsAfterAll(keys, CursorsAfter(keys, cs, calls[0]), calls[1..])
  }

  /** The round that the i-th call of a run is. */
  ghost function RoundAt(keys: seq<Item>, cs: Cursors, calls: seq<LoopCall>, i: nat): Pass
    requires CursorsOk(|keys|, cs) && CallsOk(|keys|, calls) && i < |calls|
  {
    OneCallMore(keys, cs, calls[..i], calls[i], true);
    RoundOf(keys, CursorsAfterAll(keys, cs, calls[..i]), calls[i])
  }

  /** Each call scored what its round does, and found the log as the call before left it, starting from log. */
  ghost predicate Told(keys: seq<Item>, cs: Cursors, calls: seq<LoopCall>, scores: seq<int>, log: seq<Delivery>, now: seq<Delivery>)
    requires CursorsOk(|keys|, cs) && CallsOk(|keys|, calls)
  {
    && |scores| == |calls|
    && (forall i :: 0 <= i < |calls| ==> scores[i] == RoundAt(keys, cs, calls, i).score)
    && (forall i :: 0 <= i < |calls| ==> calls[i].log == if i == 0 then log else RoundAt(keys, cs, calls, i - 1).log)
    && now == if calls == [] then log else RoundAt(keys, cs, calls, |calls| - 1).log
  }

  lemma ToldMore(keys: seq<Item>, cs: Cursors, calls: seq<LoopCall>, call: LoopCall, scores: seq<int>, log: seq<Delivery>)
    requires CursorsOk(|keys|, cs) && CallsOk(|keys|, calls) && CallOk(|keys|, call)
    requires Told(keys, cs, calls, scores, log, call.log)
    ensures CallsOk(|keys|, calls + [call]) && CursorsOk(|keys|, CursorsAfterAll(keys, cs, calls))
    ensures var r := RoundOf(keys, CursorsAfterAll(keys, cs, calls), call);
            Told(keys, cs, calls + [call], scores + [r.score], log, r.log)
  {
    hide RoundOf, CursorsAfterAll, RoundAt, CursorsOk;
    OneCallMore(keys, cs, calls, call, true);
    RoundsStay(keys, cs, calls, call);
  }

  /** The rounds of a run stay what they are when a call is added, which is a round from the cursors reached. */
  lemma RoundsStay(keys: seq<Item>, cs: Cursors, calls: seq<LoopCall>, call: LoopCall)
    requires CursorsOk(|keys|, cs) && CallsOk(|keys|, calls) && CallsOk(|keys|, calls + [call])
    requires CursorsOk(|keys|, CursorsAfterAll(keys, cs, calls)) && CallOk(|keys|, call)
    ensures forall i :: 0 <= i < |calls| ==> RoundAt(keys, cs, calls + [call], i) == RoundAt(keys, cs, calls, i)
    ensures RoundAt(keys, cs, calls + [call], |calls|) == RoundOf(keys, CursorsAfterAll(keys, cs, calls), call)
  {
    hide RoundOf, CursorsAfterAll, CursorsOk;
    var more := calls + [call];
    assert more[..|calls|] == calls;
    forall i | 0 <= i < |calls| ensures RoundAt(keys, cs, more, i) == RoundAt(keys, cs, calls, i) {
      assert more[..i] == calls[..i];
    }
  }

  /** The cursors and the visits of a run that is one call longer. */
  lemma {:induction false} OneCallMore(keys: seq<Item>, cs: Cursors, calls: seq<LoopCall>, call: LoopCall, incoming: bool)
    requires CursorsOk(|keys|, cs) && CallsOk(|keys|, calls) && CallOk(|keys|, call)
    ensures CallsOk(|keys|, calls + [call]) && CursorsOk(|keys|, CursorsAfterAll(keys, cs, calls))
    ensures CursorsAfterAll(keys, cs, calls + [call]) == CursorsAfter(keys, CursorsAfterAll(keys, cs, calls), call)
    ensures Visits(keys, cs, calls + [call], incoming)
            == Visits(keys, cs, calls, incoming)
               + if (call.direction == LOOP_DIR_IN) == incoming
                 then RoundOf(keys, CursorsAfterAll(keys, cs, calls), call).visited else []
    decreases |calls|
  {
    var more := calls + [call];
    if calls == [] {
      CursorsStayOk(keys, cs, call);
      assert more == [call] && more[1..] == [];
      assert CursorsAfterAll(keys, CursorsAfter(keys, cs, call), []) == CursorsAfter(keys, cs, call);
      assert Visits(keys, CursorsAfter(keys, cs, call), [], incoming) == [];
    } else {
      CursorsStayOk(keys, cs, calls[0]);
      assert more[0] == calls[0] && more[1..] == calls[1..] + [call];
      OneCallMore(keys, CursorsAfter(keys, cs, calls[0]), calls[1..], call, incoming);
      assert CallsOk(|keys|, calls + [call]);
    }
  }
}
