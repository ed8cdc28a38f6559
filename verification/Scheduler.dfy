/** The round-robin scheduler on the real queues, cursors and tree links. */
module Schedulers {
  import opened Nodes
  import opened Shapes
  import opened Traversal
  import opened RBtrees
  import opened Scheduling
  import opened Fairness

  /** A queue of frames, first in, first out. */
  class SkBuffHead {
    var frames: seq<Frame>

    constructor ()
      ensures frames == []
    {
      frames := [];
    }

    method SkbQueueEmpty() returns (empty: bool)
      ensures empty <==> frames == []
    {
      empty := frames == [];
    }

    /** Without a frame there is none to return. */
    method SkbDeQueue() returns (found: bool, frame: Frame)
      modifies this
      ensures found <==> old(frames) != []
      ensures found ==> frame == old(frames[0]) && frames == old(frames[1..])
      ensures !found ==> frames == old(frames)
    {
      if frames == [] { return false, 0; }
      found, frame := true, frames[0];
      frames := frames[1..];
    }

    method SkbQueueTail(frame: Frame)
      modifies this
      ensures frames == old(frames) + [frame]
    {
      frames := frames + [frame];
    }
  }

  /** A protocol, known to the tree by its reference Id. Either queue may be nil. */
  class ZBProtocol {
    const Id: Item
    var QueueIn: SkBuffHead?
    var QueueOut: SkBuffHead?

    constructor (id: Item, queueIn: SkBuffHead?, queueOut: SkBuffHead?)
      ensures Id == id && QueueIn == queueIn && QueueOut == queueOut
    {
      Id, QueueIn, QueueOut := id, queueIn, queueOut;
    }
  }

  /** The handlers of all protocols: what their calls return, in order, and what they were given so far. */
  class Handlers {
    const result: Results
    var log: seq<Delivery>

    constructor (results: Results)
      ensures result == results && log == []
    {
      result, log := results, [];
    }

    method Process(proto: ZBProtocol, frame: Frame) returns (r: int)
      modifies this
      ensures r == result(|old(log)|) && log == old(log) + [Delivery(proto.Id, frame)]
    {
      r := result(|log|);
      log := log + [Delivery(proto.Id, frame)];
    }
  }

  ghost function HeadSet(head: SkBuffHead?): set<SkBuffHead> { if head == null then {} else {head} }

  ghost function FramesOf(head: SkBuffHead?): seq<Frame>
    reads HeadSet(head)
  {
    if head == null then [] else head.frames
  }

  method protoLoopIn(proto: ZBProtocol, score: int, handlers: Handlers) returns (loopScore: int)
    modifies handlers, HeadSet(proto.QueueIn)
    ensures Serve(handlers.result, proto.Id, score, old(FramesOf(proto.QueueIn)), old(handlers.log))
            == Served(loopScore, FramesOf(proto.QueueIn), handlers.log)
  {
    loopScore := score;
    ghost var goal := Serve(handlers.result, proto.Id, score, FramesOf(proto.QueueIn), handlers.log);
    while loopScore > 0
      invariant Serve(handlers.result, proto.Id, loopScore, FramesOf(proto.QueueIn), handlers.log) == goal
      decreases |FramesOf(proto.QueueIn)|
    {
      if proto.QueueIn == null { break; }
      var empty := proto.QueueIn.SkbQueueEmpty();
      if empty { break; }
      var found, frame := proto.QueueIn.SkbDeQueue();
      if found {
        var r := handlers.Process(proto, frame);
        if r > 0 {
          loopScore := loopScore - 1;
        }
      }
    }
  }

  method protoLoopOut(proto: ZBProtocol, score: int, handlers: Handlers) returns (loopScore: int)
    modifies handlers, HeadSet(proto.QueueOut)
    ensures Serve(handlers.result, proto.Id, score, old(FramesOf(proto.QueueOut)), old(handlers.log))
            == Served(loopScore, FramesOf(proto.QueueOut), handlers.log)
  {
    loopScore := score;
    ghost var goal := Serve(handlers.result, proto.Id, score, FramesOf(proto.QueueOut), handlers.log);
    while loopScore > 0
      invariant Serve(handlers.result, proto.Id, loopScore, FramesOf(proto.QueueOut), handlers.log) == goal
      decreases |FramesOf(proto.QueueOut)|
    {
      if proto.QueueOut == null { break; }
      var empty := proto.QueueOut.SkbQueueEmpty();
      if empty { break; }
      var found, frame := proto.QueueOut.SkbDeQueue();
      if found {
        var r := handlers.Process(proto, frame);
        if r > 0 {
          loopScore := loopScore - 1;
        }
      }
    }
  }

  /** The queue a direction serves; a direction that is neither of the two serves none. */
  ghost function HeadFor(proto: ZBProtocol, direction: int): SkBuffHead?
    reads proto
  {
    if direction == LOOP_DIR_IN then proto.QueueIn else if direction == LOOP_DIR_OUT then proto.QueueOut else null
  }

  method protoLoop(proto: ZBProtocol, score: int, direction: int, handlers: Handlers) returns (loopScore: int)
    modifies handlers, HeadSet(HeadFor(proto, direction))
    ensures Serve(handlers.result, proto.Id, score, old(FramesOf(HeadFor(proto, direction))), old(handlers.log))
            == Served(loopScore, FramesOf(HeadFor(proto, direction)), handlers.log)
    ensures direction == 1 ==>
              && Serve(handlers.result, proto.Id, score, old(FramesOf(proto.QueueIn)), old(handlers.log))
                 == Served(loopScore, FramesOf(proto.QueueIn), handlers.log)
              && (proto.QueueIn != proto.QueueOut ==> FramesOf(proto.QueueOut) == old(FramesOf(proto.QueueOut)))
    ensures direction == 2 ==>
              && Serve(handlers.result, proto.Id, score, old(FramesOf(proto.QueueOut)), old(handlers.log))
                 == Served(loopScore, FramesOf(proto.QueueOut), handlers.log)
              && (proto.QueueIn != proto.QueueOut ==> FramesOf(proto.QueueIn) == old(FramesOf(proto.QueueIn)))
    ensures direction != 1 && direction != 2 ==>
              && loopScore == score && handlers.log == old(handlers.log)
              && FramesOf(proto.QueueIn) == old(FramesOf(proto.QueueIn)) && FramesOf(proto.QueueOut) == old(FramesOf(proto.QueueOut))
  {
    loopScore := score;
    if direction == LOOP_DIR_IN {
      loopScore := protoLoopIn(proto, score, handlers);
    } else if direction == LOOP_DIR_OUT {
      loopScore := protoLoopOut(proto, score, handlers);
    }
  }

  /** The protocols a tree's items refer to. */
  type Table = map<Item, ZBProtocol>

  ghost function Heads(protos: Table, direction: int): set<SkBuffHead>
    reads protos.Values
  {
    set k | k in protos && HeadFor(protos[k], direction) != null :: HeadFor(protos[k], direction)
  }

  /** The queues of a direction, in the order of keys. */
  ghost function QueuesOf(keys: seq<Item>, protos: Table, direction: int): (qs: seq<seq<Frame>>)
    requires forall k :: k in keys ==> k in protos
    reads protos.Values, Heads(protos, direction)
    ensures |qs| == |keys| && forall i :: 0 <= i < |keys| ==> qs[i] == FramesOf(HeadFor(protos[keys[i]], direction))
  {
    if keys == [] then []
    else
      assert keys[0] in keys && forall k :: k in keys[1..] ==> k in keys;
      [FramesOf(HeadFor(protos[keys[0]], direction))] + QueuesOf(keys[1..], protos, direction)
  }

  /** Direction 1 stands for the incoming queues, 2 for the outgoing ones, and any other number for none. */
  lemma QueuesMeaning(keys: seq<Item>, protos: Table, direction: int)
    requires forall k :: k in keys ==> k in protos
    ensures var qs := QueuesOf(keys, protos, direction);
            && |qs| == |keys|
            && forall i :: 0 <= i < |keys| ==>
                 && keys[i] in protos
                 && (direction == 1 ==> qs[i] == FramesOf(protos[keys[i]].QueueIn))
                 && (direction == 2 ==> qs[i] == FramesOf(protos[keys[i]].QueueOut))
                 && (direction != 1 && direction != 2 ==> qs[i] == [])
  {
    hide QueuesOf;
  }

  /** No two protocols share a queue of the direction. */
  ghost predicate SeparateQueues(protos: Table, direction: int)
    reads protos.Values
  {
    forall j, k :: j in protos && k in protos && j != k && HeadFor(protos[j], direction) != null ==>
                     HeadFor(protos[j], direction) != HeadFor(protos[k], direction)
  }

  /** Serving the i-th protocol changes its queue and no other. */
  method ServeAt(proto: ZBProtocol, score: int, direction: int, handlers: Handlers, ghost keys: seq<Item>, ghost i: nat, ghost protos: Table) returns (loopScore: int)
    requires i < |keys| && Distinct(keys) && (forall k :: k in keys ==> k in protos) && SeparateQueues(protos, direction)
    requires proto == protos[keys[i]] && proto.Id == keys[i]
    modifies handlers, Heads(protos, direction)
    ensures var s := Serve(handlers.result, keys[i], score, old(QueuesOf(keys, protos, direction))[i], old(handlers.log));
            && loopScore == s.score && handlers.log == s.log
            && QueuesOf(keys, protos, direction) == old(QueuesOf(keys, protos, direction))[i := s.left]
  {
    hide Serve, HeadFor, QueuesOf, SeparateQueues, Distinct;
    HeadIn(protos, keys[i], direction);
    OthersApart(keys, i, protos, direction);
    loopScore := protoLoop(proto, score, direction, handlers);
    forall j | 0 <= j < |keys| && j != i
      ensures old(FramesOf(HeadFor(protos[keys[j]], direction))) == FramesOf(HeadFor(protos[keys[j]], direction))
    {
      var head := old(HeadFor(protos[keys[j]], direction));
      assert head == HeadFor(protos[keys[j]], direction);
      assert head !in old(HeadSet(HeadFor(proto, direction)));
      assert head != null ==> old(allocated(head)) && head.frames == old(head.frames);
    }
  }

  lemma OthersApart(keys: seq<Item>, i: nat, protos: Table, direction: int)
    requires i < |keys| && Distinct(keys) && (forall k :: k in keys ==> k in protos) && SeparateQueues(protos, direction)
    ensures forall j :: 0 <= j < |keys| && j != i ==>
              keys[j] in protos && HeadFor(protos[keys[j]], direction) !in HeadSet(HeadFor(protos[keys[i]], direction))
  {}

  lemma HeadIn(protos: Table, k: Item, direction: int)
    requires k in protos
    ensures HeadSet(HeadFor(protos[k], direction)) <= Heads(protos, direction)
  {}

  class ZBProtoRR {
    var rbtree: RBtree
    var nodeIn: Node?
    var nodeOut: Node?

    constructor (tree: RBtree)
      ensures rbtree == tree && nodeIn == null && nodeOut == null
    {
      rbtree, nodeIn, nodeOut := tree, null, null;
    }

    /** A non-empty, well-linked tree of distinct protocols. */
    ghost predicate TreeReady(protos: Table)
      reads this`rbtree, rbtree, rbtree.LEAF, rbtree.g.cell.Keys, (set n | n in rbtree.g.order)`keyValue
    {
      && rbtree.Matches() && Linked(rbtree.g) && rbtree.g.order != []
      && Distinct(Keys()) && (forall k :: k in Keys() ==> k in protos)
      && (forall k :: k in protos ==> k != Nil && protos[k].Id == k)
    }

    /** And cursors that are unset or nodes of it. */
    ghost predicate Ready(protos: Table)
      reads this, rbtree, rbtree.LEAF, rbtree.g.cell.Keys, (set n | n in rbtree.g.order)`keyValue
    {
      TreeReady(protos) && (nodeIn != null ==> nodeIn in rbtree.g.cell) && (nodeOut != null ==> nodeOut in rbtree.g.cell)
    }

    ghost function Keys(): (keys: seq<Item>)
      reads this`rbtree, rbtree, (set n | n in rbtree.g.order)`keyValue
      ensures |keys| == |rbtree.g.order|
    {
      KeysOf(rbtree.g.order)
    }

    ghost function CursorAt(node: Node?): Cursor
      requires node != null ==> node in rbtree.g.cell
      reads this`rbtree, rbtree
    {
      if node == null then Unset else At(rbtree.g.cell[node].pos)
    }

    ghost function Position(): Cursors
      requires nodeIn != null ==> nodeIn in rbtree.g.cell
      requires nodeOut != null ==> nodeOut in rbtree.g.cell
      reads this, rbtree
    {
      Cursors(CursorAt(nodeIn), CursorAt(nodeOut))
    }

    /** The call that is about to run. */
    ghost function CallNow(protos: Table, score: int, direction: int, handlers: Handlers): LoopCall
      requires Ready(protos)
      reads this, rbtree, rbtree.LEAF, rbtree.g.cell.Keys, (set n | n in rbtree.g.order)`keyValue
      reads protos.Values, Heads(protos, direction), handlers
    {
      LoopCall(direction, score, QueuesOf(Keys(), protos, direction), handlers.log, handlers.result)
    }

    lemma ReadyMeaning(protos: Table)
      requires Ready(protos)
      ensures rbtree.Matches() && Recorded(rbtree.g, rbtree.LEAF) && Linked(rbtree.g) && rbtree.root in rbtree.g.cell
      ensures rbtree.g.cell[rbtree.root].lo == 0 && |rbtree.g.order| > 0 && rbtree.g.order[0] in rbtree.g.cell
      ensures rbtree.g.cell[rbtree.g.order[0]].pos == 0 && rbtree.LEAF !in rbtree.g.cell && rbtree.LEAF == rbtree.g.leaf
      ensures nodeIn != null ==> nodeIn in rbtree.g.cell
      ensures nodeOut != null ==> nodeOut in rbtree.g.cell
      ensures CursorsOk(|Keys()|, Position())
    {}

    /** TreeFirstNode of the tree's root. */
    method FirstNode(ghost protos: Table) returns (node: Node)
      requires TreeReady(protos)
      ensures rbtree.g.order != [] && node == rbtree.g.order[0] && node in rbtree.g.cell && rbtree.g.cell[node].pos == 0
    {
      assert rbtree.root in rbtree.g.cell && rbtree.g.cell[rbtree.root].lo == 0;
      node := TreeFirstNode(rbtree.root, rbtree.LEAF, rbtree.g);
    }

    lemma ReadyParts(protos: Table)
      ensures Ready(protos) <==>
              TreeReady(protos) && (nodeIn != null ==> nodeIn in rbtree.g.cell) && (nodeOut != null ==> nodeOut in rbtree.g.cell)
    {}

    method StartIn(ghost protos: Table)
      requires TreeReady(protos)
      modifies this`nodeIn
      ensures TreeReady(protos) && Keys() == old(Keys())
      ensures rbtree.g.order != [] && nodeIn == rbtree.g.order[0] && nodeIn in rbtree.g.cell
    {
      hide ZBProtoRR.TreeReady, ZBProtoRR.Keys;
      nodeIn := FirstNode(protos);
    }

    method StartOut(ghost protos: Table)
      requires TreeReady(protos)
      modifies this`nodeOut
      ensures TreeReady(protos) && Keys() == old(Keys())
      ensures rbtree.g.order != [] && nodeOut == rbtree.g.order[0] && nodeOut in rbtree.g.cell
    {
      hide ZBProtoRR.TreeReady, ZBProtoRR.Keys;
      nodeOut := FirstNode(protos);
    }

    method roundrobinInit(direction: int, ghost protos: Table) returns (nextNode: Node)
      requires Ready(protos)
      modifies this`nodeIn, this`nodeOut
      ensures Ready(protos) && nodeIn != null && nodeOut != null && Keys() == old(Keys())
      ensures QueuesOf(Keys(), protos, direction) == old(QueuesOf(Keys(), protos, direction))
      ensures Position() == Cursors(At(PositionOf(old(Position()).nodeIn)), At(PositionOf(old(Position()).nodeOut)))
      ensures nextNode in rbtree.g.cell
      ensures rbtree.g.cell[nextNode].pos == PositionOf(CursorFor(old(Position()), direction == LOOP_DIR_IN))
      ensures nextNode == if direction == LOOP_DIR_IN then nodeIn else nodeOut
    {
      hide ZBProtoRR.TreeReady, ZBProtoRR.Keys, ZBProtoRR.Ready, ZBProtoRR.Position, ZBProtoRR.CursorAt, PositionOf, CursorFor, CursorsOk;
      ReadyParts(protos);
      ReadyTable(protos);
      PositionMeaning(protos);
      ghost var cs, nodeIn0, nodeOut0 := Position(), nodeIn, nodeOut;
      if nodeIn == null {
        StartIn(protos);
      }
      if nodeOut == null {
        StartOut(protos);
      }
      ReadyParts(protos);
      Initialised(protos, nodeIn0, nodeOut0);
      if direction == LOOP_DIR_IN {
        nextNode := nodeIn;
      } else {
        nextNode := nodeOut;
      }
      CursorMeaning(protos, nextNode, direction);
      SetCursors(cs, direction == LOOP_DIR_IN);
    }

    /** What initialising does to the cursors: an unset one goes to the first position. */
    lemma Initialised(protos: Table, nodeIn0: Node?, nodeOut0: Node?)
      requires Ready(protos) && (nodeIn0 != null ==> nodeIn0 in rbtree.g.cell) && (nodeOut0 != null ==> nodeOut0 in rbtree.g.cell)
      requires nodeIn == (if nodeIn0 == null then rbtree.g.order[0] else nodeIn0)
      requires nodeOut == (if nodeOut0 == null then rbtree.g.order[0] else nodeOut0)
      ensures Position() == Cursors(At(PositionOf(CursorAt(nodeIn0))), At(PositionOf(CursorAt(nodeOut0))))
    {
      ReadyMeaning(protos);
    }

    lemma CursorAtNode(node: Node)
      requires node in rbtree.g.cell
      ensures CursorAt(node) == At(rbtree.g.cell[node].pos)
    {}

    method roundrobinEnd(direction: int, last: Node, ghost protos: Table)
      requires Ready(protos) && last in rbtree.g.cell
      modifies this`nodeIn, this`nodeOut
      ensures Ready(protos) && Keys() == old(Keys())
      ensures QueuesOf(Keys(), protos, direction) == old(QueuesOf(Keys(), protos, direction))
      ensures Position() == if direction == LOOP_DIR_IN then old(Position()).(nodeIn := At(rbtree.g.cell[last].pos))
                            else old(Position()).(nodeOut := At(rbtree.g.cell[last].pos))
      ensures if direction == LOOP_DIR_IN then nodeIn == last && nodeOut == old(nodeOut)
              else nodeOut == last && nodeIn == old(nodeIn)
    {
      hide ZBProtoRR.TreeReady, ZBProtoRR.Keys, ZBProtoRR.Ready, ZBProtoRR.Position, ZBProtoRR.CursorAt, QueuesOf;
      ReadyParts(protos);
      ReadyTable(protos);
      PositionMeaning(protos);
      if direction == LOOP_DIR_IN {
        nodeIn := last;
      } else {
        nodeOut := last;
      }
      ReadyParts(protos);
      PositionMeaning(protos);
      assert CursorAt(last) == At(rbtree.g.cell[last].pos) by { CursorAtNode(last); }
    }

    /** After a visit the cursor goes to the next node in order, or the first one after the last. */
    method Following(node: Node, ghost protos: Table) returns (nextNode: Node)
      requires Ready(protos) && node in rbtree.g.cell
      ensures nextNode in rbtree.g.cell
      ensures rbtree.g.cell[nextNode].pos == Next(|Keys()|, rbtree.g.cell[node].pos)
    {
      ReadyMeaning(protos);
      var step := TreeNext(node, rbtree.LEAF, rbtree.g);
      NextPosition(node, protos);
      nextNode := step;
      if nextNode.keyValue == Nil {
        nextNode := FirstNode(protos);
      }
    }

    lemma NextPosition(node: Node, protos: Table)
      requires Ready(protos) && node in rbtree.g.cell
      ensures var next := NextNode(rbtree.g, node);
              && (next.keyValue == Nil <==> rbtree.g.cell[node].pos + 1 == |rbtree.g.order|)
              && (next.keyValue != Nil ==> next in rbtree.g.cell && rbtree.g.cell[next].pos == rbtree.g.cell[node].pos + 1)
    {
      var i := rbtree.g.cell[node].pos + 1;
      if i < |rbtree.g.order| {
        assert Keys()[i] in Keys();
      }
    }

    /** What is known of a node of the tree: its key is the one at its position, and no other position has it. */
    lemma KeyAt(node: Node, protos: Table)
      requires Ready(protos) && node in rbtree.g.cell
      ensures var i := rbtree.g.cell[node].pos;
              && 0 <= i < |Keys()| && Keys()[i] == node.keyValue && node.keyValue in protos && node.keyValue != Nil
              && protos[node.keyValue].Id == node.keyValue
              && forall j :: 0 <= j < |Keys()| && Keys()[j] == node.keyValue ==> j == i
    {
      var i := rbtree.g.cell[node].pos;
      assert rbtree.g.order[i] == node;
      assert Keys()[i] in Keys();
    }

    /** The pass so far, with node next to visit. */
    ghost function PassNow(node: Node, score: int, direction: int, protos: Table, handlers: Handlers, visited: seq<int>): Pass
      requires Ready(protos) && node in rbtree.g.cell
      reads this, rbtree, rbtree.LEAF, rbtree.g.cell.Keys, (set n | n in rbtree.g.order)`keyValue
      reads protos.Values, Heads(protos, direction), handlers
    {
      Pass(rbtree.g.cell[node].pos, score, QueuesOf(Keys(), protos, direction), handlers.log, visited)
    }

    lemma ReadyTable(protos: Table)
      requires Ready(protos)
      ensures Distinct(Keys()) && forall k :: k in Keys() ==> k in protos
    {}

    lemma CallMeaning(protos: Table, score: int, direction: int, handlers: Handlers)
      requires Ready(protos)
      ensures CallOk(|Keys()|, CallNow(protos, score, direction, handlers))
      ensures CallNow(protos, score, direction, handlers)
              == LoopCall(direction, score, QueuesOf(Keys(), protos, direction), handlers.log, handlers.result)
    {}

    lemma PositionMeaning(protos: Table)
      requires Ready(protos)
      ensures (nodeIn != null ==> nodeIn in rbtree.g.cell) && (nodeOut != null ==> nodeOut in rbtree.g.cell)
      ensures Position() == Cursors(CursorAt(nodeIn), CursorAt(nodeOut))
    {}

    lemma PassMeaning(node: Node, score: int, direction: int, protos: Table, handlers: Handlers, visited: seq<int>)
      requires Ready(protos) && node in rbtree.g.cell
      ensures PassNow(node, score, direction, protos, handlers, visited)
              == Pass(rbtree.g.cell[node].pos, score, QueuesOf(Keys(), protos, direction), handlers.log, visited)
    {}

    lemma CursorMeaning(protos: Table, node: Node, direction: int)
      requires Ready(protos) && node == (if direction == LOOP_DIR_IN then nodeIn else nodeOut)
      ensures node in rbtree.g.cell && CursorsOk(|Keys()|, Position())
      ensures CursorFor(Position(), direction == LOOP_DIR_IN) == At(rbtree.g.cell[node].pos)
      ensures PositionOf(CursorFor(Position(), direction == LOOP_DIR_IN)) == rbtree.g.cell[node].pos
    {
      ReadyMeaning(protos);
    }

    /** One turn of the loop: the protocol at node is served and the walk moves on. */
    method VisitOne(node: Node, score: int, direction: int, protos: Table, handlers: Handlers, ghost visited: seq<int>)
        returns (loopScore: int, nextNode: Node)
      requires Ready(protos) && SeparateQueues(protos, direction) && node in rbtree.g.cell && node.keyValue in protos
      modifies handlers, Heads(protos, direction)
      ensures Ready(protos) && SeparateQueues(protos, direction) && Keys() == old(Keys()) && nextNode in rbtree.g.cell
      ensures var p := old(PassNow(node, score, direction, protos, handlers, visited));
              && |p.queues| == |Keys()| && 0 <= p.at < |Keys()|
              && PassNow(nextNode, loopScore, direction, protos, handlers, visited + [p.at]) == Visit(handlers.result, Keys(), p)
    {
      hide ZBProtoRR.Ready, ZBProtoRR.TreeReady, SeparateQueues, Serve, Visit, RunPass, QueuesOf, ZBProtoRR.Keys, ZBProtoRR.PassNow, ZBProtoRR.Position, ZBProtoRR.CallNow, Linked, Distinct, Advance, CursorsAfter, RoundOf, Round, CursorsOk, CallOk, PositionOf, CursorFor;
      KeyAt(node, protos);
      ReadyTable(protos);
      ghost var keys, i, queues, log := Keys(), rbtree.g.cell[node].pos, QueuesOf(Keys(), protos, direction), handlers.log;
      PassMeaning(node, score, direction, protos, handlers, visited);
      loopScore := ServeAt(protos[node.keyValue], score, direction, handlers, keys, i, protos);
      assert Ready(protos);
      nextNode := Following(node, protos);
      PassMeaning(nextNode, loopScore, direction, protos, handlers, visited + [i]);
      assert Keys() == keys;
      assert rbtree.g.cell[nextNode].pos == Next(|keys|, i);
      VisitMeaning(handlers.result, keys, Pass(i, score, queues, log, visited));
    }

    /** The loop: at most one round, from startNode on; visited lists the positions of the nodes served. */
    method WalkRound(startNode: Node, score: int, direction: int, protos: Table, handlers: Handlers)
        returns (loopScore: int, nextNode: Node, ghost visited: seq<int>)
      requires Ready(protos) && SeparateQueues(protos, direction) && startNode in rbtree.g.cell
      modifies handlers, Heads(protos, direction)
      ensures Ready(protos) && Keys() == old(Keys()) && nextNode in rbtree.g.cell
      ensures var p := old(PassNow(startNode, score, direction, protos, handlers, []));
              && |p.queues| == |Keys()| && 0 <= p.at < |Keys()|
              && var r := RunPass(handlers.result, Keys(), p, |Keys()|);
              r == PassNow(nextNode, loopScore, direction, protos, handlers, visited) && r.visited == visited
    {
      hide ZBProtoRR.Ready, ZBProtoRR.TreeReady, SeparateQueues, Serve, Visit, RunPass, QueuesOf, ZBProtoRR.Keys, ZBProtoRR.PassNow, ZBProtoRR.Position, ZBProtoRR.CallNow, Linked, Distinct, Advance, CursorsAfter, RoundOf, Round, CursorsOk, CallOk, PositionOf, CursorFor;
      nextNode, loopScore, visited := startNode, score, [];
      KeyAt(nextNode, protos);
      ghost var keys, n, first := Keys(), |Keys()|, rbtree.g.cell[nextNode].pos;
      var next := nextNode.keyValue;
      var start := next;
      ghost var first_ := PassNow(startNode, score, direction, protos, handlers, []);
      ghost var p, left := first_, n;
      PassMeaning(nextNode, loopScore, direction, protos, handlers, []);
      NoSteps(n, first);
      while loopScore > 1 && next != Nil
        invariant Ready(protos) && Keys() == keys && SeparateQueues(protos, direction)
        invariant nextNode in rbtree.g.cell && next == nextNode.keyValue && next != Nil
        invariant p == PassNow(nextNode, loopScore, direction, protos, handlers, visited)
        invariant 0 < left <= n && p.at == Advance(n, first, n - left) && 0 <= p.at < n == |p.queues|
        invariant RunPass(handlers.result, keys, p, left) == RunPass(handlers.result, keys, first_, n)
        decreases left
      {
        KeyAt(nextNode, protos);
        PassMeaning(nextNode, loopScore, direction, protos, handlers, visited);
        PassStep(handlers.result, keys, p, left);
        ghost var before := visited;
        visited := visited + [rbtree.g.cell[nextNode].pos];
        loopScore, nextNode := VisitOne(nextNode, loopScore, direction, protos, handlers, before);
        p, left := Visit(handlers.result, keys, p), left - 1;
        PassMeaning(nextNode, loopScore, direction, protos, handlers, visited);
        KeyAt(nextNode, protos);
        next := nextNode.keyValue;
        BackAtStart(n, first, left);
        if next == start {
          break;
        }
      }
      PassMeaning(nextNode, loopScore, direction, protos, handlers, visited);
      PassEnds(handlers.result, keys, p, left);
    }

    /** Scores, queues, deliveries and cursors after a call are those of one Round from the cursor. */
    method ZBProtocolGenericLoop(score: int, direction: int, protos: Table, handlers: Handlers)
        returns (loopScore: int, ghost visited: seq<int>)
      requires Ready(protos) && SeparateQueues(protos, direction)
      modifies this`nodeIn, this`nodeOut, handlers, Heads(protos, direction)
      ensures Ready(protos) && Keys() == old(Keys())
      ensures CursorsOk(|Keys()|, old(Position())) && CallOk(|Keys()|, old(CallNow(protos, score, direction, handlers)))
      ensures var call, cs := old(CallNow(protos, score, direction, handlers)), old(Position());
              && Position() == CursorsAfter(Keys(), cs, call)
              && var p := RoundOf(Keys(), cs, call);
              && loopScore == p.score && handlers.log == p.log && QueuesOf(Keys(), protos, direction) == p.queues
              && visited == p.visited
    {
      hide *;
      ReadyMeaning(protos);
      ghost var keys, cs, call := Keys(), Position(), CallNow(protos, score, direction, handlers);
      CallMeaning(protos, score, direction, handlers);
      var nextNode := roundrobinInit(direction, protos);
      InitialPass(keys, cs, call, rbtree.g.cell[nextNode].pos);
      PassMeaning(nextNode, score, direction, protos, handlers, []);
      loopScore, nextNode, visited := WalkRound(nextNode, score, direction, protos, handlers);
      PassMeaning(nextNode, loopScore, direction, protos, handlers, visited);
      roundrobinEnd(direction, nextNode, protos);
    }

    /** Where a run of calls has led the cursors. */
    ghost predicate Ran(protos: Table, cs: Cursors, calls: seq<LoopCall>)
      reads this, rbtree, rbtree.LEAF, rbtree.g.cell.Keys, (set n | n in rbtree.g.order)`keyValue, protos.Values
    {
      && Ready(protos) && SeparateQueues(protos, LOOP_DIR_IN) && SeparateQueues(protos, LOOP_DIR_OUT)
      && CursorsOk(|Keys()|, cs) && CallsOk(|Keys()|, calls) && Position() == CursorsAfterAll(Keys(), cs, calls)
    }

    lemma RanParts(protos: Table, cs: Cursors, calls: seq<LoopCall>)
      requires Ran(protos, cs, calls)
      ensures Ready(protos) && SeparateQueues(protos, LOOP_DIR_IN) && SeparateQueues(protos, LOOP_DIR_OUT)
      ensures CursorsOk(|Keys()|, cs) && CallsOk(|Keys()|, calls) && Position() == CursorsAfterAll(Keys(), cs, calls)
    {}

    lemma RanIntro(protos: Table, cs: Cursors, calls: seq<LoopCall>)
      requires Ready(protos) && SeparateQueues(protos, LOOP_DIR_IN) && SeparateQueues(protos, LOOP_DIR_OUT)
      requires CursorsOk(|Keys()|, cs) && CallsOk(|Keys()|, calls) && Position() == CursorsAfterAll(Keys(), cs, calls)
      ensures Ran(protos, cs, calls)
    {}

    /** After frames have arrived each queue of a direction holds them behind what it held. */
    method Receive(arrivals: seq<Arrival>, direction: int, protos: Table, ghost cs: Cursors, ghost calls: seq<LoopCall>)
      requires Ran(protos, cs, calls)
      modifies Heads(protos, LOOP_DIR_IN), Heads(protos, LOOP_DIR_OUT)
      ensures Ran(protos, cs, calls) && Keys() == old(Keys()) && forall k :: k in Keys() ==> k in protos
      ensures Grown(Keys(), old(QueuesOf(Keys(), protos, direction)), QueuesOf(Keys(), protos, direction), arrivals, protos, direction)
    {
      hide ZBProtoRR.Ran, ZBProtoRR.Ready, ZBProtoRR.TreeReady, ZBProtoRR.Keys, QueuesOf, ArrivingAt, Grown, HeadFor, Heads, SeparateQueues;
      RanParts(protos, cs, calls);
      ReadyTable(protos);
      ghost var keys, was := Keys(), QueuesOf(Keys(), protos, direction);
      Arrive(arrivals, protos);
      RanIntro(protos, cs, calls);
      SeparateAll(protos, direction);
      forall i | 0 <= i < |keys|
        ensures FramesOf(HeadFor(protos[keys[i]], direction)) == was[i] + ArrivingAt(HeadFor(protos[keys[i]], direction), arrivals, protos)
      {
        ghost var head := old(HeadFor(protos[keys[i]], direction));
        HeadIn(protos, keys[i], direction);
        assert head == HeadFor(protos[keys[i]], direction);
        assert was[i] == old(FramesOf(head));
        NothingArrives(arrivals, protos);
        assert head != null ==> head in HeadSet(head);
      }
      GrownIntro(keys, was, arrivals, protos, direction);
    }

    /** One call more, after frames have arrived: it finds them, and scores and leaves the log as its round does. */
    method OneLoop(request: Request, protos: Table, handlers: Handlers, ghost cs: Cursors, ghost calls: seq<LoopCall>)
        returns (score: int, ghost call: LoopCall, ghost visited: seq<int>)
      requires Ran(protos, cs, calls)
      modifies this`nodeIn, this`nodeOut, handlers, Heads(protos, LOOP_DIR_IN), Heads(protos, LOOP_DIR_OUT)
      ensures Ran(protos, cs, calls + [call]) && Keys() == old(Keys())
      ensures call.direction == request.direction && call.score == request.score
      ensures call.log == old(handlers.log) && call.result == handlers.result && forall k :: k in Keys() ==> k in protos
      ensures Grown(Keys(), old(QueuesOf(Keys(), protos, request.direction)), call.queues, request.arrivals, protos, request.direction)
      ensures CursorsOk(|Keys()|, cs) && CallsOk(|Keys()|, calls) && CallsOk(|Keys()|, calls + [call])
      ensures CallOk(|Keys()|, call) && CursorsOk(|Keys()|, CursorsAfterAll(Keys(), cs, calls))
      ensures var p := RoundOf(Keys(), CursorsAfterAll(Keys(), cs, calls), call);
              score == p.score && handlers.log == p.log && QueuesOf(Keys(), protos, request.direction) == p.queues
      ensures var incoming := request.direction == LOOP_DIR_IN;
              && Visits(Keys(), cs, calls + [call], incoming) == Visits(Keys(), cs, calls, incoming) + visited
              && Visits(Keys(), cs, calls + [call], !incoming) == Visits(Keys(), cs, calls, !incoming)
    {
      hide *;
      Receive(request.arrivals, request.direction, protos, cs, calls);
      RanParts(protos, cs, calls);
      ghost var keys := Keys();
      SeparateAll(protos, request.direction);
      CallMeaning(protos, request.score, request.direction, handlers);
      call := CallNow(protos, request.score, request.direction, handlers);
      OneCallMore(keys, cs, calls, call, request.direction == LOOP_DIR_IN);
      OneCallMore(keys, cs, calls, call, request.direction != LOOP_DIR_IN);
      score, visited := ZBProtocolGenericLoop(request.score, request.direction, protos, handlers);
      RanIntro(protos, cs, calls + [call]);
      assert Visits(keys, cs, calls, request.direction != LOOP_DIR_IN) + [] == Visits(keys, cs, calls, request.direction != LOOP_DIR_IN);
    }

    /**
     A run of calls, frames arriving before each of them: what is visited is Visits, one round without end for each
     direction.
     */
    method RunLoops(requests: seq<Request>, protos: Table, handlers: Handlers)
        returns (scores: seq<int>, ghost calls: seq<LoopCall>, ghost visitsIn: seq<int>, ghost visitsOut: seq<int>)
      requires Ready(protos) && SeparateQueues(protos, LOOP_DIR_IN) && SeparateQueues(protos, LOOP_DIR_OUT)
      modifies this`nodeIn, this`nodeOut, handlers, Heads(protos, LOOP_DIR_IN), Heads(protos, LOOP_DIR_OUT)
      ensures Ran(protos, old(Position()), calls) && Keys() == old(Keys()) && |scores| == |calls| == |requests|
      ensures forall i :: 0 <= i < |calls| ==> calls[i].direction == requests[i].direction && calls[i].score == requests[i].score
      ensures CursorsOk(|Keys()|, old(Position())) && CallsOk(|Keys()|, calls)
      ensures visitsIn == Visits(Keys(), old(Position()), calls, true)
      ensures visitsOut == Visits(Keys(), old(Position()), calls, false)
      ensures visitsIn == Cyclic(|Keys()|, PositionOf(old(Position()).nodeIn), |visitsIn|)
      ensures visitsOut == Cyclic(|Keys()|, PositionOf(old(Position()).nodeOut), |visitsOut|)
      ensures Told(Keys(), old(Position()), calls, scores, old(handlers.log), handlers.log)
      ensures forall i :: 0 <= i < |calls| ==> calls[i].result == handlers.result
    {
      hide *;
      ReadyMeaning(protos);
      ghost var keys, cs := Keys(), Position();
      scores, calls, visitsIn, visitsOut := [], [], [], [];
      NoCalls(keys, cs);
      NothingTold(keys, cs, handlers.log);
      RanIntro(protos, cs, calls);
      while |scores| < |requests|
        invariant Ran(protos, cs, calls) && Keys() == keys && |calls| == |scores| <= |requests|
        invariant CursorsOk(|keys|, cs) && CallsOk(|keys|, calls)
        invariant forall i :: 0 <= i < |calls| ==> calls[i].direction == requests[i].direction && calls[i].score == requests[i].score
        invariant visitsIn == Visits(keys, cs, calls, true) && visitsOut == Visits(keys, cs, calls, false)
        invariant Told(keys, cs, calls, scores, old(handlers.log), handlers.log)
        invariant forall i :: 0 <= i < |calls| ==> calls[i].result == handlers.result
      {
        var request := requests[|scores|];
        var score, call, visited := OneLoop(request, protos, handlers, cs, calls);
        ToldMore(keys, cs, calls, call, scores, old(handlers.log));
        scores, calls := scores + [score], calls + [call];
        if request.direction == LOOP_DIR_IN {
          visitsIn := visitsIn + visited;
        } else {
          visitsOut := visitsOut + visited;
        }
      }
      RunIsCyclic(keys, cs, calls, true);
      RunIsCyclic(keys, cs, calls, false);
      CursorsFor(cs);
    }
  }

  /** Frames that arrive for one protocol and direction, and a call of the loop after them. */
  datatype Arrival = Arrival(to: Item, incoming: bool, frame: Frame)

  datatype Request = Request(arrivals: seq<Arrival>, score: int, direction: int)

  /** The queue a frame arrives at, if there is one. */
  ghost function Target(a: Arrival, protos: Table): SkBuffHead?
    reads protos.Values
  {
    if a.to !in protos then null else if a.incoming then protos[a.to].QueueIn else protos[a.to].QueueOut
  }

  /** The frames among arrivals that are for one queue. */
  ghost function ArrivingAt(head: SkBuffHead?, arrivals: seq<Arrival>, protos: Table): seq<Frame>
    reads protos.Values
  {
    if arrivals == [] || head == null then []
    else
      var last := arrivals[|arrivals| - 1];
      ArrivingAt(head, arrivals[..|arrivals| - 1], protos) + if Target(last, protos) == head then [last.frame] else []
  }

  /** now holds the queues of a direction as they are after frames arrived behind those of was. */
  ghost predicate Grown(keys: seq<Item>, was: seq<seq<Frame>>, now: seq<seq<Frame>>, arrivals: seq<Arrival>, protos: Table, direction: int)
    requires forall k :: k in keys ==> k in protos
    reads protos.Values
  {
    && |now| == |was| == |keys|
    && forall i :: 0 <= i < |keys| ==> now[i] == was[i] + ArrivingAt(HeadFor(protos[keys[i]], direction), arrivals, protos)
  }

  lemma GrownIntro(keys: seq<Item>, was: seq<seq<Frame>>, arrivals: seq<Arrival>, protos: Table, direction: int)
    requires |was| == |keys| && forall k :: k in keys ==> k in protos
    requires forall i :: 0 <= i < |keys| ==>
               FramesOf(HeadFor(protos[keys[i]], direction)) == was[i] + ArrivingAt(HeadFor(protos[keys[i]], direction), arrivals, protos)
    ensures Grown(keys, was, QueuesOf(keys, protos, direction), arrivals, protos, direction)
  {}

  lemma NothingArrives(arrivals: seq<Arrival>, protos: Table)
    ensures ArrivingAt(null, arrivals, protos) == []
    ensures forall head: SkBuffHead :: ArrivingAt(head, [], protos) == []
  {}

  lemma OneMoreArrives(arrivals: seq<Arrival>, k: nat, protos: Table)
    requires k < |arrivals|
    ensures forall head: SkBuffHead :: ArrivingAt(head, arrivals[..k + 1], protos)
              == ArrivingAt(head, arrivals[..k], protos) + if Target(arrivals[k], protos) == head then [arrivals[k].frame] else []
  {
    assert arrivals[..k + 1][..k] == arrivals[..k];
  }

  /** Frames arrive, in order, at the ends of the queues they are for; where there is no such queue they are lost. */
  method Arrive(arrivals: seq<Arrival>, protos: Table)
    modifies Heads(protos, LOOP_DIR_IN), Heads(protos, LOOP_DIR_OUT)
    ensures forall head <- Heads(protos, LOOP_DIR_IN) + Heads(protos, LOOP_DIR_OUT) ::
              head.frames == old(head.frames) + ArrivingAt(head, arrivals, protos)
  {
    NothingArrives(arrivals, protos);
    if arrivals != [] {
      var k := |arrivals| - 1;
      OneMoreArrives(arrivals, k, protos);
      assert arrivals[..k + 1] == arrivals;
      hide ArrivingAt, Target;
      Arrive(arrivals[..k], protos);
      ArriveOne(arrivals[k], protos);
    }
  }

  method ArriveOne(a: Arrival, protos: Table)
    modifies Heads(protos, LOOP_DIR_IN), Heads(protos, LOOP_DIR_OUT)
    ensures forall head <- Heads(protos, LOOP_DIR_IN) + Heads(protos, LOOP_DIR_OUT) ::
              head.frames == old(head.frames) + if Target(a, protos) == head then [a.frame] else []
  {
    if a.to in protos {
      var head := if a.incoming then protos[a.to].QueueIn else protos[a.to].QueueOut;
      if head != null {
        HeadIn(protos, a.to, if a.incoming then LOOP_DIR_IN else LOOP_DIR_OUT);
        head.SkbQueueTail(a.frame);
      }
    }
  }

  /** Only the two directions have queues. */
  lemma SeparateAll(protos: Table, direction: int)
    requires SeparateQueues(protos, LOOP_DIR_IN) && SeparateQueues(protos, LOOP_DIR_OUT)
    ensures SeparateQueues(protos, direction)
    ensures Heads(protos, direction) <= Heads(protos, LOOP_DIR_IN) + Heads(protos, LOOP_DIR_OUT)
  {}

  lemma CursorsFor(cs: Cursors)
    ensures CursorFor(cs, true) == cs.nodeIn && CursorFor(cs, false) == cs.nodeOut
  {}

  lemma NoCalls(keys: seq<Item>, cs: Cursors)
    requires CursorsOk(|keys|, cs)
    ensures CallsOk(|keys|, []) && CursorsAfterAll(keys, cs, []) == cs
    ensures Visits(keys, cs, [], true) == [] == Visits(keys, cs, [], false)
  {}

  lemma NothingTold(keys: seq<Item>, cs: Cursors, log: seq<Delivery>)
    requires CursorsOk(|keys|, cs)
    ensures CallsOk(|keys|, []) && Told(keys, cs, [], [], log, log)
  {}

  lemma NoSteps(n: nat, first: int)
    ensures Advance(n, first, 0) == first
  {}

  lemma SetCursors(cs: Cursors, incoming: bool)
    ensures PositionOf(CursorFor(Cursors(At(PositionOf(cs.nodeIn)), At(PositionOf(cs.nodeOut))), incoming)) == PositionOf(CursorFor(cs, incoming))
  {}

  /** A call is one Round from the position its cursor stands for, and moves only that cursor. */
  lemma InitialPass(keys: seq<Item>, cs: Cursors, call: LoopCall, first: int)
    requires CursorsOk(|keys|, cs) && CallOk(|keys|, call) && first == PositionOf(CursorFor(cs, call.direction == LOOP_DIR_IN))
    ensures 0 <= first < |keys| && Advance(|keys|, first, 0) == first
    ensures RoundOf(keys, cs, call) == RunPass(call.result, keys, Pass(first, call.score, call.queues, call.log, []), |keys|)
    ensures CursorsAfter(keys, cs, call)
            == if call.direction == LOOP_DIR_IN then Cursors(At(RoundOf(keys, cs, call).at), At(PositionOf(cs.nodeOut)))
               else Cursors(At(PositionOf(cs.nodeIn)), At(RoundOf(keys, cs, call).at))
  {}

  lemma PassEnds(result: Results, keys: seq<Item>, p: Pass, left: nat)
    requires |p.queues| == |keys| && 0 <= p.at < |keys| && (left == 0 || p.score <= 1)
    ensures RunPass(result, keys, p, left) == p
  {}

  /** The walk is back at its first position exactly when every protocol was visited. */
  lemma BackAtStart(n: nat, first: int, left: nat)
    requires 0 <= first < n && left < n
    ensures Advance(n, first, n - left) == Next(n, Advance(n, first, n - left - 1))
    ensures Advance(n, first, n - left) == first <==> left == 0
  {
    AdvanceMeaning(n, first, n - left);
    AdvanceMeaning(n, first, n - left - 1);
  }

  lemma PassStep(result: Results, keys: seq<Item>, p: Pass, left: nat)
    requires |p.queues| == |keys| && 0 <= p.at < |keys| && left > 0 && p.score > 1
    ensures var q := Visit(result, keys, p);
            && q.at == Next(|keys|, p.at) && q.visited == p.visited + [p.at]
            && 0 <= q.at < |keys| && |q.queues| == |keys| && RunPass(result, keys, p, left) == RunPass(result, keys, q, left - 1)
  {}

  lemma VisitMeaning(result: Results, keys: seq<Item>, p: Pass)
    requires |p.queues| == |keys| && 0 <= p.at < |keys|
    ensures var s := Serve(result, keys[p.at], p.score, p.queues[p.at], p.log);
            Visit(result, keys, p) == Pass(Next(|keys|, p.at), s.score, p.queues[p.at := s.left], s.log, p.visited + [p.at])
  {}
}
