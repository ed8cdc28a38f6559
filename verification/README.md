# gotcpip: verified core

A Dafny model of four parts of the gotcpip repository, with proofs:

* **The pointer red-black tree** (`gotcpip/src/rbtree/rbtree.go`). `RBtrees.RBtree` and `Nodes.Node` have the source's
  fields; every method changes the links and colours in place. Beside them a ghost value, a `Shapes.Shape`, records all
  links and colours and the in-order position of every node, and each run of field writes is proved equal to a function
  on shapes (rotate, repaint, attach, splice, rename). What these functions do to linkedness, to the colour rules and to
  the black count of every root-to-LEAF path is proved in the other tree modules, exactly, so that the results also say
  when the code does *not* restore equal counts.
* **The round-robin scheduler** (`gotcpip/src/tcpip/net/protocol/protocol_impl.go`), walking such a tree with `TreeNext`.
* **The Internet checksum** (`gotcpip/src/tcpip/util/util.go`) and its nested use in `IPConn.Send`.
* **The TCP option parser** (`gotcpip/src/tcpip/net/tcp/tcpconn.go`), a cursor loop against a recursive reading of the
  option list of section 3.1 of RFC 793.

`dafny verify dfyconfig.toml` checks everything.

## Where the code does not do what its names promise

* `Delete` from a red-black tree gives a red-black tree exactly when the place that disappears was red, had a red child
  to fill it, or was the only one (`TreeRuns.DeleteInRedBlack`). Otherwise the fix-up's loop is not entered, because the
  filler is LEAF. `Examples.BlackChildlessDeleted` is a concrete case.
* The fix-up of `Delete` follows a nil link of LEAF exactly when its climb comes to a sibling that is LEAF, at once or after
  rotating a red sibling up. `DeleteFixup.Stuck` says when, on the links and colours before the call, and
  `fixDeleteCollisions`, `Delete` and whole runs are proved to meet it exactly then, and to keep the weak invariant otherwise.
  No deletion from a red-black tree does. `Examples.ChainReached` and `Examples.SentinelSibling` lead from seven black nodes
  to a deletion that does, `Examples.LopsidedPasses` is one on an unbalanced tree that does not.
* Where the fix-up gets through, it supplies the missing black on the paths through the node it starts from and keeps all
  other counts (up to one black for all alike), except when its climb comes to a double rotation below a red parent
  (`DeleteFixup.Breaks`): there the code recolours the rotated node instead of its new sibling, and the paths through the
  climb's last node and through the near child of the node rotated up get one black too many. `DeleteFixup.ClimbEnd` tells
  the ending and these slots from the tree before, `DeleteFixup.Settles` states the exact counts in every case, from any
  tree, and `DeleteFixup.SettlesBalanced` that counts which would have become equal then are not.
  `Examples.InnerNephewBreaks` is a concrete case.
* `Checksum` folds once. Filling in and verifying agree exactly when that fold does not itself carry
  (`Checksums.FillThenVerify`), which is also exactly when it is the Internet checksum of RFC 1071
  (`Checksums.SingleFoldSuffices`). `Checksums.CarryExample` is a concrete failure.
* `tcpParseOpt` looks for a size behind the buffer exactly when the option area ends with the buffer and its last byte is
  reached as the kind of an option that has a size (`TcpOptions.Overruns`, `TcpOptionLaws.OverrunMeaning`).

## Model

| member | source | states |
|---|---|---|
| RBtrees.RBtree.InitTree | gotcpip/src/rbtree/rbtree.go:53-60 | an empty, balanced tree over the shared sentinel |
| Traversal.TreeFirstNode | gotcpip/src/rbtree/rbtree.go:88-94 | from a node of the tree: the first node in order of its subtree |
| Traversal.TreeLastNode | gotcpip/src/rbtree/rbtree.go:96-101 | from a node of the tree: the last node in order of its subtree |
| Traversal.TreeNext | gotcpip/src/rbtree/rbtree.go:103-125 | nil for nil; otherwise the in-order successor, or the sentinel after the last node |
| Traversal.TreePrev | gotcpip/src/rbtree/rbtree.go:127-146 | the in-order predecessor, or the sentinel before the first node |
| Traversal.StepsUndo | gotcpip/src/rbtree/rbtree.go:103-146 | stepping forward and back are inverse; the sentinel comes exactly after the last and before the first node of the tree read off the links |
| Traversal.WalkMeetsAll | gotcpip/src/rbtree/rbtree.go:88-125 | stepping from the first node until the sentinel is the in-order traversal: every node, each once |
| SharedSentinel.WalkInKeyOrder | gotcpip/src/rbtree/rbtree.go:88-125 | in an ordered tree that walk meets strictly increasing keys |
| RBtrees.RBtree.FindNode | gotcpip/src/rbtree/rbtree.go:148-164 | the node whose key compares equal, nil exactly when there is none, within as many turns as the tree is high; for a nil key it ends too, and a node it returns compares equal |
| RBtrees.RBtree.FindKey | gotcpip/src/rbtree/rbtree.go:170-192 | the stored item that compares equal, nil exactly when there is none; for a nil key an item it returns is stored and compares equal |
| Trees.HeightBound | gotcpip/src/rbtree/rbtree.go:148-164 | a red-black tree of n nodes and height h has 2^h at most (n+1)^2 |
| SharedSentinel.SearchIsShort | gotcpip/src/rbtree/rbtree.go:148-164 | so in a red-black tree of n nodes FindNode's loop takes at most 2 log2(n+1) turns |
| Trees.EqualCountsOnAllPaths | gotcpip/src/rbtree/rbtree.go:342-446 | the slot-wise black counts used everywhere are equal exactly when all root-to-LEAF paths meet equally many black nodes |
| ColorRules.WeakMeaning | gotcpip/src/rbtree/rbtree.go:338-384 | the invariants on links and colours are the red-black rules of the tree read off the links, both ways |
| RBtrees.RBtree.rotateToLeft | gotcpip/src/rbtree/rbtree.go:448-473 | the link writes are the rotation of the shape, same in-order sequence; with a LEAF right child nothing changes |
| RBtrees.RBtree.rotateToRight | gotcpip/src/rbtree/rbtree.go:475-502 | the same on the left; a LEAF left child leaves a nil left link, because the link is written before the guard, and nothing else |
| Shapes.RotateLinked | gotcpip/src/rbtree/rbtree.go:448-502 | a rotation keeps the tree well linked with the same in-order sequence |
| RotationCounts.SwapRotateDepths | gotcpip/src/rbtree/rbtree.go:359-361 | lifting a red child that takes over its parent's colour keeps every path's black count |
| InsertSteps.RecolorStep | gotcpip/src/rbtree/rbtree.go:348-352 | beside a red uncle: recolouring moves the only violation two levels up and keeps all counts; the climb gets shorter |
| InsertSteps.InnerStep | gotcpip/src/rbtree/rbtree.go:354-357 | beside a black uncle, the first rotation turns the inner case into the outer one, with the same counts |
| InsertSteps.OuterStep | gotcpip/src/rbtree/rbtree.go:359-361 | in the outer case the repaint and the rotation remove the violation, end the climb and keep all counts |
| RBtrees.RBtree.fixInsertCollisions | gotcpip/src/rbtree/rbtree.go:342-384 | from a tree whose only violation is at the start node: terminates, repairs it, keeps the node sequence, and all counts up to one common step |
| RBtrees.RBtree.LinkNew | gotcpip/src/rbtree/rbtree.go:219-243 | the new node is hung at the in-order position where its key belongs; its red colour is the only possible violation |
| InsertCounts.AttachDepths | gotcpip/src/rbtree/rbtree.go:229-240 | attaching a red node duplicates one path's count and changes no other |
| InsertCounts.InsertKeepsBalance | gotcpip/src/rbtree/rbtree.go:194-248 | so counts are equal afterwards exactly when they were before |
| RBtrees.RBtree.Insert | gotcpip/src/rbtree/rbtree.go:194-248 | a comparing-equal item is returned and nothing changes; otherwise exactly that key is added, by one fresh node, and the tree is balanced exactly when it was; the weak invariant is kept, with the key order unless the key is nil |
| RBtrees.RBtree.switchNodes | gotcpip/src/rbtree/rbtree.go:319-336 | one node takes another's place below its parent or as the root; the sentinel is not written |
| DeleteWrites.DeleteWritesSame | gotcpip/src/rbtree/rbtree.go:292-317 | both branches of the relinking leave every remaining node with the links and colour of the abstract unlinking |
| RBtrees.RBtree.deleteNode | gotcpip/src/rbtree/rbtree.go:292-317 | with two children: the successor object takes the node's place; returns the spliced colour and the filler |
| RBtrees.RBtree.deleteCheckSwitch | gotcpip/src/rbtree/rbtree.go:274-290 | with any children: the unlinked tree, the filler and the colour of the spliced place |
| Unlinking.UnlinkLinked | gotcpip/src/rbtree/rbtree.go:274-336 | unlinking keeps the tree well linked; exactly that node leaves, all others keep their relative in-order position |
| Unlinking.UnlinkDepths | gotcpip/src/rbtree/rbtree.go:274-336 | exactly which path counts drop, and which path disappears |
| DeleteSteps.RedSiblingStep | gotcpip/src/rbtree/rbtree.go:392-398 | a red sibling with a child on the node's side: after recolouring and rotation the same node goes on beside that black child, with the same counts if it counts once more |
| DeleteSteps.MoveUpStep | gotcpip/src/rbtree/rbtree.go:400-402 | a black sibling with black children: after repainting the climb goes on from the parent, with the same counts if the parent instead counts once more |
| LastRotation.LastCounts | gotcpip/src/rbtree/rbtree.go:411-414 | the last rotation with the right colours adds the missing count and changes no other path |
| LastRotation.LastLifts | gotcpip/src/rbtree/rbtree.go:404-414 | below a red parent, as the code paints it, the last rotation gives one black more than the missing one to the paths below the node and below the near child of the one rotated up, and changes no other path |
| ShapeTrees.ExtraLifts | gotcpip/src/rbtree/rbtree.go:386-446 | counting a node once more, as the climb does with the missing black, raises exactly the counts of the slots below it by one |
| DeleteFixup.RedSiblingEnd | gotcpip/src/rbtree/rbtree.go:392-415 | how the climb ends, and which slots are lifted, is the same before and after a red sibling's rotation, and it then does not meet the sentinel |
| DeleteFixup.RedSiblingStuck | gotcpip/src/rbtree/rbtree.go:392-400 | the rotation of a red sibling brings its child on the node's side, or the sentinel, to where the sibling is read next |
| DeleteFixup.MoveUpEnd | gotcpip/src/rbtree/rbtree.go:400-415 | and before and after a step up |
| DeleteFixup.LiftProper | gotcpip/src/rbtree/rbtree.go:404-414 | the slots that get one black too many are at least one and not all |
| DeleteFixup.SettlesBalanced | gotcpip/src/rbtree/rbtree.go:386-446 | so the fix-up leaves equal counts exactly when the missing black makes them equal, and never after a double rotation below a red parent from a tree exactly one short |
| DeleteFixup.OneShortNotStuck | gotcpip/src/rbtree/rbtree.go:386-416 | a climb from a node exactly one black short of an otherwise balanced tree never meets the sentinel |
| RBtrees.RBtree.fixDeleteCollisions | gotcpip/src/rbtree/rbtree.go:386-446 | from any tree whose only possible violation is at the start node, one short or not: meets the sentinel as sibling exactly where Stuck says so; otherwise terminates, keeps the node sequence, ends with a black root and no red-red edge, and leaves exactly the counts of before with the missing black supplied (at the root: all one less; after a double rotation below a red parent: one more in exactly the lifted slots); unless the loop is entered it only paints the start black |
| DeleteOutcome.LoopNotEntered | gotcpip/src/rbtree/rbtree.go:386-389 | deleting any node of a red-black tree never enters the fix-up's loop, so it never meets the sentinel |
| DeleteOutcome.HarmlessNotStuck | gotcpip/src/rbtree/rbtree.go:264-269 | nor does any deletion whose spliced place is red or whose filler is LEAF, red or the new root |
| DeleteOutcome.OneShortDelete | gotcpip/src/rbtree/rbtree.go:264-269 | nor one that leaves the filler exactly one black short |
| DeleteOutcome.EnteredDepths | gotcpip/src/rbtree/rbtree.go:274-336 | when the loop is entered, counting the filler once more gives every remaining path its count of before |
| DeleteOutcome.DeleteKeepsCounts | gotcpip/src/rbtree/rbtree.go:250-272 | so in any weakly valid tree a deletion whose fix-up climbs keeps all other paths' counts, lowers them all by one, or raises those of the lifted slots by one, as the ending of the climb says; equal counts then are as the ending says too |
| DeleteOutcome.StaysBalanced | gotcpip/src/rbtree/rbtree.go:250-317 | and leaves equal counts exactly when the spliced place was red, had a red filler or was the only one |
| DeleteOutcome.DeleteFromRedBlack | gotcpip/src/rbtree/rbtree.go:250-317 | the same for the trees read off the links before and after |
| TreeRuns.DeleteInRedBlack | gotcpip/src/rbtree/rbtree.go:250-272 | Delete on a red-black tree, for any key, always gets through and has that exact outcome |
| RBtrees.RBtree.Delete | gotcpip/src/rbtree/rbtree.go:250-272 | in any weakly valid tree: meets the sentinel exactly where DeleteStuck says so; otherwise removes and returns exactly the item that compares equal, or nothing, keeps the weak invariant, leaves exactly the black counts described above in every case, and no link of the tree leads to the removed node |
| RBtrees.RBtree.NoLinkTo | gotcpip/src/rbtree/rbtree.go:261-272 | in a well-linked tree no link and not the root leads to a node outside it |
| TreeRuns.IsHarmless | gotcpip/src/rbtree/rbtree.go:274-290 | a test before a Delete, true exactly when nothing is found, the spliced place is red, or the filler is LEAF, red or the new root |
| TreeRuns.BalancedPasses | gotcpip/src/rbtree/rbtree.go:250-272 | on a red-black tree every deletion passes that test and gets through |
| TreeRuns.Step | gotcpip/src/rbtree/rbtree.go:148-272 | one operation acts on the stored set, and answers, as on a finite map, except that a Delete meets the sentinel exactly where StuckAt says so |
| TreeRuns.Run | gotcpip/src/rbtree/rbtree.go:53-272 | every run from InitTree has the weak invariant and the finite map's contents in every state and answers as that map; it stops early exactly at the first Delete that meets the sentinel, so it is complete when all its Deletes pass the test; without Deletes the tree is a red-black tree throughout |
| SharedSentinel.InsertBeside | gotcpip/src/rbtree/rbtree.go:45-51 | inserting any key into one tree adds it or finds its item there, and leaves a disjoint tree over the same sentinel, and the sentinel, as they were |
| SharedSentinel.DeleteBeside | gotcpip/src/rbtree/rbtree.go:45-51 | so does deleting, which removes exactly the item that compares equal, even where the fix-up meets the sentinel |
| Examples.BlackChildlessDeleted | gotcpip/src/rbtree/rbtree.go:386-389 | a red-black tree of three nodes, and the tree a deletion makes of it, which is not one |
| Examples.InnerNephewBreaks | gotcpip/src/rbtree/rbtree.go:404-415 | a tree exactly one black short at the start node, where whatever the fix-up ends in has four counts of four and eight of three, and a tree it may end in |
| Examples.SentinelSibling | gotcpip/src/rbtree/rbtree.go:386-400 | a weakly valid tree and a deletion whose fix-up meets LEAF as sibling |
| Examples.ChainReached | gotcpip/src/rbtree/rbtree.go:250-290 | four deletions of childless nodes, none entering the loop, lead from seven black nodes to that tree |
| Examples.LopsidedPasses | gotcpip/src/rbtree/rbtree.go:386-446 | a deletion on an unbalanced tree that enters the loop and gets through |
| Schedulers.protoLoopIn | gotcpip/src/tcpip/net/protocol/protocol_impl.go:158-171 | serves the incoming queue as Scheduling.Serve does |
| Schedulers.protoLoopOut | gotcpip/src/tcpip/net/protocol/protocol_impl.go:173-186 | serves the outgoing queue as Scheduling.Serve does |
| Schedulers.protoLoop | gotcpip/src/tcpip/net/protocol/protocol_impl.go:188-197 | direction 1 serves QueueIn and leaves QueueOut alone, direction 2 the other way round, and any other direction serves nothing |
| Schedulers.QueuesMeaning | gotcpip/src/tcpip/net/protocol/protocol_impl.go:188-197 | the queues a call works on are, protocol by protocol in the tree's order, QueueIn for direction 1, QueueOut for direction 2, and none otherwise |
| Scheduling.ServeMeaning | gotcpip/src/tcpip/net/protocol/protocol_impl.go:158-186 | a prefix of the queue is handed over in order, each positive result costs one point, it stops only at score zero or an empty queue, and the last frame was handed over with a point left |
| Schedulers.ZBProtoRR.roundrobinInit | gotcpip/src/tcpip/net/protocol/protocol_impl.go:100-117 | unset cursors of both directions go to the first node; returns the one of the direction |
| Schedulers.ZBProtoRR.roundrobinEnd | gotcpip/src/tcpip/net/protocol/protocol_impl.go:119-125 | moves the cursor of the direction and no other |
| Schedulers.ZBProtoRR.ZBProtocolGenericLoop | gotcpip/src/tcpip/net/protocol/protocol_impl.go:127-156 | score, queues, deliveries, both cursors and the positions visited in a call are those of one Round from the cursor |
| Schedulers.ZBProtoRR.RunLoops | gotcpip/src/tcpip/net/protocol/protocol_impl.go:100-156 | a run of calls, frames arriving in between: the positions each direction visits on the tree are a prefix of the endless cyclic repetition from its first cursor, and each call scores, and hands to the handlers, what its round does after those before it |
| Schedulers.ZBProtoRR.OneLoop | gotcpip/src/tcpip/net/protocol/protocol_impl.go:127-156 | one call of such a run finds every queue of its direction with the arrived frames behind what it held, in order, and its score, deliveries and queues are those of its round |
| Scheduling.RoundVisits | gotcpip/src/tcpip/net/protocol/protocol_impl.go:127-156 | a call visits 1 to n protocols if the score is above 1 and none otherwise, consecutive in cyclic order from the cursor, none twice; the new cursor is the one after the last visited |
| Scheduling.RoundFunded | gotcpip/src/tcpip/net/protocol/protocol_impl.go:141-153 | also the last protocol a call visits was reached with more than one point left |
| Scheduling.AdvanceMeaning | gotcpip/src/tcpip/net/protocol/protocol_impl.go:143-148 | up to n steps from a position lead that many places on, the first place coming after the last |
| Scheduling.RoundConserves | gotcpip/src/tcpip/net/protocol/protocol_impl.go:127-197 | per protocol, frames handed over followed by frames left are the original queue; the score falls by exactly the positive results and is never negative |
| Scheduling.ScoreLeftMeansEmpty | gotcpip/src/tcpip/net/protocol/protocol_impl.go:127-197 | a returned score above 1 means every protocol was visited and every queue of the direction is empty |
| Fairness.RunIsCyclic | gotcpip/src/tcpip/net/protocol/protocol_impl.go:100-156 | over any run of calls in both directions, whatever budgets, queues and handlers, one direction's visits are a prefix of the endless cyclic repetition of the in-order sequence |
| Fairness.RunIsFair | gotcpip/src/tcpip/net/protocol/protocol_impl.go:100-156 | visit counts of any two protocols differ by at most one |
| Fairness.NoneStarves | gotcpip/src/tcpip/net/protocol/protocol_impl.go:100-156 | any n consecutive visits are exactly one to each protocol |
| Fairness.OtherDirectionInvisible | gotcpip/src/tcpip/net/protocol/protocol_impl.go:107-125 | calls in the other direction change nothing in what a direction visits |
| Checksums.NetworkOrder | gotcpip/src/tcpip/util/util.go:14-76 | reading two or four bytes in host order and converting gives their big-endian value |
| Checksums.StoredBigEndian | gotcpip/src/tcpip/util/util.go:70-79 | converting twice is the identity; a converted word lies in memory big-endian |
| Checksums.Checksum | gotcpip/src/tcpip/util/util.go:97-114 | with s the sum of the big-endian words modulo 2^32, the complement of the high half of s plus the low half, cut to 16 bits; before every turn the accumulator is the sum of the bytes before it, modulo 2^32 |
| Checksums.VerifyChecksum | gotcpip/src/tcpip/util/util.go:10-12 | whether that is zero, so whether the once-folded sum is 0xFFFF |
| Checksums.NoWrap | gotcpip/src/tcpip/util/util.go:97-108 | up to 65537 words the 32-bit sum is the true sum |
| Checksums.AccumulatorNeverWraps | gotcpip/src/tcpip/util/util.go:97-108 | nor does the accumulator wrap on the way: each of its values is the true sum of the bytes before it |
| Checksums.FillThenVerify | gotcpip/src/tcpip/util/util.go:10-12 | with a zero checksum word, storing the checksum makes verification succeed exactly when high half plus low half is at most 0xFFFF |
| Checksums.SingleFoldSuffices | gotcpip/src/tcpip/util/util.go:97-114 | the result is the fully folded Internet checksum exactly when high half plus low half is at most 0xFFFF |
| Checksums.OnesSumIsFold | gotcpip/src/tcpip/util/util.go:97-114 | full folding is the one's complement sum with end-around carries of section 1 of RFC 1071 |
| Checksums.FullFoldAlwaysVerifies | gotcpip/src/tcpip/util/util.go:97-114 | the fully folded checksum always verifies, so the missing second fold is the only cause of failure |
| Checksums.CarryExample | gotcpip/src/tcpip/util/util.go:97-114 | eight bytes whose filled-in checksum does not verify |
| IPSend.Send | gotcpip/src/tcpip/net/ip/ipconn.go:23-59 | byte by byte, the buffer ends with version, tos, total length, ident, fragment offset, ttl, protocol, header checksum, source and destination address at their places from the network index on, the transport checksum at its own, and nothing else changed; the outcome is that of the two verifications |
| IPSend.SentBytes | gotcpip/src/tcpip/net/ip/ipconn.go:25-42 | the same for the buffer as a value, with the transport checksum over the filled-in header and all that follows it |
| IPSend.HeaderUntouched | gotcpip/src/tcpip/net/ip/ipconn.go:41-56 | the transport fill never changes the header bytes that are verified |
| IPSend.SentExactly | gotcpip/src/tcpip/net/ip/ipconn.go:25-59 | with zero checksum fields the packet goes out exactly when, for the header sum and the whole sum, high half plus low half is at most 0xFFFF, and which failure ends the process otherwise |
| TcpOptions.OptionLengthBounds | gotcpip/src/tcpip/net/tcp/tcpconn.go:200 | with a data offset of at least 5 the area is the words beyond the fifth, at most 40 bytes |
| TcpOptionLaws.HeaderWord | gotcpip/src/tcpip/net/tcp/tcpconn.go:200 | the area is four times the upper half of the first of the two bytes, less 20, modulo 2^16, and SYN is the bit 0x02 of the second |
| TcpOptions.TCPOptionsReceived.tcpSackReset | gotcpip/src/tcpip/net/tcp/tcpconn.go:99-102 | clears dsack and num_sacks only |
| TcpOptions.TCPOptionsReceived.tcpClearOptions | gotcpip/src/tcpip/net/tcp/tcpconn.go:193-195 | clears the four negotiated fields only |
| TcpOptions.tcpParseOpt | gotcpip/src/tcpip/net/tcp/tcpconn.go:196-282 | from any option area inside the buffer it ends with the options and control block that the recursive reading of the option list gives, and looks behind the buffer exactly where Overruns says so |
| TcpOptionLaws.OverrunMeaning | gotcpip/src/tcpip/net/tcp/tcpconn.go:218-219 | that is exactly when the area ends with the buffer in whole options and one byte above 1 |
| TcpOptionLaws.ReadsWhatIsEncoded | gotcpip/src/tcpip/net/tcp/tcpconn.go:207-225 | the list read is exactly the one whose encoding starts the area, up to its end, an end marker, a size below 2 or a partial option |
| TcpOptionLaws.OnlyTheAreaMatters | gotcpip/src/tcpip/net/tcp/tcpconn.go:207-225 | no byte beyond the area decides anything |
| TcpOptionLaws.AfterTheEnd | gotcpip/src/tcpip/net/tcp/tcpconn.go:212-213 | bytes after an end marker are irrelevant |
| TcpOptionLaws.PaddingIsInvisible | gotcpip/src/tcpip/net/tcp/tcpconn.go:214-216 | what is received is a fold over the options other than NOP, wherever they stand |
| TcpOptionLaws.PaddingOnly | gotcpip/src/tcpip/net/tcp/tcpconn.go:214-216 | areas whose lists differ in NOPs only, however many and wherever, give the same received options, whatever is in the control block |
| TcpOptionLaws.NopInsertion | gotcpip/src/tcpip/net/tcp/tcpconn.go:214-216 | a NOP between whole options, the area one longer, changes nothing in what is received |
| TcpOptionLaws.SegmentSizeAgreed | gotcpip/src/tcpip/net/tcp/tcpconn.go:228-239 | with SYN the segment size becomes the smaller of any positive user size and the big-endian value of the last four-byte option of kind 2 that is not zero; without SYN or such an option it stays |
| TcpOptionLaws.WindowScaleAgreed | gotcpip/src/tcpip/net/tcp/tcpconn.go:240-252 | with SYN the last three-byte option of kind 3 turns scaling on, by its byte or 14, whichever is less; otherwise nothing changes |
| TcpOptionLaws.SackAgreed | gotcpip/src/tcpip/net/tcp/tcpconn.go:261-266 | selective acknowledgement is agreed on and its state cleared exactly when SYN comes with a two-byte option of kind 4; otherwise nothing changes |
| TcpOptionLaws.SackNoted | gotcpip/src/tcpip/net/tcp/tcpconn.go:267-272 | the control block gets the offset of the last option of kind 5 with whole blocks, 20 plus the bytes before it modulo 256, exactly when selective acknowledgement was agreed on by then |
| TcpOptionLaws.ParsedBounds | gotcpip/src/tcpip/net/tcp/tcpconn.go:227-266 | window scale at most 14 is kept; the segment size is unchanged or positive and at most any positive user size; without SYN nothing negotiated changes |
| TcpOptionLaws.SawTimestamp | gotcpip/src/tcpip/net/tcp/tcpconn.go:253-260 | a timestamp is reported exactly when agreed on and a ten-byte option of kind 8 is in the list, with the two big-endian values of the last one |

## Left out

- Node allocation and release: nodes are fresh objects, allocation never fails, and releasing a node is its removal from the tree.
- Where the source would follow a nil link or index out of range, the model returns at that point with a flag; what a recovered panic would find is not modelled.
- RBtrees.RBtree.Insert: a nil key is covered, but a tree that holds one is no longer ordered, so operations after that are not.
- TreeRuns.Run: runs use non-nil keys, for the same reason.
- Traversal.TreeFirstNode: a LEAF argument is excluded, as the source would follow its nil link; so the scheduler needs a non-empty tree.
- The branches of the two fix-up loops, the two halves of TreeNext and TreePrev, and single field writes are methods of their own here; the source has them in place.
- The comparator is any lawful total preorder on non-nil items; protocmp is not one, and ProtocolInit is left out with it, so the scheduler is given a tree directly and uses only its in-order sequence of distinct keys.
- Handlers: any behaviour, as an arbitrary sequence of results; they do not enqueue into the layer and direction being served.
- The queue functions are not in skb.go; they are modelled as first-in first-out, and no two protocols of a tree share a queue.
- Schedulers.ZBProtoRR.ZBProtocolGenericLoop: the nil result of roundrobinInit is not modelled, since a non-empty tree always gives a node.
- IPSend.Send: process exit after a failed verification is an outcome; the Ethernet send, logging and the error paths of the connection are not modelled.
- The pseudo-header of section 3.1 of RFC 793: Send sums the whole IP header plus segment, and only that is claimed.
- TcpOptions.tcpParseOpt: the option area must lie inside the buffer; a data offset that points beyond it is not modelled.
- The TCP connection loop, acknowledgements, the TCP and IP listeners, sockets, header printing and the reflection helpers.
- The copy of the tree under gotcpip/src/tcpip/rbtree, which is the same code.
