# Verified models of the toolbox

A Dafny model of the hard parts of a toolbox of hand-written C and C++ components, with proofs of what
they promise. `dafny verify dfyconfig.toml` checks everything.

- **AMQP 0-9-1** (`rabbitMQ_C/`): integers and strings on the wire (`Octets`), the table-free methods and the
  Basic properties (`AmqpCodec`), frames (`AmqpFrames`), their octets written out (`AmqpWire`), the
  incremental parser as a machine that takes one byte at a time (`AmqpParser`) and in the source's own form,
  buffer by buffer (`AmqpConnection`), the encoders filling a buffer (`AmqpWriter`), publishing and reading
  messages (`AmqpMessages`), and the page pool (`AmqpPool`). The class that takes pieces is proved to do what
  the byte machine does, so results depend on the bytes alone.
- **Search trees** (`DataStruct/`): red-black insertion on nodes with parent links (`RbTree`), the AVL tree
  as functions on values (`AvlTree`) and as linked nodes proved against them (`AvlNodes`, with
  `SortedEntries` for ordered entry lists), the plain tree's traversals and neighbour searches
  (`BinarySearchTree`), and its insertion and deletion on linked nodes (`BstNodes`).
- **Timing wheel** (`co/timewheel.c`): placement, cascades and the tick loop (`TimeWheel`).
- **Caches and index**: `LfuCache`, `LruCache`, `HashTable`. Each class refines a small specification.
- **WebSocket** (`include/`): client frames and the server's reading of them (`WsFrames`, `WsServer`), and
  the send queue in every interleaving with the lock-free scope counter (`SendQueue`, `ScopeRunner`).
- **Algorithms**: `Kmp`, `QuickSort`, `RadixSort`, with `Reordering` for permutations of a range. `Common` holds
  what several modules need.

Deviations of the code from its documentation that the proofs made exact:

- A slot of the timing wheel's first wheel that has fired once takes no further timer: a timer that reaches
  it later is lost. The condition is `TimeWheel.Dead`, shown at an input by `TimeWheel.SlotDiesAfterFiring`.
- A timer set 2^26 ms or more ahead is served or lost depending on the clock, and two lost ones in one slot
  hang the wheel; the condition is `TimeWheel.Serviceable`. The header file promises 49 days.
- AVL deletion can leave the tree unbalanced; the condition is `AvlTree.MeetsBadTie`. A later insertion
  into such a tree can go through a missing child; the condition is `AvlTree.Breaks`.
- The first frame of an AMQP connection loses its eighth byte; the condition is `AmqpParser.SurvivesFirst`.
- The last body frame of a publication is marked as followed by more data when the body comes out even.
- A publication whose properties are too long fails only after its method frame has gone out.
- A failed WebSocket write drops the items queued behind it without calling their callbacks.
- A write begun before or after a stop of the WebSocket server may still complete, at most one, and can be a
  header without its body.
- The message size limit of the WebSocket server also counts a control frame together with the fragments
  pending around it (`WsServer.PingCountsWithPending`), and a pong never carries the ping's payload.
- A message length among the last four below 2^64 makes the WebSocket server await too few bytes.

## Model

| member | source | states |
|---|---|---|
| RbTree.RBTree.Insert | DataStruct/RBTree.hpp:409-440 | insertion turns any valid tree into a valid red-black tree whose map is the old one with the key updated; the answer and the size tell whether the key is new |
| RbTree.RBTree.ReBalanceInsert | DataStruct/RBTree.hpp:687-758 | the fix-up loop ends, removes the one red-red clash, keeps order, links and entries, and leaves a black root and equal black counts |
| RbTree.RBTree.FixUnder | DataStruct/RBTree.hpp:705-755 | one turn of the fix-up: either the clash moves two levels up with two fewer red nodes, or it is gone |
| RbTree.RBTree.LeftRotate | DataStruct/RBTree.hpp:769-793 | in-place pointer updates amount to exactly one left rotation, parent links and root included |
| RbTree.RBTree.RightRotate | DataStruct/RBTree.hpp:800-819 | the mirror image |
| RbTree.RotatedLinked | DataStruct/RBTree.hpp:769-819 | a rotation keeps every parent and child link consistent and every key inside its interval |
| RbTree.RecolourStep | DataStruct/RBTree.hpp:710-718 | with a red uncle, recolouring keeps black counts and leaves at most one clash, at the grandparent |
| RbTree.InnerStep | DataStruct/RBTree.hpp:720-725 | the first rotation of the inner case keeps black counts and moves the clash to the outer case |
| RbTree.OuterStep | DataStruct/RBTree.hpp:726-729 | recolouring and the final rotation remove the clash and keep black counts |
| RbTree.AttachStep | DataStruct/RBTree.hpp:433-439 | a red leaf put in its place keeps order, links and black counts and clashes at most with its parent |
| RbTree.WholeTree | DataStruct/RBTree.hpp:7-14 | node-by-node invariants make the linked nodes a red-black tree in the sense of the header comment, holding exactly the indexed entries |
| RbTree.HeightIsLogarithmic | DataStruct/RBTree.hpp:7-14 | every red-black tree satisfies 2^height <= (n+1)^2, that is, height at most 2*log2(n+1) |
| RbTree.RBTree.SizeAndHeight | DataStruct/RBTree.hpp:7-14 | in every reachable state `size` is the number of keys and the height is logarithmic in it |
| RbTree.RBTree.Find | DataStruct/RBTree.hpp:374-386 | finds a key exactly when the tree's map has it, with its value |
| RbTree.RBTree.Locate | DataStruct/RBTree.hpp:418-427 | the descent ends at the key's node or at the free place where the key belongs |
| TimeWheel.TimerWheel.AddTimer | co/timewheel.c:20-52 | a timer is refused for a zero timeout, otherwise added once and nothing fires; below 256 ms, whether it will be lost can be seen at once from its slot |
| TimeWheel.TimerWheel.Add | co/timewheel.c:49-118 | the branches of placement put the timer into the slot `PlaceOf` names, or run its handler, and change nothing else; in a slot whose tail dangles the timer is lost |
| TimeWheel.PlacedWell | co/timewheel.c:68-98 | whichever wheel a branch picks for a new timer, the slot comes round no later than the expiry, and for a stray timer so early that the same slot will be picked again |
| TimeWheel.CascadeDown | co/timewheel.c:146-160 | a timer met by a cascade is not late and goes to a strictly lower wheel, or to another slot of the top one, or it is stray and comes back to the slot being drained |
| TimeWheel.FarLater | co/timewheel.c:161-184 | while the clock moves, a timer stays well placed except in the slot whose turn it is |
| TimeWheel.Carries | co/timewheel.c:161-184 | a wheel turns exactly when the one below has completed a round |
| TimeWheel.TimerWheel.SwitchWheel | co/timewheel.c:146-160 | draining a slot places every other timer again, duplicates none and leaves all wheels right; it never ends if and only if the slot holds two stray timers, and a single stray is lost |
| TimeWheel.DrainEnds | co/timewheel.c:150-157 | the drain loop, which walks the list it appends to, ends if and only if at most one of the timers is stray |
| TimeWheel.TimerWheel.SwitchOthWheel | co/timewheel.c:161-184 | after the cascades of a tick every wheel is right for that tick, unless the slot of the top wheel drained now holds two stray timers |
| TimeWheel.TimerWheel.FireDue | co/timewheel.c:192-214 | exactly the timers due in the slot fire, and a slot that fired is stale from then on, its head cleared and its tail dangling |
| TimeWheel.TimerWheel.Tick | co/timewheel.c:185-216 | the clock catches up with now, every step keeping all invariants; it never returns if and only if a slot of the top wheel that comes round by then holds two stray timers |
| TimeWheel.TimerWheel.ExactlyOnceOnTime | co/timewheel.c:185-216 | in every reachable state an added timer whose expiry has come has fired exactly once, at the tick equal to its expiry, if and only if it is not stray and no other timer added, not stray itself, falls due in the same slot before this one reaches the first wheel; otherwise it has not fired |
| TimeWheel.TimerWheel.DeadIsBlocked | co/timewheel.c:102-118 | whether a timer is dead is decided by what was added: by ids, times of adding and expiries alone, whether or not the timer in the way is served itself |
| TimeWheel.TimerWheel.DeadMeans | co/timewheel.c:102-118 | a timer is dead exactly when an earlier one fired from the same slot no later than this one reached it |
| TimeWheel.DeadSettled | co/timewheel.c:213 | what happens after the timer has reached the first wheel no longer changes whether it is dead |
| TimeWheel.SlotDiesAfterFiring | co/timewheel.c:213 | of a timer set for 1 ms and one set for 255 ms two ticks later, which share a slot, the first fires and the second never does |
| TimeWheel.TwoFarTimersHang | co/timewheel.h:59 | two timers of 2^27 ms set at time 0 hang the wheel at the tick 2^21, although 49 days are promised |
| AvlTree.InsertRefinesMap | DataStruct/AVL_Tree.hpp:555-603 | on every ordered tree with true heights, balanced or not, insertion comes to an end if and only if its path does not break; then it is a map update and keeps order and true heights |
| AvlTree.InsertLifts | DataStruct/AVL_Tree.hpp:570-595 | the condition read off the keys and heights on the path says exactly when a double rotation lacks its inner child |
| AvlTree.InsertKeepsAvl | DataStruct/AVL_Tree.hpp:555-603 | insertion into an AVL tree never breaks, keeps it an AVL tree and raises it by at most one |
| AvlTree.InsertBalances | DataStruct/AVL_Tree.hpp:555-597 | true heights, balance and the direction of growth are kept through at most one rotation |
| AvlTree.FixRightBalances | DataStruct/AVL_Tree.hpp:570-581 | the rotation chosen by comparing keys restores balance and true heights |
| AvlTree.FixLeftBalances | DataStruct/AVL_Tree.hpp:583-595 | the mirror image |
| AvlTree.InsertCanBreak | DataStruct/AVL_Tree.hpp:570-581 | a concrete AVL tree of fourteen keys where deleting 58 and then inserting the key 28 rotates through a missing child |
| AvlTree.SizeAtLeastFib | DataStruct/AVL_Tree.hpp:555-597 | a balanced tree of height h has at least Fib(h+2)-1 nodes |
| AvlTree.RotationsKeepEntries | DataStruct/AVL_Tree.hpp:497-548 | the four rotations keep the in-order entries |
| AvlTree.DeleteRefinesMap | DataStruct/AVL_Tree.hpp:617-696 | deletion takes exactly the key away and keeps order and true cached heights, on every ordered tree with true heights |
| AvlTree.DeleteBalance | DataStruct/AVL_Tree.hpp:672-696 | deletion keeps balance if and only if its path meets no tie that the double rotation resolves wrongly, and lowers the tree by one exactly when the heights on the path say so; both conditions look at the input tree only |
| AvlTree.DeleteCanUnbalance | DataStruct/AVL_Tree.hpp:679-685 | a concrete AVL tree from which deleting 60 leaves an unbalanced tree |
| AvlNodes.AVLTree.Insert | DataStruct/AVL_Tree.hpp:598-603 | the in-place insertion produces the tree of `AvlTree.Insert` on any tree where that does not break; the answer says whether the key is new |
| AvlNodes.AVLTree.Delete | DataStruct/AVL_Tree.hpp:606-612 | the in-place deletion produces the tree of `AvlTree.Delete`, which loses balance exactly in the bad ties |
| AvlNodes.AVLTree.InsertAt | DataStruct/AVL_Tree.hpp:555-597 | the recursion on nodes computes the specification and touches only nodes of its subtree and new ones |
| AvlNodes.AVLTree.DeleteAt | DataStruct/AVL_Tree.hpp:617-696 | the recursion on nodes computes the specification and touches only nodes of its subtree; every rotation finds its child |
| AvlNodes.AVLTree.RotateLeft | DataStruct/AVL_Tree.hpp:497-510 | link and height updates amount to one left rotation of the subtree |
| AvlNodes.AVLTree.RotateRight | DataStruct/AVL_Tree.hpp:516-529 | link and height updates amount to one right rotation |
| AmqpCodec.FieldsRoundTrip | rabbitMQ_C/amqp_framing.c:1609-2300 | for every argument list of a table-free method, decoding its encoding, met anywhere in the input, returns the arguments with booleans as 0 or 1 and consumes exactly the bytes written |
| AmqpCodec.BitsRoundTrip | rabbitMQ_C/amqp_framing.c:2117-2135 | packed booleans come back as 0 or 1 |
| AmqpCodec.PackedBit | rabbitMQ_C/amqp_framing.c:2129-2132 | boolean number i is bit i of the octet, counted from the lowest |
| AmqpCodec.UnpackedBit | rabbitMQ_C/amqp_framing.c:1098-1124 | and reading takes boolean number i from bit i |
| AmqpCodec.DecodedWasEncoded | rabbitMQ_C/amqp_framing.c:283-1404 | conversely, arguments decoded from any bytes have their C types and fit their length prefixes, decoding never reads past the input, and without booleans it accepts nothing but an encoding |
| AmqpCodec.FlagsRoundTrip | rabbitMQ_C/amqp_framing.c:2310-2328 | the chain of flag words is consumed exactly and gives the flags back up to the low bit of each word |
| AmqpCodec.FlagsExact | rabbitMQ_C/amqp_framing.c:2310-2328 | flags come back unchanged if and only if the low bit of each word already says whether another word follows |
| AmqpCodec.SameProperties | rabbitMQ_C/amqp_framing.c:2330-2424 | the replaced low bits never change which properties are present |
| Octets.BigEndianRoundTrip | rabbitMQ_C/amqp_connection.c:464-538 | big-endian integers of any width round-trip |
| AmqpWire.PublishBytes | rabbitMQ_C/amqp_framing.c:2117-2135 | the octets of basic.publish for all arguments: ticket, exchange, routing key, then mandatory in the lowest bit and immediate in the next |
| AmqpWire.DeliverBytes | rabbitMQ_C/amqp_framing.c:2154-2180 | the octets of basic.deliver: consumer tag, delivery tag, redelivered bit, exchange, routing key |
| AmqpWire.GetOkBytes | rabbitMQ_C/amqp_framing.c:2190-2212 | the octets of basic.get-ok |
| AmqpWire.ReturnBytes | rabbitMQ_C/amqp_framing.c:2136-2153 | the octets of basic.return |
| AmqpWire.AckBytes | rabbitMQ_C/amqp_framing.c:2218-2236 | the octets of basic.ack and basic.reject |
| AmqpWire.NackBytes | rabbitMQ_C/amqp_framing.c:2257-2267 | the octets of basic.nack |
| AmqpWire.TuneBytes | rabbitMQ_C/amqp_framing.c:1671-1690 | the octets of connection.tune and tune-ok |
| AmqpWire.CloseBytes | rabbitMQ_C/amqp_framing.c:1715-1786 | the octets of connection.close and channel.close |
| AmqpWire.FrameBytes | rabbitMQ_C/amqp_connection.c:464-538 | a frame is its type, channel and size in network order, the payload and the octet 206 |
| AmqpWire.HeaderBytes | rabbitMQ_C/amqp_connection.c:500-520 | a content header is class, weight 0 and body size, one flag word or two, and the properties |
| AmqpWire.PropertyPlace | rabbitMQ_C/amqp_framing.c:2342-2424 | a property present stands behind exactly as many others as have a higher flag bit |
| AmqpWire.HigherComesFirst | rabbitMQ_C/amqp_framing.c:2342-2424 | of two properties the one with the higher flag bit stands first |
| AmqpWire.EveryProperty | rabbitMQ_C/amqp_framing.c:2342-2424 | with every flag but the table's, the thirteen properties stand in their order with their types |
| AmqpFrames.FrameRoundTrip | rabbitMQ_C/amqp_connection.c:333-407 | a complete well-formed frame of any kind decodes to what was sent, in canonical form |
| AmqpFrames.HeaderRoundTrip | rabbitMQ_C/amqp_framing.c:1406-1582 | content headers with any Basic property set round-trip |
| AmqpFrames.MethodRoundTrip | rabbitMQ_C/amqp_framing.c:283-1404 | method frames round-trip for every table-free method |
| AmqpWriter.FrameToBytes | rabbitMQ_C/amqp_connection.c:464-538 | the writer leaves exactly the frame's bytes at the start of the buffer; it fails if and only if a string exceeds its length prefix, the buffer is too small, or the method or class is unknown |
| AmqpWriter.EncodeFields | rabbitMQ_C/amqp_framing.c:1609-2300 | arguments are written one after the other, nothing outside the range changes, and failure means exactly a string too long or too little room |
| AmqpWriter.EncodeField | rabbitMQ_C/amqp_framing.c:1636-1643 | one argument: the same, with the length prefix check |
| AmqpWriter.PackInto | rabbitMQ_C/amqp_framing.c:2117-2135 | or-ing shifted bits makes bit i of the octet boolean number i, and the octet the packed value |
| AmqpWriter.EncodeFlags | rabbitMQ_C/amqp_framing.c:2310-2328 | the do-while writes exactly the chain of flag words, or fails for want of room |
| AmqpWriter.EncodeProperties | rabbitMQ_C/amqp_framing.c:2302-2424 | flag words and properties are written, with the exact order of the error cases |
| AmqpParser.AnyCutsDeliver | rabbitMQ_C/amqp_connection.c:237-413 | any list of well-formed frames within frame_max, concatenated and cut anywhere, is delivered exactly, in order, and the parser ends idle |
| AmqpParser.CutsDoNotMatter | rabbitMQ_C/amqp_connection.c:237-413 | for any bytes from any state, any two cuts give the same frames and the same state, errors included |
| AmqpParser.AllDelivered | rabbitMQ_C/amqp_connection.c:237-413 | the byte machine delivers every list of fitting frames |
| AmqpParser.NeverAboveMax | rabbitMQ_C/amqp_connection.c:294-308 | whatever bytes come, from idle or from the start of a connection, the parser never holds or waits for a frame above frame_max, and no body it delivers comes from one |
| AmqpParser.FirstFrame | rabbitMQ_C/amqp_connection.c:284-330 | as the first frame of a connection, a frame arrives as it was sent if and only if it is a method or header, or a body beginning with a zero byte; the eighth byte is dropped |
| AmqpParser.VersionAnswer | rabbitMQ_C/amqp_connection.c:265-282 | a broker's answer of the letters AMQP and four octets, with any frames behind it, is delivered as the four octets and the frames |
| AmqpParser.VersionAnswerInPieces | rabbitMQ_C/amqp_connection.c:237-413 | the same however those bytes are cut |
| AmqpParser.OversizeRefused | rabbitMQ_C/amqp_connection.c:294-308 | a frame header announcing more than frame_max, or 2^31-1 and more, is an error before any further byte is taken |
| AmqpParser.OddFrames | rabbitMQ_C/amqp_connection.c:333-407 | a frame without 206 at its end is an error, one of unknown type is skipped |
| AmqpConnection.Connection.Feed | rabbitMQ_C/amqp.h:1188-1210 | a stream handed over in any pieces has the effect of the byte machine on the whole |
| AmqpConnection.Connection.HandleInput | rabbitMQ_C/amqp_connection.c:237-413 | one call consumes bytes up to the end of a frame at most and does on them what the byte machine does |
| AmqpConnection.Connection.HandleBody | rabbitMQ_C/amqp_connection.c:318-413 | the same from the second copy on |
| AmqpConnection.Connection.MoveToBody | rabbitMQ_C/amqp_connection.c:284-316 | size check, error and move to a block of the frame's size, of which only the header is filled |
| AmqpConnection.Connection.ConsumeData | rabbitMQ_C/amqp_connection.c:220-235 | as many bytes as are here and fit are appended to the buffer |
| AmqpMessages.Publisher.Publish | rabbitMQ_C/amqp_api.c:195-274 | sends basic.publish with ticket 0, the names and both flags, then the header with body size and properties, then the body cut into full pieces with one rest; it fails exactly when names or properties are too long or do not fit frame_max, and in the latter case the method has gone out alone |
| AmqpMessages.MethodOnTheWire | rabbitMQ_C/amqp_framing.c:2117-2135 | the first frame of a publication octet by octet, and when it can be sent, from the lengths of the names |
| AmqpMessages.HeaderOnTheWire | rabbitMQ_C/amqp_framing.c:2302-2424 | the second frame octet by octet, and when it can be sent |
| AmqpMessages.BodiesSent | rabbitMQ_C/amqp_api.c:242-271 | each piece goes out in its own body frame on the publication's channel, marked as followed by more exactly if it is a full one |
| AmqpMessages.WhatIsReceived | rabbitMQ_C/amqp_connection.c:345-385 | a receiver gets names, flags as 0 or 1, body size and all properties as they were published |
| AmqpMessages.Publisher.SendBody | rabbitMQ_C/amqp_api.c:242-271 | the loop sends a cut of the body: pieces of the usable size, only the last shorter, concatenating to the body |
| AmqpMessages.Publisher.SendFrame | rabbitMQ_C/amqp_connection.c:545-592 | the bytes handed to the socket are always the encodings of the frames sent so far |
| AmqpMessages.CutCount | rabbitMQ_C/amqp_api.c:242-271 | the number of body frames is the body length divided by the usable size, rounded up |
| AmqpMessages.LastMarkedMore | rabbitMQ_C/amqp_api.c:252-261 | the last body frame is wrongly marked as followed by more if and only if the body length is a multiple of the usable size |
| AmqpMessages.ReadMessage | rabbitMQ_C/amqp_consumer.c:194-303 | reassembly succeeds if and only if the frames begin with a whole message, whose body it returns; which error comes is determined by the first frame that does not fit, a close of channel or connection being told from other methods |
| AmqpMessages.PublishedIsRead | rabbitMQ_C/amqp_api.c:195-274 | what a publication sends, cut anywhere on its way, is parsed into the method with its arguments, the header with size and properties, and the pieces of the body in order: a whole message |
| AmqpMessages.WholeUnique | rabbitMQ_C/amqp_consumer.c:261-296 | only one prefix of the frames on a channel is a whole message |
| AmqpMessages.ReadPublished | rabbitMQ_C/amqp_consumer.c:194-303 | end to end: parsing the bytes of a publication, however cut, and reading the message returns the flags chained, the very properties and the very body that were published, takes all its frames and leaves the parser idle |
| AmqpPool.Pool.Alloc | rabbitMQ_C/amqp_mem.c:113-159 | blocks handed out between two recycles are pairwise disjoint, at 8-byte offsets inside their page or large block, and large enough if and only if the amount is at most 2^64-8; a page is made only when all kept pages are in use |
| AmqpPool.Pool.Recycle | rabbitMQ_C/amqp_mem.c:79-84 | a recycle keeps all pages and forgets all blocks |
| AmqpPool.Pool.RepeatedRoundReuses | rabbitMQ_C/amqp_mem.c:142-154 | a round that repeats the requests of an earlier one makes no new page |
| LfuCache.LFUCache.Get | LFU_Cache.h:35-42 | a get is one use of the key in the specification map, or a miss that changes nothing |
| LfuCache.LFUCache.Put | LFU_Cache.h:44-66 | a put updates, or adds after evicting the key with the smallest (count, last touch) pair when full |
| LfuCache.LFUCache.IncreaseFreq | LFU_Cache.h:69-83 | the key moves to the end of the next list, and the smallest frequency stays the true minimum |
| LfuCache.LFUCache.RemoveMinFreq | LFU_Cache.h:85-91 | the head of the smallest list is evicted, and it is the specification's victim |
| LfuCache.HeadIsVictim | LFU_Cache.h:85-91 | the oldest key of the smallest frequency is the one key less used, or used as often but longer ago, than every other |
| LfuCache.CallsDecide | LFU_Cache.h:35-91 | over every run the specification leaves no choice: the calls alone decide what is cached, the evicted keys included |
| LfuCache.UsesCounted | LFU_Cache.h:35-91 | over every run, a cached key's count is the number of calls that named it since it came in, and its time that of the last of them |
| LfuCache.OnlyLeastLeaves | LFU_Cache.h:54-66 | over every run, a key leaves only a full cache, for a new key, and only if every other key was named more often since it came in, or as often and later |
| LfuCache.CachedCount | LFU_Cache.h:44-66 | over every run the cache holds as many keys as the smaller of its capacity and the number of different keys put |
| LfuCache.ValueLastPut | LFU_Cache.h:35-66 | a cached key has the value it was last put with |
| LfuCache.StillLeast | LFU_Cache.h:69-83 | raising the minimum exactly when the last key at it moves keeps it the minimum |
| LfuCache.EraseStep | LFU_Cache.h:69-91 | erasing a key's cell keeps the lists a partition of the remaining keys, in order of last touch |
| LfuCache.AppendStep | LFU_Cache.h:58-82 | appending a fresh cell keeps the partition and the order |
| LruCache.LRUCache.Add | LRU_Cache.h:24-52 | adding is the specification's step, whose runs `LruCache.HeldIfRecent`, `LruCache.HeldCount` and `LruCache.HeldValue` describe by the operations alone |
| LruCache.LRUCache.GetVal | LRU_Cache.h:54-67 | a hit moves the key to the front and returns its value, a miss changes nothing |
| LruCache.HeldIfRecent | LRU_Cache.h:24-67 | over every run a key is cached if and only if it has been added and fewer than `capacity` different others have been touched since its last touch |
| LruCache.HeldCount | LRU_Cache.h:24-52 | over every run the cache holds as many keys as the smaller of its capacity and the number of different keys added |
| LruCache.HeldValue | LRU_Cache.h:24-67 | a cached key has the value it was last added with |
| LruCache.LRUCache.ValidIsProper | LRU_Cache.h:24-67 | what the list and the map hold is a proper cache: each key once, and within the capacity |
| LruCache.SmallerIsIncluded | LRU_Cache.h:24-67 | on every common trace, what a cache holds a larger one holds with the same value |
| LruCache.RunIncluded | LRU_Cache.h:24-67 | moreover the smaller cache's list is the larger one's with elements left out |
| LruCache.InTouchOrder | LRU_Cache.h:24-67 | in every reachable state the list has each key once and runs from the last touched to the longest untouched |
| HashTable.Table.Insert | hash_table.c:35-58 | insertion is a map update; entries stay in the bucket of their hash, keys unique, `use` exact, the load bound kept |
| HashTable.Table.GrowUp | hash_table.c:59-101 | growth starts at 32, doubles at three quarters, and the larger table holds the same map |
| HashTable.Table.Del | hash_table.c:103-126 | deletion takes exactly the key away |
| HashTable.Table.Find | hash_table.c:18-34 | finds a key exactly when the map has it |
| HashTable.SlotIsRemainder | hash_table.h:54 | masking with size-1 is the remainder, because sizes are powers of two |
| HashTable.Iterator.Next | hash_table.c:162-182 | successive calls return the entries of all buckets, in order, each once, and then nothing more |
| HashTable.AllIsMap | hash_table.c:162-182 | the entries so visited are the map: as many as `use`, each key once |
| WsFrames.Encode | include/client_ws.hpp:218-257 | the bytes written out: opcode byte, masked length in one of its three forms, the mask, and every bit of every payload byte added to the bit of its mask byte |
| WsFrames.ReadsWhatWasSent | include/server_ws.hpp:573-673 | any frame with any mask, met anywhere in the stream, is read back with exactly its bytes consumed, if it passes the size limit and its length is below 2^64-4 |
| WsFrames.MaskTwice | include/server_ws.hpp:690-692 | unmasking undoes masking |
| WsFrames.XorBit | include/client_ws.hpp:257 | every bit of an exclusive or is the sum of the two bits modulo 2 |
| WsFrames.MaskedBit | include/server_ws.hpp:690-692 | so is every bit of byte j, with mask byte j modulo 4 |
| WsServer.StreamDelivered | include/server_ws.hpp:573-755 | a well-formed stream of masked frames that pass the size check delivers exactly its messages, in order |
| WsServer.StreamClosed | include/server_ws.hpp:667-703 | with a close frame after it, the stream's messages are delivered, then the closing with its status and reason, and no later byte is looked at |
| WsServer.CloseServed | include/client_ws.hpp:267-282 | the status and reason a client sends in a close frame are those the server's application is told |
| WsServer.ControlServed | include/server_ws.hpp:705-735 | a ping (137) is answered with 138, a pong (138) is reported, exactly its bytes are taken and nothing else changes, within the size limit |
| WsServer.Refused | include/server_ws.hpp:589-662 | a frame without mask closes with 1002, one over the limit with an error and 1009 |
| WsServer.ServesMessages | include/server_ws.hpp:676-755 | control frames between fragments change no message; an unfinished message stays pending |
| WsServer.FragmentsConcatenate | include/server_ws.hpp:676-692 | a message cut into fragments arrives as one message: the concatenation of the fragments, under the first one's first byte with 128 added if it was lacking |
| WsServer.FragmentsJoin | include/server_ws.hpp:676-692 | a message already begun is completed by the fragments that follow, whatever control frames stand between them, and keeps its first byte |
| WsServer.NothingLost | include/server_ws.hpp:676-755 | a complete stream delivers, byte for byte, what its data frames carry |
| WsServer.NeverTooBig | include/server_ws.hpp:655-662 | whatever bytes arrive, no delivered message exceeds the maximum size |
| WsServer.Session.ReadMessage | include/server_ws.hpp:573-653 | one turn of the read loop on the byte stream |
| WsServer.Session.Handle | include/server_ws.hpp:676-755 | what is done with a frame read in full |
| WsServer.Session.Serve | include/server_ws.hpp:573-755 | the whole life of a connection is the turns of the loop |
| ScopeRunner.StopIsFinal | include/utility.hpp:312-354 | in every interleaving, once stop has returned no thread holds a lock, then or ever after |
| ScopeRunner.RefusedOnlyIfStopped | include/utility.hpp:332-342 | a lock is refused only after some stop has succeeded |
| ScopeRunner.LeavesRefused | include/utility.hpp:332-342 | on every run, after a stop a thread trying for the lock is refused at the latest with its second try, whatever others do in between |
| ScopeRunner.FailureMeansProgress | include/utility.hpp:332-342 | the lock is lock-free: a try fails, but for spurious failures, only because another thread has changed the counter since this one last looked |
| ScopeRunner.StepKeeps | include/utility.hpp:312-354 | every atomic operation keeps the counter equal to the locks held, or -1 for good |
| SendQueue.OneWriteAtATime | include/server_ws.hpp:224-256 | in every interleaving at most one start or write is outstanding, one only if something is queued, and a running start finds something to write |
| SendQueue.WireInSendOrder | include/server_ws.hpp:224-304 | until a write fails the wire is a prefix of all items in send order, each header directly followed by its body |
| SendQueue.NeverStalls | include/server_ws.hpp:224-256 | while something is queued a start or write is outstanding, unless a stop was met |
| SendQueue.SilentAfterStop | include/server_ws.hpp:228-249 | once a stop has returned no completion handler does anything and no callback is made |
| SendQueue.AtMostOneChunkAfterStop | include/server_ws.hpp:224-256 | after a stop the wire grows by at most one chunk: the write under way, or one that a posted start still begins |
| SendQueue.ChunkMayFollow | include/server_ws.hpp:224-256 | after a stop a chunk can still follow if and only if no handler is at the lock or was refused; without further calls of send, if and only if a write is under way or, with no handler there, a task is posted |
| SendQueue.HeaderAfterStop | include/server_ws.hpp:224-256 | a history in which that chunk is a header, sent after the stop, whose body never follows |
| SendQueue.FailureDropsQueue | include/server_ws.hpp:244-253 | where no item is sent twice, an item behind the front when a failed write is handled is then and ever after neither on the wire nor called back |
| SendQueue.EveryItemAccounted | include/server_ws.hpp:224-304 | in every interleaving, failures included, each item sent is called back, queued, posted or dropped, once for each time it was sent; what is on the wire was called back or is at the front |
| SendQueue.NextGood | include/client_ws.hpp:184-207 | every step keeps the invariant, for messages written in any number of parts |
| Kmp.GetNext | Algorithm/KMP_Algorithm.cpp:60-92 | the table holds the longest proper border of every prefix; at most twice as many turns as characters |
| Kmp.StrStr | Algorithm/KMP_Algorithm.cpp:104-137 | the first occurrence, or -1 exactly when there is none; at most twice as many turns as the text has characters |
| Kmp.Shift | Algorithm/KMP_Algorithm.cpp:119-126 | after a mismatch no start between the old and the new one can match |
| Kmp.Fallback | Algorithm/KMP_Algorithm.cpp:77-82 | after a mismatch the next candidate is the longest border of the border |
| QuickSort.BetterQuickSort3 | Sort/quick_sort.c:247-253 | the array is sorted and a permutation of what it was, and calls nest at most log2(n)+1 deep |
| QuickSort.Sort3 | Sort/quick_sort.c:279-324 | the same for a range, leaving the rest alone |
| QuickSort.Partition | Sort/quick_sort.c:255-278 | the moving hole splits the range around the pivot and only reorders it |
| QuickSort.DealRepeat | Sort/quick_sort.c:212-245 | three regions strictly below, equal to and strictly above the pivot |
| QuickSort.ChooseRight | Sort/quick_sort.c:111-130 | the median of the first, middle and last element goes to the right end |
| RadixSort.RadixSortLSD | Sort/radix_sort.c:9-82 | the array is sorted and a permutation of what it was, negative values included, whenever lowering by a negative minimum stays within `int`, which is decided exactly |
| RadixSort.RadixSortMSD | Sort/radix_sort.c:85-115 | the same, from the first digit |
| RadixSort.Distribute | Sort/radix_sort.c:37-61 | the counting loops produce the stable reordering by one digit and leave each bucket's beginning |
| RadixSort.PassSorts | Sort/radix_sort.c:35-68 | a pass over a list sorted modulo n leaves it sorted modulo ten times n |
| RadixSort.PassPermutes | Sort/radix_sort.c:35-68 | a pass loses and invents nothing |
| RadixSort.OnePass | Sort/radix_sort.c:35-68 | one turn of the loop, on the buffers |
| RadixSort.MsdRecursive | Sort/radix_sort.c:116-164 | a range whose values share all higher digits is sorted in place, the rest untouched |
| RadixSort.SortedIsUnique | Sort/radix_sort.c:9-164 | there is only one sorted arrangement, so both sorts give the same array |
| BinarySearchTree.NoRecursiveInorder | DataStruct/BinarySearchTree.hpp:509-551 | visits the keys of the recursive traversal; the stack index stays within the tree's size |
| BinarySearchTree.NoRecursivePreorder | DataStruct/BinarySearchTree.hpp:466-506 | the same for the pre-order |
| BinarySearchTree.NoRecursivePostorder | DataStruct/BinarySearchTree.hpp:554-587 | the same for the post-order, with its flags |
| BinarySearchTree.GetPreNode | DataStruct/BinarySearchTree.hpp:212-279 | finds the largest smaller key, exactly when the key is in the tree and a smaller one exists |
| BinarySearchTree.GetNextNode | DataStruct/BinarySearchTree.hpp:280-342 | finds the smallest larger key, under the same condition |
| BstNodes.BinarySearchTree.Insert | DataStruct/BinarySearchTree.hpp:167-196 | the loop over the linked nodes, ending in one changed link: a key already there is refused and nothing changes; otherwise the ordered entries become the old ones with the new entry in its place, and the map gains the key |
| BstNodes.BinarySearchTree.DeleteNode | DataStruct/BinarySearchTree.hpp:390-447 | exactly the key goes, order stays, the store holds the remaining nodes and no others, and the answer says whether the key was there |
| BstNodes.BinarySearchTree.SwapWithPredecessor | DataStruct/BinarySearchTree.hpp:411-427 | the walk ends at the node just before in order, which has no right child; after the exchange, leaving that node out is leaving the key out |
| BstNodes.BinarySearchTree.Unlink | DataStruct/BinarySearchTree.hpp:428-447 | a node with at most one child is taken out of the sequence of nodes, the others keep their order and contents |
| BstNodes.ReplaceNodes | DataStruct/BinarySearchTree.hpp:436-443 | hanging another subtree on a link replaces just the part of the node sequence below that link |
| BstNodes.Relinked | DataStruct/BinarySearchTree.hpp:436-443 | changing one link of the parent, and no other link outside the part replaced, gives the tree with that part replaced |
| BstNodes.UnderSide | DataStruct/BinarySearchTree.hpp:438-442 | comparing the parent's left link with the node tells on which side it hangs |
| BstNodes.TreeOfOrdered | DataStruct/BinarySearchTree.hpp:677-700 | walking the linked nodes in order gives the ascending keys of the entries, and the tree meets what the neighbour searches need |

## Left out

- Red-black deletion and the tree self-checkers: one case of the deletion recolours against its own comment, and the checkers do not compute what they are named for.
- Nodes of the red-black, AVL and plain trees are cells of a map from pointers held in the tree object, not heap objects of their own: aliasing between different trees is not captured.
- The plain tree's level-order traversal: easier than the three that are proved; the traversals and neighbour searches read the tree as a value, which `BstNodes.TreeOfOrdered` ties to the linked nodes.
- Repeating timers and removal of a timer: only one-shot timers are modelled.
- TimeWheel.TimerWheel.Add: the write through the dangling tail of a stale slot goes to freed memory and is modelled as having no effect. Where the allocator has given that memory to another timer, the write can link the dead timer into another slot's list or cut off the timers behind the other one; `TimeWheel.TimerWheel.ExactlyOnceOnTime` holds as long as it does not.
- Handlers that add timers while their slot is being fired.
- TimeWheel.TimerWheel.AddTimer: requires a timeout below 2^31, because the difference of times is kept in an `int`.
- The assertion of balance after every insertion (DataStruct/AVL_Tree.hpp:603), which stops a debug build on trees that a deletion has left unbalanced.
- AvlNodes.AVLTree.Insert: requires that the path does not break, since the source then reads through a null pointer; when that is, is decided exactly by `AvlTree.InsertRefinesMap`.
- Linked lists (timer slots, cache lists, hash chains) are sequences of cells with explicit identities, not heap cells.
- Field tables, and therefore the nine methods (start, start-ok, declaring, binding and unbinding exchanges and queues, consume) and the header property that carry one; heartbeats, login and remote calls.
- A method payload shorter than 4 bytes or a header payload shorter than 12 is reported as bad data; the source would compute a wrapped length first.
- Flag words beyond the second: the source shifts a 32-bit value past its width; the model keeps the bits.
- The driver that hands received bytes to the parser (amqp_socket.c) is not part of this model: `AmqpConnection.Connection.Feed` follows the contract documented in rabbitMQ_C/amqp.h. Partial socket writes, deadlines and heartbeats of `amqp_send_frame_inner` are not modelled; the socket takes everything.
- AmqpMessages.Publisher.Publish: requires frame_max of at least 20, where the protocol's least value is 4096: below 20 the room that the source computes for a header's properties wraps around, and with 8 or less its loop would not end. The body's cutting and rebuilding (`AmqpMessages.CutCount`, `AmqpMessages.PublishedIsRead`) hold for every frame_max above 8.
- Failure of memory allocation, everywhere.
- Wrap-around of machine integers except where a contract states it: `AmqpPool.Pool.Alloc`, `WsFrames.OneFrameConsumed`, the size check of `WsFrames.ReadFrame` and the range check of the radix sorts model it; clocks and counters do not.
- RadixSort.RadixSortLSD: says nothing of the array when the shift overflows, which is undefined in C; the same for `RadixSort.RadixSortMSD`.
- AmqpWriter.FrameToBytes: requires a buffer of at least 20 bytes and a body that fits, since the source writes without a check otherwise.
- Caches of capacity zero and deletion from a hash table that never held anything are excluded by preconditions, since the source reads through missing cells there.
- HashTable.Table.Insert: modelled below 3*2^29 entries, before the 32-bit size would overflow; the same for `HashTable.Table.GrowUp`.
- WsServer.Turn: after a length read wrongly the model reports an error and closes, while the source goes on to copy the announced number of bytes from an exhausted buffer.
- `hash_table_get_iterator`, which has no return statement; `HashTable.Iterator` begins where it would.
- Hash table keys are compared with equality; a comparison coarser than the hash function (string keys compared without case) is not modelled.
- The server's frames to the client and the client's reading of them; the handshake; timeouts; the text of close reasons sent by the server itself.
- Malformed fragment sequences are modelled and bounded by `WsServer.NeverTooBig`, but no meaning is claimed for them; opcodes other than text, binary, continuation, close, ping and pong are likewise outside `WsServer.WellFormed`.
- A failed socket write leaves nothing on the modelled wire; how much of the piece was sent is not modelled.
- Sockets, TLS, event loops, coroutines, service clients, logging, configuration, the remaining sorts and the short exercise algorithms.
