# Verified core of libhv

A Dafny model of the hand-written data structures, protocols and stream parsers of libhv, with
proofs of what each of them keeps. `dafny verify dfyconfig.toml` checks everything.

| files | what they model |
|---|---|
| `RbShape`, `RbColor`, `RbLink`, `RbTree` | the red-black tree of `base/rbtree.c`: memory as a map from addresses to nodes, a functional tree with a zipper as its ghost view |
| `SockAddr`, `Rudp` | `sockaddr_compare` and the map of `event/rudp.c` over it |
| `HeapShape`, `Heap` | the linked heap of `base/heap.h`: the ghost view is the sequence of slots of the complete tree |
| `LoopModel`, `Trace`, `Loop`, `TimerRun` | timers, idles, pending lists and dispatch of `event/hloop.c`; a trace of calls and frees for one round, and timers and idles over any number of rounds |
| `Codec`, `UnpackSpec`, `UnpackFrames`, `UnpackStall`, `Unpack` | length codings, the three unpackers, frames as senders write them, packages of length 0 and the read buffer |
| `Queue`, `Posting`, `WritePath` | `base/queue.h`, posting across threads as a state machine, the stream write path |
| `MultipartSpec`, `MultipartCuts`, `MultipartParts`, `MultipartGrammar`, `Multipart` | `http/multipart_parser.c`: a byte-by-byte machine, the effect of cuts, the data of parts, the bodies it reads and the bytes it refuses, and the parser itself |
| `FormText`, `FormSpec`, `FormRead`, `FormRound`, `Form` | the printer and the callbacks of `http/http_content.cpp`, forms of any sender, and the round trip |
| `LruSpec`, `LruOrder`, `Lru` | `cpputil/LRUCache.h` |
| `Watch`, `Poll`, `Kqueue` | the index maintenance of `event/poll.c` and `event/kqueue.c` under `hio_add` and `hio_del` |
| `Dates` | `base/htime.c` |
| `Basics` | bytes, addresses, concatenation |

What an allocator returns, what the kernel answers, the clock, `cron_next_timeout` and what callbacks
do are parameters of the methods, so the contracts hold for all of them. Callbacks that only receive
data are recorded in a log.

Some results say when the code does not do what one may expect of it:

- IPv6 peers that differ only after the first four address bytes share one rudp entry
  (`SockAddr.Ipv6PeersCollide`), so the map is stated over the classes of `sockaddr_compare`.
- A timer added with repeat 0 never ends (`TimerRun.NeverFreed`).
- A length field for which the 32-bit package length comes out as 0 stops the unpacker from advancing.
  `UnpackStall.EmptyPackage` says exactly when, for every coding and adjustment, and
  `UnpackStall.StallFree` for which settings no stream can have one. The recommended setting, the MQTT
  setting and the adjustment for lengths that include the head can (`RecommendedStalls`, `MqttStalls`,
  `WholeLengthStalls`). `HandleRead` states that the loop does not end exactly then.
- A multipart header line without a colon loses its name or not depending on where the body was cut;
  `MultipartCuts.CutsMatter` gives the exact condition and `CutsCanMatter` such a body.
- The multipart parser accepts nothing before the first delimiter, where section 5.1.1 of RFC 2046
  allows a preamble (`MultipartParts.NoPreamble`); the model follows the code.
- A multipart header line with an empty value makes the header after it unrecognisable, because its name is
  kept and put before the next one (`FormRead.EmptyValueSticks`).
- `hio_add` with events of which the io already has one registers none of the others; the contracts of
  `HioAdd` state this.
- The inclusion of a smaller LRU cache in a larger one also survives `remove` and `remove_if`.
- Names and file names in a printed form may contain quotes: only the outer pair is stripped.

## Model

| member | source | states |
|---|---|---|
| `RbTree.RbRoot.RotateLeft` | base/rbtree.c:25-43 | pointer rewriting at any node of any well-linked tree yields exactly the left rotation, with consistent parent links above and below, and writes to nodes of the tree only |
| `RbTree.RbRoot.RotateRight` | base/rbtree.c:45-63 | the mirror image: exactly the right rotation, parent links consistent, nothing else written |
| `RbTree.RbRoot.FlipColors` | base/rbtree.c:77-84 | uncle, parent and grandparent are recoloured and the tree stays linked |
| `RbTree.RbRoot.InsertStepLeft` | base/rbtree.c:73-98 | one turn with the parent a left child: the only possible violation is again one red node under a red parent, strictly nearer the root, and the in-order sequence is the same |
| `RbTree.RbRoot.InsertStepRight` | base/rbtree.c:99-124 | the same for a parent that is a right child |
| `RbTree.RbRoot.InsertColor` | base/rbtree.c:65-128 | a red leaf in any hole of a red-black tree: the loop ends, the result is red-black and linked, and the in-order sequence is the old one with the node at its place |
| `RbTree.RbRoot.EraseRedSiblingLeft` | base/rbtree.c:139-146 | a red sibling is rotated up; the new sibling is its left child |
| `RbTree.RbRoot.EraseNearNephewLeft` | base/rbtree.c:158-167 | the near nephew is rotated over the sibling |
| `RbTree.RbRoot.EraseFarNephewLeft` | base/rbtree.c:168-172 | the far nephew case ends with the rotated and recoloured subtree |
| `RbTree.RbRoot.EraseRedSiblingRight` | base/rbtree.c:179-186 | mirror image of the red-sibling case |
| `RbTree.RbRoot.EraseNearNephewRight` | base/rbtree.c:198-207 | mirror image of the near-nephew case |
| `RbTree.RbRoot.EraseFarNephewRight` | base/rbtree.c:208-212 | mirror image of the far-nephew case |
| `RbTree.RbRoot.EraseBlackNephews` | base/rbtree.c:152-154 | the sibling turns red and the missing black height moves up one level |
| `RbTree.RbRoot.EraseFinishLeft` | base/rbtree.c:156-175 | with a red nephew the loop ends at once in a red-black tree with the same in-order sequence |
| `RbTree.RbRoot.EraseFinishRight` | base/rbtree.c:196-215 | mirror image |
| `RbTree.RbRoot.EraseStepLeft` | base/rbtree.c:137-176 | one turn: either the whole tree is red-black, or one black is still missing strictly higher up; the in-order sequence is the same |
| `RbTree.RbRoot.EraseStepRight` | base/rbtree.c:177-216 | mirror image |
| `RbTree.RbRoot.EraseColor` | base/rbtree.c:130-220 | from any tree that is short of one black node at one place the loop ends in a red-black tree with the same in-order sequence |
| `RbTree.RbRoot.Successor` | base/rbtree.c:235-237 | the descent ends at the leftmost node of the right subtree, and describes its place |
| `RbTree.RbRoot.ReplaceBySuccessor` | base/rbtree.c:238-273 | the successor is cut out and takes the links and colour of the erased node, also when it is its right child |
| `RbTree.RbRoot.EraseInner` | base/rbtree.c:231-274 | erasing a node with two children |
| `RbTree.RbRoot.EraseOuter` | base/rbtree.c:276-293 | erasing a node with at most one child |
| `RbTree.RbRoot.Erase` | base/rbtree.c:222-294 | for every red-black tree and every node in it: the result is red-black and linked, its in-order sequence is the old one without exactly that node, and no other memory is written |
| `RbTree.RbRoot.LinkNode` | base/rbtree.h:140-147 | the node becomes a red leaf of the given hole |
| `RbTree.RbRoot.Insert` | event/rudp.c:53-56 | rb_link_node followed by rb_insert_color at any hole: red-black again, the node inserted at that in-order place |
| `RbColor.HeightBound` | base/rbtree.c:65-128 | every red-black tree with n nodes and height h has 2^h at most (n+1)^2, so h is at most 2*log2(n+1) |
| `SockAddr.CompareByKey` | base/hsocket.c:179-197 | sockaddr_compare is the lexicographic order on a key: family, port and the first four address bytes for IPv4 and IPv6, all bytes for other families |
| `SockAddr.MemCmpTransitive` | base/hsocket.c:179-197 | the order is transitive |
| `SockAddr.MemCmpOpposite` | base/hsocket.c:179-197 | exchanging the arguments negates the result |
| `SockAddr.SameEntry` | base/hsocket.c:179-197 | two addresses compare equal exactly when they have the same key, and copying an address keeps its key |
| `SockAddr.Ipv6PeersCollide` | base/hsocket.c:189-195 | two addresses of which one is IPv6 compare equal exactly when family, port and the first four bytes of the address agree; for every such address there is a different one that compares equal |
| `SockAddr.Ipv4Peers` | base/hsocket.c:182-188 | an IPv4 address compares equal to another one exactly when the first eight bytes, family, port and address, agree |
| `SockAddr.OtherPeers` | base/hsocket.c:196 | an address of another family compares equal only to itself |
| `SockAddr.FamilyThenPort` | base/hsocket.c:180-194 | the sign of the result: the family decides, then for IPv4 and IPv6 the port |
| `SockAddr.ThenAddress` | base/hsocket.c:187-196 | then the first differing byte among the four that are read, or among all for other families |
| `SockAddr.CopiedWhole` | event/rudp.c:114-119 | a new entry keeps the sixteen bytes of an IPv4 address, and all bytes of any other |
| `Rudp.Rudp.Insert` | event/rudp.c:33-58 | succeeds exactly when the map has no entry for the key, and then adds it |
| `Rudp.Rudp.Search` | event/rudp.c:60-78 | returns the entry of the key exactly when the map has one, and null otherwise, after t turns with 2^t at most (n+1)^2 for n entries |
| `Rudp.Rudp.Remove` | event/rudp.c:80-90 | takes the entry of the key out of the map and returns it |
| `Rudp.Rudp.Get` | event/rudp.c:92-125 | returns the entry of the key or adds one; a key never has two entries |
| `Rudp.Rudp.Del` | event/rudp.c:127-137 | removes and frees the entry of the key, if there is one |
| `Rudp.Rudp.Cleanup` | event/rudp.c:21-31 | ends, empties the map and frees every entry exactly once |
| `Rudp.Descend` | event/rudp.c:39-51 | the descent over link slots finds the entry of an equal key, or the hole where the key belongs in the order, in at most as many turns as the tree is high |
| `Heap.Heap.Swap` | base/heap.h:45-74 | swapping a node with its child exchanges two slots of the complete tree and nothing else |
| `Heap.Heap.PathTo` | base/heap.h:79-85 | the bits of the count lead from the root to the slot with that number |
| `Heap.Heap.Walk` | base/heap.h:87-93 | following the bits ends at the parent of the slot |
| `Heap.Heap.Replace` | base/heap.h:29-43 | the replacement takes exactly the slot of the node it replaces, also when it is that node |
| `Heap.Heap.SiftUp` | base/heap.h:101-106 | a node smaller than its ancestors is moved up until the heap order holds, with the same members |
| `Heap.Heap.SiftDown` | base/heap.h:152-161 | a node larger than its children is moved down until the heap order holds, with the same members |
| `Heap.Heap.Insert` | base/heap.h:76-107 | the linked tree is again the complete tree of one more slot, in heap order, with exactly the node added |
| `Heap.Heap.PutLast` | base/heap.h:148-149 | the last node takes the links and the slot of the removed one, also when the removed one is the last |
| `Heap.Heap.Remove` | base/heap.h:109-166 | for any member, also the last slot and its parent, by one path: the complete tree of one slot less, in heap order, with exactly the node removed and its links cleared |
| `Heap.Heap.Dequeue` | base/heap.h:168-170 | removes the root, which is at most every other member |
| `Heap.RootLeast` | base/heap.h:29-166 | the root of a heap is at most every member |
| `HeapShape.RootMinimal` | base/heap.h:76-107 | the order between parents and children makes the first slot minimal |
| `HeapShape.SwapLinked` | base/heap.h:45-74 | the pointer writes of a swap give the linked tree of the swapped slots |
| `Loop.Loop.TimerAdd` | event/hloop.c:675-693 | a new timer joins the heap with its rounded due time; a zero timeout adds nothing |
| `Loop.Loop.PeriodAdd` | event/hloop.c:721-742 | a new period timer joins the wall-clock heap; a field out of range adds nothing |
| `Loop.Loop.IdleAdd` | event/hloop.c:650-660 | a new idle joins the list |
| `Loop.Loop.Del` | event/hloop.c:744-759 | deleting an event unlinks it at once; it is freed at once only when it is not pending |
| `Loop.Loop.EventPending` | event/hevent.h:262-271 | an event that is not pending goes to the head of the list of its priority; a pending one stays where it is |
| `Loop.Loop.Rearm` | event/hloop.c:71-85 | the root of the heap is taken out and put back with its next due time |
| `Loop.Loop.FireTimer` | event/hloop.c:58-88 | one due timer is counted down, destroyed or re-armed, and made pending |
| `Loop.Loop.ProcessHeap` | event/hloop.c:55-91 | a pass ends, fires exactly the timers that were due at its start, each once, leaves every remaining timer later than now, and returns their number |
| `Loop.Loop.ProcessIdles` | event/hloop.c:34-53 | every idle of the list is counted down and made pending once |
| `Loop.Loop.Act` | event/hloop.c:675-759 | one call of a callback: an event that it does not delete keeps its kind, priority, repeat count and due time, and the events still to be visited stay in place |
| `Loop.Loop.RunCallback` | event/hloop.c:121-124 | the same for a callback that adds and deletes timers and idles in any order |
| `Loop.Loop.Call` | event/hloop.c:119-124 | the event at the head is called when it is active and skipped otherwise |
| `Loop.Loop.Leave` | event/hloop.c:125-131 | the visited event leaves the list, and is freed when it is marked for destruction; all other events keep their fields |
| `Loop.Loop.DispatchList` | event/hloop.c:117-133 | one priority list is visited in order to its end, and events that no callback deletes keep their fields and due times |
| `Loop.Loop.ProcessPendings` | event/hloop.c:109-137 | for arbitrary callbacks: every event pending at the start is visited once, in the order of the lists; it is called exactly when it was active and no callback has deleted it; memory is freed only while allocated; nothing stays pending or doomed; an event of the start is freed only if it was doomed or deleted, and otherwise keeps kind, priority, repeat count and due time |
| `Loop.Loop.ProcessEvents` | event/hloop.c:140-191 | one round, for arbitrary callbacks: the trace has all properties of the dispatch pass, visits every pending event once by falling priority and every due timer; each timer is called once exactly when it is due, unless a callback deletes it, is freed exactly when its repeat count ran out or it was deleted, and otherwise has the counted-down repeat and the next due time; when nothing was pending and no timer was due, the same holds of each idle, and in any other round the idles are left alone |
| `Loop.IdlesLeft` | event/hloop.c:175-184 | the timer passes leave the idles alone, and something is pending after them exactly when something was before or a timer was due |
| `Loop.IdlesDone` | event/hloop.c:34-53 | the idle pass fires every idle that is not marked for destruction |
| `Loop.PassReadied` | event/hloop.c:55-91 | a timer pass does to each timer of its heap what the one-timer model does, and nothing to the others |
| `Loop.TimersReadied` | event/hloop.c:93-98 | the two passes of a round together do this to every timer, each by its own clock |
| `Trace.OrderSorted` | event/hloop.c:109-137 | the order of a pass has no event twice and never goes up in priority |
| `Trace.CalledOnce` | event/hloop.c:109-137 | a dispatch pass calls an event at most once, and exactly once if it is pending, active and not deleted |
| `Trace.RoundOver` | event/hloop.c:109-191 | what the timer passes leave of a timer and what the dispatch pass keeps give the outcome of the round for it |
| `Trace.IdleOver` | event/hloop.c:109-191 | the same for an idle |
| `Trace.DeletedKept` | event/hevent.h:283-289 | deleting an event that is pending keeps its memory until it has been visited |
| `Trace.DeletedFreed` | event/hevent.h:283-289 | deleting an event that is not pending frees it once |
| `LoopModel.Push` | event/hevent.h:262-271 | pushing an event on its list keeps the lists in agreement with the pending flags |
| `LoopModel.NextDueOnGrid` | event/hloop.c:74-76 | the next due time is the old one plus whole periods |
| `LoopModel.FirstDueEarly` | event/hloop.c:684-688 | the first due time is at most the requested one and less than 100 ms before it; it is exact below one second and for times that are not multiples of 100 ms, and a multiple of 100 ms otherwise |
| `TimerRun.Rounds` | event/hloop.c:469-484 | over any number of rounds with arbitrary callbacks, every timer follows the one-timer run, and every idle the one-idle run, round by round, until it is freed |
| `TimerRun.TimersKept` | event/hloop.c:469-484 | what each round promises adds up to the run of a timer, for every prefix of the rounds |
| `TimerRun.IdlesKept` | event/hloop.c:469-484 | the same for an idle, which is due in the quiet rounds |
| `TimerRun.Later` | event/hloop.c:469-484 | a run may be taken up at any round, so timers and idles that callbacks add are followed from their round on |
| `TimerRun.IdleCalls` | event/hloop.c:34-53 | an idle with repeat N is called at most in the first N quiet rounds, once in each, and in exactly those if no callback deletes it; with an infinite repeat or repeat 0 in all of them |
| `TimerRun.IdleDue` | event/hloop.c:34-53 | the one-idle run fires in the first N quiet rounds |
| `TimerRun.CronDue` | event/hloop.c:77-82 | a period timer that fires is due again at the second that cron_next_timeout gives |
| `TimerRun.CalledWhenDue` | event/hloop.c:55-137 | in each round in which it lives and is due a timer is called once, unless a callback deletes it in that round; it is not called in any other |
| `TimerRun.CallsDue` | event/hloop.c:55-137 | over all rounds it is called at most as often as it is due, and exactly as often if no callback deletes it; it is then freed exactly when the one-timer run ends |
| `TimerRun.AtMostRepeat` | event/hloop.c:55-137 | a timer with repeat N is called at most N times whatever the callbacks do; left alone it is freed exactly when it has been called N times |
| `TimerRun.NeverFreed` | event/hloop.c:64-69 | left alone, a timer with an infinite repeat is called whenever it is due and never freed; neither is one with repeat 0, which wraps around |
| `TimerRun.CalledOnGrid` | event/hloop.c:74-76 | each call is for a due time that has come and lies whole periods after the first one |
| `TimerRun.FiresExactly` | event/hloop.c:55-91 | the one-timer run: with repeat N it fires in each pass in which it is due, at most N times, and is destroyed exactly by its N-th firing |
| `TimerRun.NeverEnds` | event/hloop.c:64-66 | the one-timer run with an infinite repeat never ends, and neither does one with repeat 0 |
| `TimerRun.OnGrid` | event/hloop.c:74-76 | over every one-timer run the due times stay whole periods after the first one |
| `Codec.VarintEncode` | base/hmath.h:28-39 | writes the seven-bit groups, low group first |
| `Codec.VarintDecode` | base/hmath.h:42-66 | reads at most ten groups with 64-bit wrap-around, and tells missing bytes from malformed ones |
| `Codec.VarintRoundTrip` | base/hmath.h:28-66 | decoding undoes encoding below 2^63 whatever follows, and every strict non-empty prefix asks for more |
| `Codec.VarintBytes` | base/hmath.h:28-39 | byte i of a varint holds the bits from 7*i on, and has its top bit set exactly when more bytes follow |
| `Codec.VarintLength` | base/hmath.h:28-39 | a varint has at most n bytes exactly when its value is below 128^n |
| `Codec.GroupsDecoded` | base/hmath.h:42-66 | codes of up to ten groups that are longer than needed are read too, on 64 bits |
| `Codec.VarintOverlong` | base/hmath.h:42-66 | bytes that all go on: fewer than ten ask for more, ten are malformed |
| `Codec.Asn1Decode` | base/hmath.h:121-158 | reads the short and long forms, and tells missing bytes from malformed ones |
| `Codec.Asn1RoundTrip` | base/hmath.h:68-158 | decoding undoes encoding below 2^32 whatever follows, and every strict non-empty prefix asks for more |
| `Codec.Asn1Tag` | base/hmath.h:68-119 | the first byte is the length itself or 128 plus the number of bytes that follow, high byte first; exactly how many bytes each length takes |
| `Codec.BigEndianBytes` | base/hmath.h:84-117 | the bytes of a number, high byte first |
| `Codec.LongFormDecoded` | base/hmath.h:140-157 | the long form on any number of bytes is read, on 64 bits |
| `Codec.LongFormWaits` | base/hmath.h:134-149 | it asks for more until its bytes are there, and the indefinite form is refused |
| `Codec.HeadRoundTrip` | mqtt/mqtt_protocol.c:4-22 | unpacking undoes packing of the MQTT fixed header whatever follows; a strict prefix of two or more bytes asks for more |
| `Codec.HeadBits` | mqtt/mqtt_protocol.c:4-12 | kind in the high four bits, dup in bit 3, qos in bits 2 and 1, retain in bit 0, then the length |
| `Codec.HeadRefused` | mqtt/mqtt_protocol.c:14-22 | a length that goes on is waited for below ten bytes and refused at ten |
| `UnpackSpec.SplitWhole` | event/unpack.c:22-194 | the packets followed by the rest are the stream |
| `UnpackSpec.FrontStable` | event/unpack.c:22-194 | a packet once found is not changed by later bytes |
| `UnpackSpec.SplitResumes` | event/unpack.c:22-194 | splitting what was kept with the next bytes continues the one-shot split |
| `UnpackSpec.CutsDoNotMatter` | event/unpack.c:22-194 | for every way of cutting the stream into reads, the packets and the rest are those of the one-shot split |
| `UnpackSpec.IndexOfFirst` | event/unpack.c:52-107 | the index is that of the first match, also for delimiters that overlap themselves |
| `UnpackSpec.LittleBytes` | event/unpack.c:129-132 | the bytes of a number, low byte first |
| `UnpackFrames.LengthLaw` | event/unpack.c:123-171 | a stream whose length field carries v begins with a packet of head length plus v plus adjustment bytes, if that is from 1 to below 2^32: it is delivered as soon as these bytes are there; for big and little endian, varint and ASN.1 |
| `UnpackFrames.FrameFront` | event/unpack.c:114-171 | what a sender frames is delivered whole whatever follows, once body_offset bytes are there |
| `UnpackFrames.FrameDelivered` | event/unpack.c:22-194 | in all modes a frame at the front is delivered: fixed_length bytes, or up to the first delimiter, or by its length field |
| `UnpackFrames.FramesSplit` | event/unpack.c:22-194 | a stream of frames is split back into exactly these frames |
| `UnpackFrames.FramesArrive` | event/unpack.c:22-194 | however that stream is cut into reads |
| `UnpackFrames.PacketsFramed` | event/unpack.c:22-107 | every packet of any stream has fixed_length bytes, or ends with its first delimiter |
| `Unpack.Io.AllocReadbuf` | event/hevent.c:691-706 | growing or shrinking keeps the bytes; beyond the maximum the connection is closed |
| `Unpack.Io.UnpackFixed` | event/unpack.c:22-50 | delivers exactly the packets of the split; the kept bytes are the rest, at the front of the buffer |
| `Unpack.Io.ScanDelimiter` | event/unpack.c:60-84 | starting delimiter_bytes-1 bytes back misses no match |
| `Unpack.Io.UnpackDelimiter` | event/unpack.c:52-107 | the same for delimiters, closing exactly when the rest reaches the maximum; otherwise there is room for the next read |
| `Unpack.Io.ReadField` | event/unpack.c:123-162 | the length field in each of its codings, with the source integer widths |
| `Unpack.Io.ScanLength` | event/unpack.c:114-172 | delivers the complete packages and stops at the unfinished or malformed one, or at one of length 0, where the source goes round for ever |
| `Unpack.Io.UnpackLength` | event/unpack.c:109-194 | the same for length fields, closing exactly on a malformed length or a package beyond the maximum, and not ending exactly at a package of length 0 |
| `Unpack.Io.MemmoveReadbuf` | event/hevent.c:718-731 | compacting keeps the unread bytes and frees the space before them |
| `Unpack.Io.Autosize` | event/hevent.c:371-389 | growing, shrinking and compacting lose no unread byte and leave room for the next read, or close exactly when a full buffer cannot be doubled |
| `Unpack.Io.constructor` | event/hevent.c:827-861 | hio_set_unpack, for every setting that passes its assertions: an empty buffer within the maximum |
| `Unpack.Io.HandleRead` | event/hevent.c:324-390 | after every read the packets delivered so far are those of the split of everything received; the loop does not end exactly at a package of length 0, and with a setting that cannot have one it always ends; when the connection is closed is stated exactly; otherwise the buffer holds the rest and has room again |
| `Unpack.Io.Receive` | event/nio.c:311-342 | the bytes read go behind the kept ones |
| `Unpack.CodeFits` | event/unpack.c:134-160 | a length code that is still unfinished is shorter than ten bytes (varint) or 128 bytes (ASN.1), so a wait for it is bounded |
| `UnpackStall.EmptyPackage` | event/unpack.c:163-168 | for every setting and stream: the package at the front has length 0 exactly when the decoded length is the 32-bit complement of head length plus adjustment; the source then never advances |
| `UnpackStall.StallFree` | event/unpack.c:109-194 | no stream has such a package exactly when the length field is too narrow to hold that complement; variable-length codings always can |
| `UnpackStall.RecommendedStalls` | event/hloop.h:539-551 | the recommended setting meets one |
| `UnpackStall.WholeLengthStalls` | event/hloop.h:526-527 | so does the setting for lengths that include the head, on five zero bytes |
| `UnpackStall.MqttStalls` | event/hloop.h:575-582 | so does the MQTT setting |
| `Queue.Queue.PushBack` | base/queue.h:83-93 | appends, also when the elements are slid to the front or the array is doubled |
| `Queue.Queue.PopFront` | base/queue.h:94-98 | removes the first element |
| `Queue.Queue.DoubleResize` | base/queue.h:79-81 | doubling keeps the elements and their order |
| `Posting.StepKeeps` | event/hloop.c:205-312 | in every interleaving each step keeps: wake-ups plus claims equal the queue length outside the lock, and the functor queue matches the posted calls |
| `Posting.RunKeeps` | event/hloop.c:205-312 | so every run does |
| `Posting.NeverEmpty` | evpp/EventLoop.h:218-227 | neither the event queue nor the functor queue is ever popped while empty |
| `Posting.StepAccounts` | event/hloop.c:205-312 | each step does what it says: it posts its own event, pushes its own functor, reads its own wake-ups |
| `Posting.RunAccounts` | event/hloop.c:205-312 | so in every run the events posted are those of the writes, in their order, the functors those of the pushes, and all counts those of the steps |
| `Posting.RunsInOrder` | event/hloop.c:205-234 | the events that have run are the first of those that the steps posted, in order and each once, as many as were popped; the functors likewise |
| `Posting.LoopProgress` | event/hloop.c:205-234 | while the posters are quiet every step of the loop thread lowers a count, so it comes to rest |
| `Posting.NothingStranded` | event/hloop.c:276-312 | when it rests every event that the steps posted has run, and all functors but the last ones, as many as posts failed |
| `Posting.AllCalledUnlessFailed` | evpp/EventLoop.h:178-190 | at rest all functors have run exactly when no post failed |
| `Posting.PostRuns` | event/hloop.c:205-312 | from rest, a post followed by one wake-up runs its event |
| `Posting.FunctorRuns` | evpp/EventLoop.h:178-227 | from rest with no failed post, a posted functor is called |
| `WritePath.WriteIo.Direct` | event/nio.c:507-531 | the immediate write: what is taken, when it fails, and when the writable event is armed |
| `WritePath.WriteIo.KeepRest` | event/nio.c:532-566 | what was not taken is queued in order, or the write fails exactly when it would exceed the maximum |
| `WritePath.WriteIo.Write` | event/nio.c:493-583 | accepted bytes followed by queued bytes equal all writes so far, the byte count is exact and within the maximum, a non-empty queue is armed; the kernel is asked exactly when the queue is empty, and what it takes is accepted; and exactly when the write fails |
| `WritePath.WriteIo.WriteFront` | event/nio.c:358-416 | one turn of the drain loop, with a callback that may write again |
| `WritePath.WriteIo.Advance` | event/nio.c:395-396 | the bytes the kernel took leave the front of the queue, and the balance holds |
| `WritePath.WriteIo.NioWrite` | event/nio.c:358-416 | the drain loop keeps the balance for every kernel and every callback; it stops only at an empty queue, at EAGAIN, after a write in part or at the end of the answers; a kernel that takes all it is offered, with callbacks that write nothing, empties the queue |
| `WritePath.WriteIo.OnWritable` | event/nio.c:418-448 | the writable branch keeps the balance, drains as the loop does, and disarms when the queue is empty |
| `Multipart.Parser.TakeFraming` | http/multipart_parser.c:123-298 | one byte between parts: exactly the step of the byte-by-byte machine |
| `Multipart.Parser.TakeHeader` | http/multipart_parser.c:152-208 | one byte of a header line: nothing the machine hands over is lost or doubled but the name of a line without colon |
| `Multipart.Parser.TakeData` | http/multipart_parser.c:218-236 | one byte of data |
| `Multipart.Parser.TakeDelimiter` | http/multipart_parser.c:238-264 | one byte of a possible delimiter: what the lookbehind buffer holds is handed over exactly when the delimiter breaks off |
| `Multipart.Parser.Execute` | http/multipart_parser.c:113-308 | one call consumes as many bytes as the byte-by-byte machine, ends in its state, and hands over exactly the items of one buffer |
| `Multipart.Parser.Feed` | http/multipart_parser.c:113-308 | over any pieces: whether the body is refused, the final state, and all callbacks but names without colon depend on the concatenation only |
| `MultipartSpec.RunSplits` | http/multipart_parser.c:113-308 | the machine may be given its bytes in two parts |
| `MultipartCuts.CutsAlike` | http/multipart_parser.c:113-308 | for every way of cutting the input the callbacks are those of the whole, names included when every header line has a colon |
| `MultipartCuts.CutsMatter` | http/multipart_parser.c:158-178 | the callbacks are the same for every cut exactly when every header line has a colon |
| `MultipartCuts.CutsCanMatter` | http/multipart_parser.c:158-178 | a body and a cut of it for which the callbacks differ |
| `MultipartGrammar.LineLeads` | http/multipart_parser.c:152-208 | every header line of letters and hyphens, a colon, spaces and a value without CR is read as its name and its value |
| `MultipartGrammar.PartLeads` | http/multipart_parser.c:152-298 | every part of such lines and data without a delimiter is read as written |
| `MultipartGrammar.BodyRead` | http/multipart_parser.c:113-308 | every body of one or more parts is read whole and handed over part by part, whatever follows the last boundary |
| `MultipartGrammar.Refused` | http/multipart_parser.c:113-308 | in each state, exactly which bytes stop the parser at their place |
| `MultipartGrammar.NameStops` | http/multipart_parser.c:158-178 | in a header name every byte but letters, the hyphen, a colon and CR stops the parser there, and these do not |
| `MultipartParts.NoPreamble` | http/multipart_parser.c:125-150 | the parser gets past the first boundary exactly when the body begins with it |
| `MultipartParts.DataGoesOn` | http/multipart_parser.c:225-264 | data without a delimiter is handed over but for the tail that may begin one, and the part goes on |
| `MultipartParts.PartExact` | http/multipart_parser.c:218-264 | for a boundary without CR the data of a part are exactly the bytes before the first CRLF and boundary |
| `Form.SplitAt` | cpputil/hstring.cpp:89-112 | the loop yields the pieces between the delimiters, up to the first NUL |
| `Form.UserData.SetParams` | http/http_content.cpp:149-162 | the loop over the parameters of a Content-Disposition value |
| `Form.UserData.HandleHeader` | http/http_content.cpp:145-166 | a complete header is interpreted once and cleared |
| `Form.ParseMultipart` | http/http_content.cpp:228-248 | the parsed parts and the result are those of the callbacks on what the parser hands over |
| `Form.DumpPart` | http/http_content.cpp:70-100 | the printed part, with the 255-byte limit on the quoted name and file name |
| `Form.DumpMultipart` | http/http_content.cpp:102-122 | the parts in the order of the map with the files last, and the closing delimiter; every part is printed, none twice |
| `Form.FilesLastOnce` | http/http_content.cpp:102-118 | putting the files last neither loses nor repeats a part |
| `FormSpec.ParameterRead` | http/http_content.cpp:150-161 | a parameter sets name or filename to its value, with either kind of quotes or none and spaces around it; other keys do nothing |
| `FormSpec.DispositionRead` | http/http_content.cpp:148-162 | the value of a Content-Disposition header, of any kind and with any parameters, sets name and filename to the last values given |
| `FormSpec.HeaderRead` | http/http_content.cpp:145-166 | Content-Disposition is recognised in any case; every other header does nothing |
| `FormSpec.OddQuotes` | cpputil/hstring.cpp:168-181 | a lone quote is stripped, and quotes that do not match are kept |
| `FormSpec.TwoEquals` | http/http_content.cpp:151-152 | a parameter with more than one equals sign is ignored |
| `FormText.CStrEnds` | cpputil/hstring.cpp:89-112 | a value is read up to its first NUL |
| `FormText.BaseAfterSlash` | base/hbase.c:209-226 | the printed file name is what follows the last slash |
| `FormText.TypeBySuffix` | http/http_content.cpp:86-94 | the media type is that of the suffix after the last dot, if there is one |
| `FormText.PartPrinted` | http/http_content.cpp:70-100 | the printed part, literally |
| `FormText.NameCut` | http/http_content.cpp:76-77 | a name of 247 bytes or more is cut after 247 bytes and loses its closing quote |
| `FormRead.OnLines` | http/http_content.cpp:180-215 | header lines whose names and values are not empty are dealt with one by one |
| `FormRead.EmptyValueSticks` | http/http_content.cpp:145-146 | a line with an empty value is not: its name is put before that of the next line |
| `FormRead.FormPartRead` | http/http_content.cpp:145-178 | a part with a Content-Disposition line among any others makes exactly its entry, or none without a name |
| `FormRead.FormReads` | http/http_content.cpp:228-248 | parse_multipart takes every such form whole and enters its parts in order: any case of header names, other headers, quotes, spaces and epilogue |
| `FormRound.PrintedLines` | http/http_content.cpp:75-97 | the printed header lines are those of such a part |
| `FormRound.RoundTrip` | http/http_content.cpp:102-248 | parsing the printed form gives the form, with file names cut down to their last component, for every order of the parts |
| `LruOrder.Recency` | cpputil/LRUCache.h:82-159 | after any gets, puts and removals the entries stand in the order of the last get or put of their keys, most recent first, each with the value of its last put |
| `LruOrder.PutKeeps` | cpputil/LRUCache.h:118-137 | a put comes first; all other entries stay, but the least recently used one exactly when a new key comes to a full cache |
| `LruOrder.OthersStay` | cpputil/LRUCache.h:82-93 | a get keeps all entries, and removals take exactly the entries they name |
| `LruSpec.Inclusion` | cpputil/LRUCache.h:82-159 | two caches that see the same gets, puts and removals stay such that the smaller is a subsequence of the larger, with equal values |
| `LruSpec.InclusionFromEmpty` | cpputil/LRUCache.h:82-159 | in particular from empty, for any capacities c1 at most c2; keys are unique and the size is within the capacity |
| `LruSpec.GetRelated` | cpputil/LRUCache.h:82-93 | a get keeps the relation, also when only the larger cache has the key |
| `LruSpec.PutRelated` | cpputil/LRUCache.h:118-137 | a put keeps the relation, whichever of the two evicts |
| `LruSpec.SubKeep` | cpputil/LRUCache.h:249-270 | removing by a predicate keeps the relation |
| `Lru.LruCache.GetEntry` | cpputil/LRUCache.h:82-93 | returns the value exactly when the key is present and moves its entry to the front; map and list stay in agreement |
| `Lru.LruCache.PutEntry` | cpputil/LRUCache.h:118-137 | updates in place or inserts at the front; evicts exactly the last entry, exactly when full |
| `Lru.LruCache.Remove` | cpputil/LRUCache.h:144-159 | removes exactly the entry of the key and reports it |
| `Lru.LruCache.SetCapacity` | cpputil/LRUCache.h:215-227 | keeps the most recent entries and evicts the others from the back |
| `Lru.LruCache.RemoveIf` | cpputil/LRUCache.h:249-270 | removes exactly the entries that satisfy the predicate, reports them in order and counts them |
| `Lru.LruCache.MoveToFront` | cpputil/LRUCache.h:277-281 | the entry of the node comes first and the others keep their order |
| `Lru.LruCache.EvictLru` | cpputil/LRUCache.h:286-300 | removes and reports the last entry |
| `Poll.Watcher.AddEvent` | event/poll.c:42-72 | the fd assertion holds, and the slot of the io asks for the new events as well |
| `Poll.Watcher.DelEvent` | event/poll.c:74-99 | the fd assertion holds; a slot with no events left is replaced by the last one, whose io learns its new place |
| `Poll.Watcher.HioAdd` | event/hloop.c:837-862 | ios and slots stay in one-to-one agreement with equal events; the active count is exact |
| `Poll.Watcher.HioDel` | event/hloop.c:864-883 | the same for deletion, which leaves all other ios but for their place |
| `Poll.Watcher.Drive` | event/hloop.c:837-883 | over every run of additions and deletions the events asked for are those of the calls, and the array agrees with them |
| `Poll.Deleted` | base/array.h:129-138 | deleting a slot without moving the others keeps the agreement, also when it is the last one |
| `Kqueue.Watcher.AddFilter` | event/kqueue.c:58-82 | the ident assertion holds, and the filter joins the list and the kernel |
| `Kqueue.Watcher.DelFilter` | event/kqueue.c:94-121 | the ident assertion holds; the last change takes the place of the deleted one, also when both belong to the same descriptor, and the kernel loses exactly this filter |
| `Kqueue.Watcher.HioAdd` | event/hloop.c:837-862 | indices and changes stay in one-to-one agreement, and an io has an index exactly for its events |
| `Kqueue.Watcher.HioDel` | event/hloop.c:864-883 | the same for deletion |
| `Kqueue.Watcher.Drive` | event/hloop.c:837-883 | over every run the kernel watches exactly the events asked for |
| `Kqueue.ShrunkHolds` | event/kqueue.c:103-114 | swapping with the last change keeps the one-to-one agreement |
| `Kqueue.ShrunkKernel` | event/kqueue.c:118-119 | the submitted list removes the filter and leaves the others |
| `Dates.DateTime.Past` | base/htime.c:110-126 | moves the day number back by exactly the given days, to a valid date |
| `Dates.DateTime.Future` | base/htime.c:128-146 | moves the day number forward by exactly the given days, to a valid date |
| `Dates.DateTime.ThereAndBack` | base/htime.c:110-146 | each undoes the other |
| `Dates.YearLength` | base/htime.h:14 | the leap-year rule gives the lengths of the years of the Gregorian day count |
| `Dates.Months` | base/htime.c:102-108 | the lengths of the months |
| `Dates.Epoch` | base/htime.c:102-146 | no day is before the year 1 and 719162 days before 1970 |
| `Dates.NumbersDiffer` | base/htime.c:102-146 | no two valid dates have the same day number |

## Left out

- Sockets, SSL, epoll, select, io_uring, iocp, evport, signals, files and logging: operating-system calls; where one matters its result is a parameter.
- `http_parser`, websocket, nghttp2, KCP, JSON, base64 and SHA1: their implementations are not part of this model.
- `rb_first`, `rb_last`, `rb_next`, `rb_prev` and `rb_replace_node`: walks and a relinking that rest on no invariant beyond those proved for insertion and erasure.
- Unix-domain addresses in `sockaddr_compare`; the locks of rudp, whose calls are taken as atomic.
- `htimer_reset`, which clears `pending` on a linked event; `nactives`; io events in the pending lists (`EVENT_UNPENDING`); callbacks that are null.
- `cron_next_timeout`: an arbitrary time after now. 64-bit wrap-around of due times.
- `heap_insert` and `heap_remove` without a compare function.
- `hio_read_until_length`, `hio_read_until_delim`, `hio_read_once`; the terminating NUL that `nio_read` writes; callbacks that close the connection; the repeated reads of SSL.
- Datagram, raw and KCP writes; `hio_close` with data still queued; what happens after a failed write.
- Real-thread memory effects: each critical section is one step. `EventLoop` timers.
- Unpack.Io.ReadField: little-endian length fields of more than four bytes are not modelled, because the source shifts beyond the width of its integer.
- Loop.Loop.ProcessEvents: does not state the timing of the poll in between, which is the kernel's, and takes the time that `cron_next_timeout` gives as later than now.
- TimerRun.Rounds: the pauses and the stop of `hloop_run` are not modelled; the number of rounds is arbitrary.
- Multipart.Parser.Execute: the callbacks return 0, as those of `parse_multipart` do; a non-zero result would stop the parser. The boundary is not empty.
- Multipart.Parser.Feed: says nothing of the names of header lines without a colon, which depend on the cuts.
- Form.DumpPart: file parts with empty content, which the source reads from the file system, are excluded. The table of media types of `http/httpdef.h` is a parameter whose values hold no CR and do not start with a space.
- FormRead.FormReads: header lines with an empty name or value are left out (see `EmptyValueSticks`), and so are boundaries that contain CR.
- FormRound.RoundTrip: names of 1 to 246 bytes and file names whose last component has at most 242, without semicolon, equals sign, CR and NUL, contents without the delimiter, a boundary without CR: the scratch buffer and the header syntax carry no others. Forms that allow several parts of one name (`USE_MULTIMAP`) are left out.
- Kqueue.Watcher.Drive: `hio_attach` and `hio_detach`, which move an io to another loop, are left out here and in Poll.
- LruSpec.Inclusion: `set_capacity` is left out, because the property is about fixed capacities.
- Dates.DateTime.Past: 32-bit overflow of the day sum is not modelled.
- Query strings, `splitKV`, the fixed HTTP/2 and gRPC headers, string tables and the example programs.
