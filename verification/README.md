# Verified models of a game server's core libraries

This Dafny project models the algorithmic core of a Lua game server framework: the KCP transport, the Lua value
marshaller, navigation meshes with their A* search, the area-of-interest engine and the word filter. For each it
states what the library is for, over every input or every run, and proves it.
`dafny verify dfyconfig.toml` checks everything.

## What is modelled

**KCP, a reliable transport over datagrams** (`3rd/kcp/ikcp.c`; files `Kcp*.dfy`). `KcpEndpoint` holds the control
block as a class whose methods change its queues, timers and output in place, in the loops the program has, on 32-bit
counters, down to the block of pending acks that doubles when it is full. Each method is proved equal to a function of
`KcpModel`, and what those functions come to is said of bytes, segments and buffer entries, mostly in `KcpInput` and
`KcpFlush`. Those functions exist in two readings, with counters that wrap and with counters that do not, and
`KcpWrap`/`KcpSystem` prove that a whole run of the one is the run of the other reduced modulo 2^32. `KcpSystem` puts
two endpoints on a network that may lose, repeat, delay and reorder datagrams but not forge them: everything ever
output stays in a log, and an input event may pick any entry of it at any time. `KcpInvariant` has the invariant of
that system and what a segment of any age does to it, `KcpSafety` keeps it over runs, `KcpWindows` has what holds even
when numbers are misread, `KcpInput` what `ikcp_input` does with any bytes, `KcpFlush` what a flush sends, when it
sends it again and what it leaves, `KcpMessages` what becomes of whole messages, `KcpDatagrams` the datagrams of a
flush, `KcpWire` the segment header, `KcpCongestion` the congestion window, `KcpTimers` the flush clock, the window
probes and the settings. `KcpTheorems` draws the conclusions for the program itself: delivery in order and exactly
once, no data forgotten before the other side has it, windows, message round trip, readable datagrams, and `cwnd ==
incr / mss`.

Sequence numbers are compared modulo 2^32, so delivery depends on the age of what arrives. A run is called understood
if none of its segments carries a number that its reader takes for a later one it acts upon, be it an `una`, an
acknowledgement or a datum. `UnderstoodIff` says that these are exactly the runs in all of whose states each side has
taken the other's numbers 0, 1, 2, ... in order, each once, and no number is forgotten. The numbers are counted
without wrapping by `KcpExact`, beside the run, so that a repeated fragment is told apart even from one with the same
contents; contents may come out right by accident in other runs. `TakenAreSent` says in every run that what is taken
are the peer's fragments with those numbers (`KcpGenuine`). All receive windows a C `int` can express are covered.
Runs in which nothing delivered is more than 2^31 numbers old are understood (`TimelyIsUnderstood`), provided that the
receive window is not taken back by more than 2^31 - 65535 segments (`KcpReach`, `AckedUnheldIff`), and so is every
run of at most 2^31 segments each way. `KcpStale` says of each kind of number exactly how old it may be, and builds
two runs from fresh endpoints that go wrong: one delivers an old datagram as new data, in the other an old `una` makes
the sender drop a fragment that nobody has received.

**The Lua marshaller** (`3rd/lua-marshal/lmarshal.c`; files `Marshal*.dfy`). A value is a graph: tables are named
nodes with an ordered list of entries, so sharing and cycles are edges back. `Marshal` gives the byte format as
functions, `MarshalRoundTrip` proves that decoding what was encoded is the same graph with the same sharing and the
same numbering, and `MarshalCodec` has the growing buffer, the encoder and the decoder as classes that append, number
and fill tables in place. The decoder is specified on all bytes, malformed ones included, with three outcomes: a
value, a refusal, or a read past the end of the string, since the program takes the bytes a number or a string
announces before it compares them with the end. `MarshalBounds` says exactly when that happens, by what the decoder
comes to and by a scan of tags and lengths that can be made beforehand; encoded bytes never make it happen.

**A\* over the navigation mesh** (`lualib-src/navigation/DetourNode.*`, `DetourNavMeshQuery.cpp`; files `NavNode.dfy`,
`NavNodePool.dfy`, `NavFindPath.dfy`, `NavCosts.dfy`, `NavQuery.dfy`). The binary heap, the node pool with its bucket
chains, and `findPath` with its reopened nodes are classes over arrays. The search invariant is that parent pointers
form a tree rooted at the start, ordered by cost and by the time the cost was set, that the open flag and the heap
agree, that closed nodes are explored, that costs are prices of walks (`NavCosts`), and that the last best node is the
nearest. From it follow termination, the shape of the path, where a partial path ends and what the status bits mean.

**Bounding-volume tree** (`DetourNavMeshBuilder.cpp`, `DetourNavMesh.cpp`; file `NavBvTree.dfy`). The builder writes
the flattened tree into an array by recursion on ranges of items; the walk uses escape offsets. The walk is proved to
answer what a scan answers, which is said in points of the boxes, and the exact effect of the one surplus zeroed node
is stated.

**Tiles and links** (`DetourNavMesh.*`; files `NavMesh*.dfy`). Tiles with salts, the free list and the hash chains
that share one `next` field, and in every tile a pool of links threaded through the polygons' lists and a free list.
The class `Mesh` adds and removes tiles. Its `Valid` says that each tile is in exactly one list, that each pool is
partitioned, and that links lead to the same cell or one of the eight around; `NoDangling` says every link names a
live polygon under the current salt. All methods keep `Valid`; an added tile never makes a link dangle and is linked
to what it meets in the tiles around it, by the side on which they lie, and no link is made without one of the reasons
in `NavMeshGeometry`. A removal leaves a dangling link exactly if a tile it did not look at had
one, which takes a cell with more than 32 other tiles; `NavMeshCrowd` has such a mesh. `NavMeshRuns` follows a
reference through whole runs: when it is stale, when its salt comes round again, and which references `removeTile`
accepts though it should not.

**Area of interest** (`lualib-src/aoi/aoi.c`; files `AoiMap.dfy`, `AoiSpace.dfy`, `AoiEngine.dfy`, `HashChains.dfy`).
`AoiMap` is the in-place chained hash table, proved to be a finite map. `AoiSpace` has the objects, their reference
counts and versions and the list of hot pairs, and says exactly which pairs one message calls back and what the hot
list is afterwards. `AoiEngine` puts the two together: the table holds exactly the objects of the space and gives the
order in which they are met.

**Word filter** (`lualib-src/crab/lua-crab.c`; files `CrabTable.dfy`, `CrabTrie.dfy`, `CrabDict.dfy`,
`HashChains.dfy`). The hash table with its moved nodes, the trie of such tables, and the filter, which is proved to
mask what a naive leftmost-longest scan of the word list masks.

## How to read it

Functions whose last parameters or first flag look like bookkeeping are specifications; classes carry the code's
own updates in place, and their `ensures` tie each update to a specification. `Valid()` predicates are invariants kept
by every public method. C integers are unbounded where nothing can reach their limits, and reduced explicitly where the
program's result depends on the width: sequence numbers, timers, congestion products, buffer lengths, polygon
references, quantised boxes.

## Model

| member | source | states |
|---|---|---|
| KcpTheorems.InOrderExactlyOnce | 3rd/kcp/ikcp.c:806-830 | For every understood run of two endpoints over a network that loses, repeats and reorders datagrams: what ever entered a receive queue is exactly the sender's fragments 0..rcv_nxt-1, in order, unchanged, in both directions |
| KcpTheorems.NothingForgotten | 3rd/kcp/ikcp.c:781-790 | In every understood run each numbered fragment is still in the send buffer, or already delivered, or waits in the receive buffer, each time with its content |
| KcpTheorems.UnderstoodIff | 3rd/kcp/ikcp.c:781-830 | A run is understood exactly if in each of its states either side has taken the other's numbers 0, 1, 2, ... in order, each once, with none that waits taken before, and every number given out is still with its sender or has arrived; and exactly if no single segment does such harm |
| KcpTheorems.TakenAreSent | 3rd/kcp/ikcp.c:676-725 | In every run at all, whatever is misread, the fragments that entered a receive queue are fragments of the peer, unchanged: those with the numbers that were taken |
| KcpTheorems.TimelyIsUnderstood | 3rd/kcp/ikcp.c:135-138 | A run in which no delivered number is more than 2^31 behind the last one given out, or comes while others lie more than 2^31 beyond the receive window, is understood |
| KcpTheorems.RecentIsTimely | 3rd/kcp/ikcp.c:1247-1258 | With receive windows that are set once or only grow, of any size, or stay up to 2^31 - 65535, or are never taken back by more than that, it is enough that nothing is delivered more than 2^31 numbers late |
| KcpTheorems.EndToEnd | 3rd/kcp/ikcp.c:356-461 | In every understood run: in message mode the messages received are a prefix of the messages accepted, whole and byte for byte; in either mode the bytes received are a prefix of the bytes accepted |
| KcpTheorems.FullQueueNeverStalls | 3rd/kcp/ikcp.c:439-461 | In message mode, in both directions, in every understood run: a receive queue that fills its window has a complete message at its head, and whatever is read next is the next message sent |
| KcpTheorems.WindowNeverTooWide | 3rd/kcp/ikcp.c:996-1022 | In every run at all, snd_nxt - snd_una never exceeds 65535 and the wrapped comparison strictly orders the send buffer between them |
| KcpTheorems.BuffersStayOrdered | 3rd/kcp/ikcp.c:676-725 | In every run at all snd_una is the head of the send buffer, or snd_nxt if it is empty, and the wrapped comparison orders the receive buffer strictly from rcv_nxt on |
| KcpTheorems.DatagramsAreRead | 3rd/kcp/ikcp.c:752-853 | In every run at all, each datagram put out is 1 to mtu bytes long, and ikcp_input of the same conversation reads its bytes back as exactly the segments put in, with result 0 |
| KcpTheorems.CwndIsIncrOverMss | 3rd/kcp/ikcp.c:859-877 | In every run in which the 32-bit products cannot overflow, cwnd is exactly incr / mss and ssthresh is at least 2 |
| KcpInvariant.SegmentIff | 3rd/kcp/ikcp.c:781-830 | One segment of any age: processing it forgets nothing the peer misses and takes no duplicate for new data exactly when its una, its ack number and its sequence number are each read safely |
| KcpSafety.RunIff | 3rd/kcp/ikcp.c:742-880 | The same for whole runs of two endpoints |
| KcpExact.ExactIff | 3rd/kcp/ikcp.c:742-880 | From any state in order: every later state has the numbers taken in order, each once, and none forgotten, exactly when no segment is misread |
| KcpExact.HarmfulSegs | 3rd/kcp/ikcp.c:767-848 | A datagram with a segment that is misread leaves, when all of it has been read, a number that is forgotten or one that was taken out of turn or waits to be taken again |
| KcpGenuine.RunGenuine | 3rd/kcp/ikcp.c:742-1113 | In every run, from any state in which it holds: data on the network, in the buffers and in the queues are the fragments with the numbers they carry or were taken under |
| KcpReach.AmpleRunIsFresh | 3rd/kcp/ikcp.c:806-813 | If a window is never taken back by more than 2^31 - 65535 segments below the largest there was, the peer never numbers beyond 2^31 past its end |
| KcpStale.OldUnaIgnoredIff | 3rd/kcp/ikcp.c:591-605 | A cumulative ack less than 2^32 behind the head of the send buffer is ignored exactly when it is at most 2^31 behind; otherwise it takes data out |
| KcpStale.OldAckIgnoredIff | 3rd/kcp/ikcp.c:569-589 | A selective ack up to 2^32 numbers before snd_una is ignored exactly when the number it is mistaken for is not in the send buffer |
| KcpStale.DuplicateIgnoredIff | 3rd/kcp/ikcp.c:811-828 | On the receive side a duplicate up to 2^32 numbers old brings nothing new exactly when it is at most 2^32 - rcv_wnd numbers old, or the number it is mistaken for is buffered already |
| KcpStale.StaleDatagramIsDelivered | 3rd/kcp/ikcp.c:811-828 | A run from two fresh endpoints in which a datagram kept back for 2^32 segments is delivered as new data, so that delivery is no longer in order |
| KcpStale.StaleUnaForgets | 3rd/kcp/ikcp.c:591-605 | A run from two fresh endpoints in which an answer kept back for 2^31 + 2 segments makes the sender drop a fragment nobody has received |
| KcpStale.LongRun | 3rd/kcp/ikcp.c:742-880 | There is a run from two fresh endpoints that carries any number of messages, each sent, received, read and acknowledged |
| KcpTheorems.FewSegmentsAreTimely | 3rd/kcp/ikcp.c:135-138 | Numbering at most 2^31 segments in each direction makes every delivery timely, whatever the network does |
| KcpArith.DiffExact | 3rd/kcp/ikcp.c:135-138 | The wrapped difference is the true one exactly for distances in [-2^31, 2^31); distance 2^31 counts as negative |
| KcpArith.DiffOfReduced | 3rd/kcp/ikcp.c:135-138 | Comparing counters reduced to 32 bits is comparing the unbounded ones |
| KcpSystem.RunWraps | 3rd/kcp/ikcp.c:742-880 | A run of the 32-bit program is the run with unbounded numbers, reduced modulo 2^32, for all inputs |
| KcpWrap.WireRoundTrip | 3rd/kcp/ikcp.c:752-853 | Reading the bytes of a non-empty list of segments of the same conversation gives back those segments and result 0 |
| KcpWire.DecodeEncode | 3rd/kcp/ikcp.c:886-897 | The segment header decodes to what was encoded, whatever follows it |
| LittleEndian.DecIsDigits | 3rd/kcp/ikcp.c:94-133 | Both decoders read little-endian numbers from the front |
| LittleEndian.EncDec | 3rd/kcp/ikcp.c:66-133 | Encoding what was decoded gives the bytes back |
| KcpSafety.RunKeeps | 3rd/kcp/ikcp.c:911-1113 | The system invariant holds after every run in which nothing is misread |
| KcpSafety.StepPeerKeeps | 3rd/kcp/ikcp.c:1121-1146 | Every call on an endpoint keeps the invariant of both directions |
| KcpSafety.InputSegKeeps | 3rd/kcp/ikcp.c:781-831 | Each kind of segment keeps the invariant: acknowledgements only name data the other side has |
| KcpInvariant.AcceptPushKeeps | 3rd/kcp/ikcp.c:811-830 | A push that is not misread keeps the receive buffer a faithful part of what was numbered, and every number held before is still held |
| KcpInvariant.InsertKeeps | 3rd/kcp/ikcp.c:676-711 | Inserting a segment of the window keeps the receive buffer sorted and true, and makes its number held |
| KcpInvariant.MoveReadyKeeps | 3rd/kcp/ikcp.c:713-725 | Moving ready segments to the receive queue extends the delivered prefix in order |
| KcpInvariant.ParseUnaIff | 3rd/kcp/ikcp.c:591-605 | A cumulative ack of any age forgets nothing the receiver misses exactly when no outstanding number below what it is taken for is missing there; snd_una never goes back |
| KcpInvariant.ParseAckIff | 3rd/kcp/ikcp.c:569-589 | A selective ack of any age forgets nothing the receiver misses exactly when the outstanding number it is taken for is not missing there |
| KcpInvariant.AcceptOldIff | 3rd/kcp/ikcp.c:806-830 | A duplicate of any age leaves the receive side as it was, but for acknowledgements, exactly when it is not taken for a number still awaited |
| KcpInvariant.AckedUnheldIff | 3rd/kcp/ikcp.c:811-818 | A new segment is acknowledged without being kept exactly if its number lies 2^31 or more beyond the end of the window, which only a window that was taken back makes possible |
| KcpInvariant.FillWindowKeeps | 3rd/kcp/ikcp.c:1000-1022 | Numbering queued fragments keeps the send buffer consecutive from the queue's head |
| KcpInvariant.Distance | 3rd/kcp/ikcp.c:1000-1022 | The sender is never more than both windows ahead of the receiver |
| KcpWindows.RunWindow | 3rd/kcp/ikcp.c:558-1022 | In every run, whatever is misread, the send buffer stays sorted and at most 65535 wide with snd_una at its head, and the receive buffer stays ascending from rcv_nxt |
| KcpQueues.InsertAt | 3rd/kcp/ikcp.c:688-711 | The backward search puts a segment at its place in the order, or finds the number there already |
| KcpQueues.RemoveSnAt | 3rd/kcp/ikcp.c:576-588 | At most one segment leaves the send buffer on a selective ack, the one with that number |
| KcpQueues.DropBelowIsSuffix | 3rd/kcp/ikcp.c:594-604 | A cumulative ack removes exactly the leading segments below it |
| KcpMessages.RecvReturnsNext | 3rd/kcp/ikcp.c:356-433 | ikcp_recv returns the next message sent, or fails and changes nothing |
| KcpMessages.SendCarries | 3rd/kcp/ikcp.c:467-535 | ikcp_send appends to the send queue exactly the bytes it accepts |
| KcpMessages.SendCuts | 3rd/kcp/ikcp.c:467-535 | ikcp_send on any queue and data: -2 exactly if what does not fit into the last fragment needs 128 or more; otherwise full fragments and a rest, counted down in message mode; nothing else that was queued changes |
| KcpMessages.RecvCodes | 3rd/kcp/ikcp.c:356-461 | ikcp_recv on any queue: -1, -2 and -3 and when, each changing nothing; otherwise the fragments up to the first that ends a message, and a notice is owed exactly if this brought a full queue below the window |
| KcpMessages.RunMessages | 3rd/kcp/ikcp.c:467-535 | Over every run messages stay whole and in order between the two queues |
| KcpDatagrams.FragmentsShape | 3rd/kcp/ikcp.c:512-532 | A message is cut into count fragments of at most mss bytes, counted down to 0 in message mode |
| KcpDatagrams.PackConcat | 3rd/kcp/ikcp.c:936-1089 | The datagrams of a flush, put together, are the segments emitted, in order |
| KcpDatagrams.PackGreedy | 3rd/kcp/ikcp.c:1068-1077 | A datagram is handed over only when the next segment does not fit into it, or no more are to come |
| KcpDatagrams.PackSizes | 3rd/kcp/ikcp.c:936-1089 | No datagram is empty or longer than the mtu |
| KcpDatagrams.FlushEmitsAcks | 3rd/kcp/ikcp.c:936-948 | A flush emits every pending ack once, in arrival order, and clears the list |
| KcpDatagrams.RunFits | 3rd/kcp/ikcp.c:911-1113 | In every run queues and datagrams stay within mss and mtu |
| KcpCongestion.GrowKeeps | 3rd/kcp/ikcp.c:859-877 | Growing the window on an ack keeps cwnd * mss <= incr < (cwnd + 1) * mss |
| KcpCongestion.AvoidanceStep | 3rd/kcp/ikcp.c:866-867 | In congestion avoidance incr grows by less than one mss |
| KcpCongestion.CongestKeeps | 3rd/kcp/ikcp.c:1091-1112 | The reactions to fast resend and loss keep the same relation, with cwnd at least 1 |
| KcpCongestion.FastWindow | 3rd/kcp/ikcp.c:1092-1098 | After a fast resend the new window is at least 1 and bounded, so its 32-bit sum does not wrap |
| KcpModel.GrowNeedsNoCap | 3rd/kcp/ikcp.c:872-875 | The final cap of cwnd at the remote window can never apply |
| KcpTimers.TickRule | 3rd/kcp/ikcp.c:1121-1145 | ikcp_update flushes on its first call, when the time has come and when the clock jumped back; the next flush then lies ahead by at most one interval, and a flush less than an interval late keeps the pace |
| KcpTimers.ProbeRule | 3rd/kcp/ikcp.c:950-970 | The probe timer runs exactly while the peer's window is 0; it asks exactly when its time has come, then waits half as long again up to 120 s, and never less than 7 s |
| KcpTimers.ProbeGoesOut | 3rd/kcp/ikcp.c:950-992 | A flush emits a window request exactly when the peer's window is 0 and the probe is due |
| KcpFlush.PushGoesOutIff | 3rd/kcp/ikcp.c:1033-1060 | A flush puts out a data segment with number sn exactly if the send buffer, with what the window let in, has an entry with that number that was never sent, or whose timer has run out, or that was passed over as often as the fast resend setting says (2^32 - 1 times where it is off) |
| KcpFlush.FlushPuts | 3rd/kcp/ikcp.c:911-1083 | Everything one flush puts out, segment by segment: the pending acknowledgements, a window request exactly if one is due, a window notice if one is owed, then the entries that are due, each once and in order; every segment advertises the room left in the receive queue, in 16 bits, and acknowledges all below rcv_nxt |
| KcpFlush.EntryAfter | 3rd/kcp/ikcp.c:1036-1065 | What a flush leaves of every entry of the send buffer: unsent it is as it was; sent it counts one more transmission, with the timer at now + rto; rto becomes rx_rto at first (and an eighth more on the timer), grows by rx_rto or half of it on a timeout, and stays on a fast resend, which forgets the counted acks |
| KcpFlush.DueAgain | 3rd/kcp/ikcp.c:1042-1065 | A segment that was just sent is due again exactly when its timer has run for rto milliseconds (an eighth of rx_rto more after the first time), unless acks pass it over |
| KcpFlush.WindowMoves | 3rd/kcp/ikcp.c:996-1022 | A flush numbers as many queued fragments as the least of snd_wnd, rmt_wnd and cwnd has room for behind snd_una, or all, in order, with consecutive numbers and nothing else changed |
| KcpFlush.CongestionAfter | 3rd/kcp/ikcp.c:1038-1112 | The threshold, window, timeout count and dead link mark after a flush, said of the entries whose timers had run out and those that were passed over: half the window or half of what is under way, at least 2, a fall back to one segment on loss |
| KcpFlush.NothingElse | 3rd/kcp/ikcp.c:911-1113 | Before the first ikcp_update a flush does nothing; afterwards it clears acks and probe flags and changes nothing but send half, congestion state and probe timer |
| KcpFlush.SettingsTake | 3rd/kcp/ikcp.c:1221-1258 | What ikcp_wndsize and ikcp_nodelay take over from any arguments, and from which they take nothing |
| KcpFlush.SlowStart | 3rd/kcp/ikcp.c:996-1112 | A new endpoint with data queued sends nothing at its first flush and numbers one fragment at the second, due again after 225 ms |
| KcpInput.InputCodes | 3rd/kcp/ikcp.c:742-880 | ikcp_input on any bytes: less than a header is refused; otherwise, for the cut of the bytes into whole segments of this conversation up to the first front that is none, the result is 0, -1, -2 or -3 as the rest is too short for a header, of another conversation, announces more than there is, or has an unknown command, and exactly the segments before took effect |
| KcpInput.CutExists | 3rd/kcp/ikcp.c:754-781 | Every string of bytes has such a cut |
| KcpInput.CutUnique | 3rd/kcp/ikcp.c:754-781 | and only one, with only one code |
| KcpInput.CodeIff | 3rd/kcp/ikcp.c:754-781 | Each code comes exactly for the strings that can be cut to stop with it |
| KcpInput.StrangerRefused | 3rd/kcp/ikcp.c:762-763 | A datagram whose first four bytes are another conversation gets -1 and changes nothing |
| KcpInput.HeaderFields | 3rd/kcp/ikcp.c:762-772 | The fields of a header lie at their places, as little-endian numbers |
| KcpInput.EncodedIsCut | 3rd/kcp/ikcp.c:886-897 | The bytes a flush makes of a datagram are its segments one behind the other, with nothing left over |
| KcpInput.SegmentDoes | 3rd/kcp/ikcp.c:781-848 | Each segment tells the window and acknowledges what is below its una; only an ack feeds the estimate, only data changes the receive side, only a request makes a notice owed, and snd_una is the head of the send buffer |
| KcpInput.PushAcked | 3rd/kcp/ikcp.c:806-813 | Data below the end of the receive window is acknowledged with its number and time, whatever else becomes of it, other data is not |
| KcpInput.PushAnswered | 3rd/kcp/ikcp.c:806-948 | Such data, wherever it stands in a datagram, is acknowledged by the next flush |
| KcpInput.RequestAnswered | 3rd/kcp/ikcp.c:832-992 | A datagram with a window request is answered by the next flush with a window notice that tells the room left; the window of the peer is the one its last segment told |
| KcpInput.MoveReadyStops | 3rd/kcp/ikcp.c:713-725 | After the move, nothing that is next in turn waits while there is room, and a queue within its window stays within it |
| KcpInput.EstimateMoves | 3rd/kcp/ikcp.c:541-556 | The round-trip estimate and timeout after an ack: the first sample is taken over, later the mean moves by an eighth and the deviation by a quarter, within the bounds; a time stamp of the future is ignored |
| KcpInput.PassesOver | 3rd/kcp/ikcp.c:607-624 | An ack counts against exactly the entries before it up to the first that lies after it |
| KcpInput.LargestAck | 3rd/kcp/ikcp.c:784-804 | What is remembered of a datagram is the largest number acknowledged in it |
| KcpInput.WindowOpens | 3rd/kcp/ikcp.c:859-877 | The congestion window opens only below that of the peer: by one segment below the threshold, above it when incr has collected one more |
| KcpInput.DatagramEnds | 3rd/kcp/ikcp.c:855-877 | Once its segments are read, a datagram counts what its largest ack passed over, if that is in flight, opens the window exactly if snd_una moved, and does nothing else |
| KcpTimers.SettingsStay | 3rd/kcp/ikcp.c:1247-1258 | In every run the receive window is at least 128 and the timers are within their bounds, so a message that ikcp_send accepts has fewer fragments than either receive window has room for |
| KcpEndpoint.Ikcp.constructor | 3rd/kcp/ikcp.c:233-293 | A new control block is the initial state of the model |
| KcpEndpoint.Ikcp.SendData | 3rd/kcp/ikcp.c:467-535 | ikcp_send on the queues in place: result and new queue as specified |
| KcpEndpoint.Ikcp.QueueFragments | 3rd/kcp/ikcp.c:512-532 | The fragmenting loop appends the fragments of the message |
| KcpEndpoint.Ikcp.PeekNext | 3rd/kcp/ikcp.c:439-461 | ikcp_peeksize: the size of the message at the head, or -1 if it is not complete |
| KcpEndpoint.Ikcp.MergeFragments | 3rd/kcp/ikcp.c:381-408 | The merging loop returns the head message's bytes and takes its fragments out unless peeking |
| KcpEndpoint.Ikcp.MoveInTurn | 3rd/kcp/ikcp.c:411-423 | The loop that moves segments in turn from the receive buffer to the queue |
| KcpEndpoint.Ikcp.Receive | 3rd/kcp/ikcp.c:356-433 | ikcp_recv in place: result, data, queues, counters and the window notice as specified |
| KcpEndpoint.Ikcp.ShrinkBuf | 3rd/kcp/ikcp.c:558-567 | snd_una becomes the head of the send buffer, or snd_nxt |
| KcpEndpoint.Ikcp.DropAcknowledged | 3rd/kcp/ikcp.c:591-605 | The loop of ikcp_parse_una, with the queue's counter |
| KcpEndpoint.Ikcp.RemoveAcknowledged | 3rd/kcp/ikcp.c:569-589 | The loop of ikcp_parse_ack, with the queue's counter |
| KcpEndpoint.Ikcp.CountFastack | 3rd/kcp/ikcp.c:607-624 | The loop of ikcp_parse_fastack |
| KcpEndpoint.Ikcp.AckPush | 3rd/kcp/ikcp.c:630-664 | An ack is appended to the pending ones through the doubling of the block; the block is a power of two from 8 on, and less than twice what it has to hold when it grows |
| KcpEndpoint.Ikcp.FindPlace | 3rd/kcp/ikcp.c:676-705 | The backward search of ikcp_parse_data finds the place or the duplicate |
| KcpEndpoint.Ikcp.PlaceData | 3rd/kcp/ikcp.c:676-736 | ikcp_parse_data: insertion from the back and the following moves |
| KcpEndpoint.Ikcp.TakeSegment | 3rd/kcp/ikcp.c:781-848 | One segment of ikcp_input |
| KcpEndpoint.Ikcp.GrowWindow | 3rd/kcp/ikcp.c:859-877 | The window growth at the end of ikcp_input |
| KcpEndpoint.Ikcp.InputData | 3rd/kcp/ikcp.c:742-880 | ikcp_input on raw bytes: what InputBytes says, which KcpInput.InputCodes and CodeIff explain by the cut of the bytes into whole segments of this conversation |
| KcpEndpoint.Ikcp.FillFromQueue | 3rd/kcp/ikcp.c:1000-1022 | The loop that numbers fragments within the window |
| KcpEndpoint.Ikcp.EmitAcks | 3rd/kcp/ikcp.c:936-948 | The ack loop writes the pending acks to the output and clears them |
| KcpEndpoint.Ikcp.EmitProbes | 3rd/kcp/ikcp.c:972-992 | The probe segments, which repeat the last ack's number and time |
| KcpEndpoint.Ikcp.EmitData | 3rd/kcp/ikcp.c:1028-1083 | The data loop: the segments that KcpFlush.PushGoesOutIff says go out, and what KcpFlush.EntryAfter says of each afterwards |
| KcpEndpoint.Ikcp.FlushOut | 3rd/kcp/ikcp.c:911-1113 | ikcp_flush in place: new state and the exact bytes of every datagram, whose segments are those of KcpFlush.FlushPuts |
| KcpEndpoint.Ikcp.Congestion | 3rd/kcp/ikcp.c:1091-1112 | The threshold and window updates |
| KcpEndpoint.Ikcp.UpdateClock | 3rd/kcp/ikcp.c:1121-1146 | ikcp_update in place |
| KcpEndpoint.Outbox.Put | 3rd/kcp/ikcp.c:1064-1077 | A segment goes to the open datagram, which is put out first if there is no room |
| MarshalRoundTrip.RoundTrip | 3rd/lua-marshal/lmarshal.c:445-523 | Decoding an encoded graph of nil, booleans, numbers, strings and tables stays inside the bytes and gives the same graph with the same sharing and cycles, reads all bytes, gives out the same indices and leaves existing tables alone; constants become the decoder's constants |
| MarshalRoundTrip.RoundValue | 3rd/lua-marshal/lmarshal.c:312-431 | A value's bytes decode, wherever they stand, to the image of the value, every table met on the way is rebuilt once, and decoder and encoder stay in step |
| MarshalRoundTrip.RoundEntries | 3rd/lua-marshal/lmarshal.c:433-443 | The entries of a table decode to the images of its keys and values, and decoding ends exactly at the end of the prefix |
| MarshalRoundTrip.ReadsTable | 3rd/lua-marshal/lmarshal.c:340-347 | A table body behind its length is decoded exactly to that length |
| MarshalRoundTrip.ReadsRef | 3rd/lua-marshal/lmarshal.c:335-339 | A back reference decodes to the value with that index |
| MarshalRoundTrip.FilledHolds | 3rd/lua-marshal/lmarshal.c:433-443 | A rebuilt table holds exactly the images of the original entries: no key is lost, added or merged |
| MarshalRoundTrip.ConstantsLinked | 3rd/lua-marshal/lmarshal.c:462-472 | Both sides number the constants alike, nil and repeated constants included |
| MarshalRoundTrip.ValueCount | 3rd/lua-marshal/lmarshal.c:167-184 | A new table takes at least six bytes, so indices stay below 2^31 |
| Marshal.BytesOf | 3rd/lua-marshal/lmarshal.c:105-166 | What encoding writes, byte by byte, for nil, a boolean, a number, a string (which fails exactly from 2^32 bytes on) and a table seen before |
| Marshal.BytesOfNewTable | 3rd/lua-marshal/lmarshal.c:167-184 | A table not seen before gets the next index, and its entries follow with their length in front; it fails exactly if they fail or are 2^32 bytes or more |
| Marshal.BytesBegin | 3rd/lua-marshal/lmarshal.c:445-489 | Everything begins with the magic byte; a table among the constants is found under the last index it has there, and new tables go on behind the constants |
| Marshal.TagsMean | 3rd/lua-marshal/lmarshal.c:312-431 | What the decoder makes of the tag at any place of any bytes, by the bytes that follow; every other tag and table code is refused |
| Marshal.LengthsMean | 3rd/lua-marshal/lmarshal.c:327-347 | A string or table body is exactly as long as announced, and decoding goes on right behind it; a string is refused if it ends behind what encloses it and is read past the end if it ends behind the bytes there are |
| Marshal.StoreMeans | 3rd/lua-marshal/lmarshal.c:433-443 | Storing makes the value the one thing found under its key, or nothing if it is nil; both zeros are one key, nil and NaN are refused, other keys and tables keep what they have |
| MarshalCodec.Buffer.Write | 3rd/lua-marshal/lmarshal.c:75-92 | buf_write appends through any number of doublings, and refuses more than 2^32-1 bytes |
| MarshalCodec.Buffer.Reserve | 3rd/lua-marshal/lmarshal.c:79-85 | The buffer is doubled until there is room, and keeps its contents |
| MarshalCodec.Encoder.WriteValue | 3rd/lua-marshal/lmarshal.c:105-185 | mar_encode_value in place: bytes appended, SEEN and counter as specified, failure exactly when specified |
| MarshalCodec.Encoder.WriteNewTable | 3rd/lua-marshal/lmarshal.c:167-184 | A new table by way of a nested buffer |
| MarshalCodec.Encoder.WriteTable | 3rd/lua-marshal/lmarshal.c:294-303 | The entry loop |
| MarshalCodec.Encoder.EnterConstants | 3rd/lua-marshal/lmarshal.c:462-471 | The constants are entered as keys of SEEN, nil ones left out, the last index of a repeated one kept; it fails exactly on a NaN |
| MarshalCodec.EncodeBytes | 3rd/lua-marshal/lmarshal.c:445-489 | mar_encode: magic byte and encoded value, or failure; a constant that is NaN makes it fail, since it cannot be a key of SEEN |
| MarshalCodec.Decoder.ReadValue | 3rd/lua-marshal/lmarshal.c:312-431 | mar_decode_value with its cursor, on any bytes: the value, a refusal, or a read past the end, each exactly when specified |
| MarshalCodec.Decoder.ReadTable | 3rd/lua-marshal/lmarshal.c:433-443 | mar_decode_table fills a table in place, with the same three outcomes; nil and NaN are refused as keys, both zeros are one key |
| MarshalCodec.DecodeBytes | 3rd/lua-marshal/lmarshal.c:491-523 | mar_decode on any bytes, with the same three outcomes |
| MarshalBounds.PastEndIff | 3rd/lua-marshal/lmarshal.c:303-347 | mar_decode reads past the string exactly when some value it comes to announces more bytes than there are: eight for a number, any length for a string |
| MarshalBounds.ScanIff | 3rd/lua-marshal/lmarshal.c:303-443 | Whether mar_decode succeeds, refuses or reads past the end is what a scan of tags and announced lengths says beforehand, which builds no value and knows of the constants only which can be keys |
| MarshalBounds.ValueIff | 3rd/lua-marshal/lmarshal.c:312-431 | The same for the value at any place within any announced length |
| MarshalBounds.CutStringIsPastEnd | 3rd/lua-marshal/lmarshal.c:327-331 | A string cut off behind its length, in a buffer of five bytes, makes the decoder read past the end |
| MarshalCodec.Clone | 3rd/lua-marshal/lmarshal.c:525-531 | A value that can be encoded is cloned to the same graph over new tables, with only the constants shared |
| NavQuery.Query.FindPath | lualib-src/navigation/DetourNavMeshQuery.cpp:935-1148 | The result is a prefix of a walk along links from start whose later polygons pass the filter; unless nodes ran out, it is partial exactly when the end cannot be reached. A partial walk ends at a polygon that has a node nearest to the end position among all nodes met, and unless nodes ran out all reachable polygons were met; every node costs what some walk to it costs, and unless nodes ran out no link of a closed one makes another cheaper; a goal was found at a cost no open node can undercut; the search terminates |
| NavQuery.Query.constructor | lualib-src/navigation/DetourNavMeshQuery.cpp:166-215 | A new query satisfies the precondition of findPath, with an empty pool and open list of its own |
| NavQuery.Query.Search | lualib-src/navigation/DetourNavMeshQuery.cpp:962-1147 | The same for the search proper, from a start other than the end |
| NavQuery.Query.ExpandBest | lualib-src/navigation/DetourNavMeshQuery.cpp:979-1113 | One round keeps the search invariant, prices, settled links and the nearest node included, and makes progress: more nodes, or smaller totals, or a shorter open list |
| NavQuery.Query.FollowLink | lualib-src/navigation/DetourNavMeshQuery.cpp:1009-1112 | One link keeps the search invariant: the parent tree, the open list, what is explored, where nodes lie, what they cost, and which is nearest |
| NavQuery.Query.Improve | lualib-src/navigation/DetourNavMeshQuery.cpp:1084-1104 | A link that makes its end cheaper re-parents it, closed or not, and the search invariant is ready for the next link |
| NavQuery.Query.Reparent | lualib-src/navigation/DetourNavMeshQuery.cpp:1087-1104 | A cheaper route re-parents the node and restores the heap by modify or push |
| NavQuery.Query.Visit | lualib-src/navigation/DetourNavMeshQuery.cpp:1031-1045 | The neighbour's node, positioned on the first visit only |
| NavQuery.Query.Reverse | lualib-src/navigation/DetourNavMeshQuery.cpp:1118-1128 | The reversal loop terminates and turns the whole parent chain around in place |
| NavQuery.Query.Store | lualib-src/navigation/DetourNavMeshQuery.cpp:1130-1145 | The stored path is the chain's polygons from the start on, cut at maxPath |
| NavFindPath.RelaxKeepsTree | lualib-src/navigation/DetourNavMeshQuery.cpp:1087-1092 | Re-parenting a node, even a closed one, keeps the parents a tree rooted at the start with costs not below the parent's |
| NavFindPath.FirstVisitKeepsTree | lualib-src/navigation/DetourNavMeshQuery.cpp:1039-1045 | So does a node met for the first time |
| NavFindPath.AncestorsPrecede | lualib-src/navigation/DetourNavMeshQuery.cpp:1087-1092 | Every ancestor was settled before its descendants, so chains have no cycle |
| NavFindPath.ChainShape | lualib-src/navigation/DetourNavMeshQuery.cpp:1118-1128 | The parent chain of every node ends at the start and repeats no node |
| NavFindPath.ChainIsWalk | lualib-src/navigation/DetourNavMeshQuery.cpp:1009-1025 | Read backwards, it is a walk along links through passing polygons |
| NavFindPath.Exhausted | lualib-src/navigation/DetourNavMeshQuery.cpp:979-1113 | When the open list is empty and no node was refused, everything reachable has a node, so a missing end is unreachable |
| NavFindPath.OpenFits | lualib-src/navigation/DetourNode.h:126-130 | The open list never exceeds the pool, so a push always has room |
| NavFindPath.LowerDisturbs | lualib-src/navigation/DetourNavMeshQuery.cpp:1087-1097 | A node whose total was lowered in place can only be out of order towards its parent, which modify repairs |
| NavFindPath.Popped | lualib-src/navigation/DetourNavMeshQuery.cpp:982-984 | Popping the best node moves exactly that node from open to closed |
| NavCosts.NearestStays | lualib-src/navigation/DetourNavMeshQuery.cpp:1106-1111 | After one link the nearest node is still one to which no node is nearer, and its distance is the one remembered |
| NavCosts.PricedStays | lualib-src/navigation/DetourNavMeshQuery.cpp:1050-1092 | After one link the cost of each node is still the price of a walk along links that comes to it by its parent |
| NavCosts.SettledStays | lualib-src/navigation/DetourNavMeshQuery.cpp:1009-1092 | After one link no link of a closed node makes another node cheaper, but for those of the node at hand still to be followed |
| NavCosts.AllTold | lualib-src/navigation/DetourNavMeshQuery.cpp:1107-1128 | When the search is over all of this holds of the nodes met, whatever the reversal does to their parents |
| NavNode.RootIsLeast | lualib-src/navigation/DetourNode.h:116-124 | In an ordered heap the root is a least entry |
| NavNode.NodeQueue.BubbleUp | lualib-src/navigation/DetourNode.cpp:172-183 | Restores the order from a hole upwards and keeps the contents |
| NavNode.NodeQueue.TrickleDown | lualib-src/navigation/DetourNode.cpp:185-200 | Restores the order from a hole downwards and keeps the contents |
| NavNode.NodeQueue.Push | lualib-src/navigation/DetourNode.h:126-130 | The heap stays ordered and gains exactly the node |
| NavNode.NodeQueue.Pop | lualib-src/navigation/DetourNode.h:118-124 | Returns a node of least total, and the rest stays an ordered heap |
| NavNode.NodeQueue.Modify | lualib-src/navigation/DetourNode.h:132-142 | After a total was lowered the heap is ordered again with the same contents |
| NavNodePool.NodePool.FindNode | lualib-src/navigation/DetourNode.cpp:108-119 | Finds the node of a polygon and state, and reports none exactly when there is none |
| NavNodePool.NodePool.GetNode | lualib-src/navigation/DetourNode.cpp:121-152 | Finds or makes the node; each polygon and state has at most one; fails only when the pool is full |
| NavNodePool.ChainsGrow | lualib-src/navigation/DetourNode.cpp:136-149 | Putting a new node at the front of its bucket keeps every chain complete |
| NavBvTree.TileAnswers | lualib-src/navigation/DetourNavMesh.cpp:774-797 | The escape walk over a built tree reports what a scan of the items reports, in leaf order up to maxPolys, and then polygon 0 once more if the query touches the origin |
| NavBvTree.TileAnswersPoints | lualib-src/navigation/DetourNavMesh.cpp:774-797 | Said in points: the untruncated answer has polygon i exactly if an item with index i shares a point with the query, or i is 0 and the origin lies in the query |
| NavBvTree.OverlapIff | lualib-src/navigation/DetourCommon.h:332-340 | The overlap test of quantised boxes holds exactly if some point lies in both, borders included |
| NavBvTree.ExactIff | lualib-src/navigation/DetourNavMeshBuilder.cpp:456 | The walk equals the scan exactly when the query stays off the quantised origin or the result is full: bvNodeCount counts one zeroed node too many |
| NavBvTree.WalkSubtree | lualib-src/navigation/DetourNavMesh.cpp:778-796 | Walking a flattened subtree reports its overlapping leaves in order and goes on right behind it |
| NavBvTree.BuildOk | lualib-src/navigation/DetourNavMeshBuilder.cpp:114-170 | The tree's leaves are a rearrangement of the items and every inner box covers its leaves |
| NavBvTree.ScanPermutes | lualib-src/navigation/DetourNavMesh.cpp:800-826 | A scan of rearranged items reports the same polygons |
| NavBvTree.CalcExtends | lualib-src/navigation/DetourNavMeshBuilder.cpp:73-95 | The box returned is the join of the boxes in the range, so it covers each of them |
| NavBvTree.ExtendsLeast | lualib-src/navigation/DetourNavMeshBuilder.cpp:73-95 | The join of boxes is the least box that covers them |
| NavBvTree.BuildHalves | lualib-src/navigation/DetourNavMeshBuilder.cpp:114-170 | Along the longest axis of every inner box no leaf of the left half starts behind one of the right half, and the halves are equal or the right one is larger by one |
| NavBvTree.LongestIs | lualib-src/navigation/DetourNavMeshBuilder.cpp:97-111 | No axis of the box is longer than the one taken |
| NavBvTree.Subdivide | lualib-src/navigation/DetourNavMeshBuilder.cpp:114-170 | Writes exactly 2n-1 nodes, the flattened tree with its escape offsets, and nothing else |
| NavBvTree.CreateBvTree | lualib-src/navigation/DetourNavMeshBuilder.cpp:172-215 | The node array is the flattened tree and one zeroed node |
| NavBvTree.QueryTile | lualib-src/navigation/DetourNavMesh.cpp:774-797 | The loop reports the walk's answers up to maxPolys |
| NavMesh.Mesh.constructor | lualib-src/navigation/DetourNavMesh.cpp:224-265 | For widths that fit 32 bits, which init does not enforce: all tiles are free, in index order, under salt 1, and nothing dangles |
| NavMesh.Mesh.AddTile | lualib-src/navigation/DetourNavMesh.cpp:846-983 | Takes the free tile asked for or any, fails exactly when the place is taken or no such tile is free, keeps every index and link list in order and never lets a link dangle; the tile has its internal links and each off-mesh connection tied to its start; said in coordinates, with every live tile of its own and the eight cells around, portal edges that meet are linked both ways, by side 0 at (1,0), 1 at (1,1) and so on round to 7 at (1,-1), and off-mesh connections of either side are linked to where they land, unless links run out or a cell holds more than 32 tiles; every link it makes stands for a shared edge, portals that meet, or a connection |
| NavMesh.JoinedAroundIs | lualib-src/navigation/DetourNavMesh.cpp:949-1020 | The promises made by cell and side are those in coordinates: whatever lies at (1,0), (1,1), (0,1), ... is joined by side 0, 1, 2, ... |
| NavMesh.PortalsMeet | lualib-src/navigation/DetourNavMesh.cpp:300-452 | Where a portal edge to side d meets one of the neighbour to the opposite side, and fewer than four polygons before it do, there is a link to that polygon, unless the links ran out |
| NavMeshGeometry.MeantOn | lualib-src/navigation/DetourNavMesh.cpp:943-978 | One stretch of building after the other makes only links that stand for something |
| NavMeshGeometry.OneNewMeant | lualib-src/navigation/DetourNavMesh.cpp:122-129 | Adding one link that stands for something keeps this, whatever links there were |
| NavMesh.Mesh.RemoveTile | lualib-src/navigation/DetourNavMesh.cpp:1168-1261 | Refuses a reference that does not match; reads a missing header exactly if the matching slot is free; otherwise frees the tile under the next non-zero salt, and other tiles lose only links to it; then no link dangles exactly if no tile that was not looked at had a link to it, as is so while no cell around holds more than 32 other tiles |
| NavMesh.DropSoundIff | lualib-src/navigation/DetourNavMesh.cpp:1235-1258 | A sound mesh that loses a tile stays sound exactly if no link leads to that tile |
| NavMeshCrowd.CrowdDangles | lualib-src/navigation/DetourNavMesh.cpp:1022-1042 | A sound mesh with 34 tiles in one cell, in which removing the second one leaves a link of the first dangling, because getTilesAt returns 32 of the others |
| NavMesh.AllDone | lualib-src/navigation/DetourNavMesh.cpp:1203-1217 | Clearing the own and the eight cells around leaves no link to the tile anywhere |
| NavMeshRuns.StaleUntilRound | lualib-src/navigation/DetourNavMesh.cpp:1235-1258 | In every run of additions and removals a reference handed out before its slot was freed is invalid, until the slot has been freed a multiple of 2^salt - 1 times; exactly then its salt is current again |
| NavMeshRuns.RunSalt | lualib-src/navigation/DetourNavMesh.cpp:1235-1258 | In every run the salt of a slot is its first salt moved on once for each time it was freed, past 0 |
| NavMeshRuns.UnsafeIff | lualib-src/navigation/DetourNavMesh.cpp:1168-1180 | The references removeTile accepts although their slot is free are exactly those that carry the current salt of a free slot |
| NavMeshRuns.FreshSlotMatches | lualib-src/navigation/DetourNavMesh.cpp:1168-1180 | There is one in a mesh that the constructor has just made: salt 1, tile 0 |
| NavMesh.Mesh.GetTileAt | lualib-src/navigation/DetourNavMesh.cpp:985-1002 | Finds the live tile at a position exactly if there is one |
| NavMesh.Mesh.GetTilesAt | lualib-src/navigation/DetourNavMesh.cpp:1022-1042 | Returns the first tiles of the cell on the chain of its hash value, at most 32, and all of them if they are no more |
| NavMesh.Mesh.AllocTile | lualib-src/navigation/DetourNavMesh.cpp:860-901 | Takes the head of the free list, or the tile a reference names if it is in the list |
| NavMesh.Mesh.FindFree | lualib-src/navigation/DetourNavMesh.cpp:877-893 | Finds a tile in the free list exactly if it is not in use, with the tile before it |
| NavMesh.Mesh.AddLink | lualib-src/navigation/DetourNavMesh.cpp:122-129 | A link to a live polygon nearby is added to the polygon's list unless none is left; everything else stays |
| NavMesh.Mesh.FindConnectingPolys | lualib-src/navigation/DetourNavMesh.cpp:300-351 | The first polygons, at most four, with an edge on that side that meets the given one |
| NavMesh.Mesh.ConnectExtLinks | lualib-src/navigation/DetourNavMesh.cpp:387-452 | Every portal edge to that side is linked to the polygons that meet it, unless the links run out |
| NavMesh.Mesh.ConnectExtOffMeshLinks | lualib-src/navigation/DetourNavMesh.cpp:454-522 | Every off-mesh connection of a near tile that leads to this side is linked to the polygon it lands on, and back if it goes both ways, unless the links run out |
| NavMesh.Mesh.BaseOffMeshLinks | lualib-src/navigation/DetourNavMesh.cpp:561-617 | Every off-mesh connection of the tile is tied to the polygon it starts on, both ways, unless the links run out |
| NavMesh.Mesh.ConnectTiles | lualib-src/navigation/DetourNavMesh.cpp:949-978 | Of two tiles of the same or neighbouring cells the portal edges that meet are linked both ways, and the off-mesh connections of each to where they land on the other, unless the links run out |
| NavMesh.Mesh.ConnectCell | lualib-src/navigation/DetourNavMesh.cpp:949-978 | The tile is linked both ways with all tiles of a cell that fits, by portal edges and off-mesh connections, and everything stays in order |
| NavMesh.Mesh.RemoveFromHash | lualib-src/navigation/DetourNavMesh.cpp:1180-1196 | The tile leaves its hash chain and no other does |
| NavMesh.Mesh.UnconnectTile | lualib-src/navigation/DetourNavMesh.cpp:1203-1217 | unconnectLinks on one neighbour: no link of it leads to the removed tile any more, and nothing else changes |
| NavMesh.Mesh.UnconnectCell | lualib-src/navigation/DetourNavMesh.cpp:1203-1217 | The first 32 tiles on the chain of a cell keep no link to the removed tile, the others are as before; of a cell that fits, none keeps one |
| NavMesh.Mesh.UnconnectAround | lualib-src/navigation/DetourNavMesh.cpp:1203-1217 | So for the own and the eight cells around |
| NavMeshBuild.ConnectIntLinks | lualib-src/navigation/DetourNavMesh.cpp:524-559 | Every edge shared by two polygons gets its link unless the links run out, and the links partition the pool |
| NavMeshBuild.BuildFreeList | lualib-src/navigation/DetourNavMesh.cpp:933-937 | The free list runs through all links once |
| NavMeshDetach.UnconnectLinks | lualib-src/navigation/DetourNavMesh.cpp:353-385 | Exactly the links to the target tile go back to the free list |
| NavMeshDetach.DropSound | lualib-src/navigation/DetourNavMesh.cpp:1235-1258 | A tile to which nothing leads can be freed without a link dangling |
| NavMeshLinks.LinkedOk | lualib-src/navigation/DetourNavMesh.cpp:122-129 | Allocating a link keeps the lists a partition of the pool |
| NavMeshLinks.UnlinkedOk | lualib-src/navigation/DetourNavMesh.cpp:131-135 | Freeing a link out of the middle of a list keeps the lists a partition of the pool |
| NavMeshIndex.UseTile | lualib-src/navigation/DetourNavMesh.cpp:903-906 | Moving a tile from the free list to its hash chain keeps every tile in exactly one list |
| NavMeshIndex.CutTile | lualib-src/navigation/DetourNavMesh.cpp:1180-1196 | Taking a tile out of its hash chain keeps the other tiles in their lists |
| NavMeshIndex.FreeTile | lualib-src/navigation/DetourNavMesh.cpp:1256-1258 | Returning it to the free list completes the lists again |
| NavMeshIndex.CellTilesAll | lualib-src/navigation/DetourNavMesh.cpp:1022-1042 | The chain of a cell's hash value holds exactly its tiles |
| NavMeshTiles.AddLinkBuilds | lualib-src/navigation/DetourNavMesh.cpp:122-129 | Adding a link to a live polygon nearby keeps all tiles in order and sound |
| NavMeshIds.DecodeEncode | lualib-src/navigation/DetourNavMesh.h:514-546 | Salt, tile and polygon decode to what was encoded |
| NavMeshIds.EncodeDecode | lualib-src/navigation/DetourNavMesh.h:514-546 | Every reference within the widths is the encoding of the fields it decodes to |
| NavMeshIds.EncodeInRange | lualib-src/navigation/DetourNavMesh.h:514-527 | References fit 32 bits, and only salt 0 could make the null reference |
| NavMeshIds.AcceptedFits | lualib-src/navigation/DetourNavMesh.cpp:254-262 | Accepted widths fit 32 bits exactly when the indices take at most 22 bits |
| NavMeshIds.WrappedIsAccepted | lualib-src/navigation/DetourNavMesh.cpp:255-261 | Widths of 20 and 20 bits are accepted although they do not fit, because the subtraction wraps |
| AoiMap.Map.constructor | lualib-src/aoi/aoi.c:199-213 | An empty table of 16 slots |
| AoiMap.Map.Seek | lualib-src/aoi/aoi.c:147-164 | The walk along a chain finds the slot of an id exactly if there is one |
| AoiMap.Map.Query | lualib-src/aoi/aoi.c:146-164 | Returns the object of the id, made if there is none; nothing else changes |
| AoiMap.Map.Insert | lualib-src/aoi/aoi.c:84-121 | The table gains exactly the id; with a free slot it never grows, otherwise it doubles once; the recursion with rehash terminates |
| AoiMap.Map.TurnOut | lualib-src/aoi/aoi.c:92-108 | A slot of another chain is turned out of the main position and its object inserted again |
| AoiMap.Map.Rehash | lualib-src/aoi/aoi.c:123-144 | Twice the size, the same objects, and never nested |
| AoiMap.Map.Drop | lualib-src/aoi/aoi.c:176-191 | Takes the object out and leaves the chains alone |
| AoiMap.Map.Visited | lualib-src/aoi/aoi.c:166-174 | map_foreach meets every object exactly once |
| HashChains.TakeOver | lualib-src/aoi/aoi.c:92-108 | Replacing a foreign slot keeps every used slot on the chain of its main position |
| HashChains.PlaceBehindHead | lualib-src/aoi/aoi.c:109-118 | So does placing an id second in its chain |
| HashChains.NotMet | lualib-src/aoi/aoi.c:149-160 | An id not met on the walk from its main position is nowhere in the table |
| HashChains.MaskIsRemainder | lualib-src/aoi/aoi.c:76-80 | Masking with a power-of-two size minus one is the remainder |
| AoiSpace.Space.Update | lualib-src/aoi/aoi.c:343-383 | The exact new object, version, mode and counts for every mode string; a drop removes the object exactly when no hot pair holds it; every invariant is kept |
| AoiEngine.Engine.Update | lualib-src/aoi/aoi.c:343-383 | The same through the hash table: it holds exactly the ids the space knows, before and after, dropped ones included |
| AoiSpace.ChangeMode | lualib-src/aoi/aoi.c:295-330 | Sets the two bits as asked, and reports a change exactly when one changed or no bit was set |
| AoiSpace.Space.FlushPairs | lualib-src/aoi/aoi.c:392-420 | Reports the current pairs within the radius, keeps those between it and twice it, and releases the others, freeing objects whose count is used up |
| AoiSpace.Space.SetPushAll | lualib-src/aoi/aoi.c:436-456 | Every object lands in the sets its bits call for, once, and loses the move bit |
| AoiSpace.Space.GenPairList | lualib-src/aoi/aoi.c:482-490 | All pairs of two sets, in order: reported, remembered or passed over |
| AoiSpace.Space.Message | lualib-src/aoi/aoi.c:492-503 | Each ordered pair is called back at most once, and exactly if both are alive, watching and marking, within the radius, and one has moved or the pair was hot and current; the new hot list is exact and repeats no pair; no dropped object is left |
| AoiSpace.CalledMeans | lualib-src/aoi/aoi.c:392-503 | A message calls back a pair exactly if both are there and alive, one watching and the other marking, one has moved or the pair is hot under the versions both still have, and they are less than 10 apart |
| AoiSpace.CallsInReach | lualib-src/aoi/aoi.c:9-13 | In coordinates: a pair called back is closer than 10 along every axis, of two objects one above the other that is all it takes, and a pair kept hot is between 10 and 20 apart |
| AoiSpace.MoveCounts | lualib-src/aoi/aoi.c:332-380 | An update that leaves the mode alone counts as a move exactly if the object is 5 or more away from where its last move was counted |
| AoiEngine.Engine.Message | lualib-src/aoi/aoi.c:492-503 | The same with the objects taken in the order in which the hash table meets them; the table loses exactly the objects that were released |
| AoiSpace.NothingTwice | lualib-src/aoi/aoi.c:492-503 | A message that follows another with no update between them reports nothing |
| AoiSpace.DropPairKeeps | lualib-src/aoi/aoi.c:385-390 | Dropping a pair keeps every reference count equal to liveness plus occurrences in the hot list |
| AoiSpace.DropKeeps | lualib-src/aoi/aoi.c:359-365 | Dropping an object keeps counts and hot pairs right |
| AoiSpace.GrabKeeps | lualib-src/aoi/aoi.c:471-479 | A new hot pair keeps every count right |
| AoiSpace.CallsExact | lualib-src/aoi/aoi.c:392-503 | The calls of the flush and of the new pairs are disjoint and together exact |
| AoiSpace.HotExact | lualib-src/aoi/aoi.c:458-480 | The kept and the new hot pairs are disjoint and together exact |
| CrabDict.Dict.Filter | lualib-src/crab/lua-crab.c:259-301 | Masks in place exactly what the naive leftmost-longest scan of the word list masks, and reports whether any word occurs |
| CrabDict.Dict.Open | lualib-src/crab/lua-crab.c:237-257 | The dictionary accepts exactly the non-empty words of the list |
| CrabDict.Dict.Insert | lualib-src/crab/lua-crab.c:200-235 | The dictionary accepts one word more and no other, through table growth and moved nodes |
| CrabDict.Dict.Step | lualib-src/crab/lua-crab.c:272-287 | The walk through the trie finds the length of the longest word at a place |
| CrabDict.Dict.TableInsert | lualib-src/crab/lua-crab.c:145-152 | Finds or makes the node of a rune; no word changes |
| CrabDict.Dict.Below | lualib-src/crab/lua-crab.c:220-228 | Finds or makes the table below a node; no word changes |
| CrabTable.RuneTable.Get | lualib-src/crab/lua-crab.c:130-143 | Finds the node of a key exactly if there is one |
| CrabTable.RuneTable.NewKey | lualib-src/crab/lua-crab.c:101-128 | The table gains exactly the key; with a free node it never grows |
| CrabTable.RuneTable.Expand | lualib-src/crab/lua-crab.c:66-92 | Twice the nodes, the same entries |
| CrabTable.RuneTable.FreeNode | lualib-src/crab/lua-crab.c:52-61 | Finds a free node exactly if there is one |
| HashChains.MoveAway | lualib-src/crab/lua-crab.c:110-118 | Moving a colliding node of another chain to the free node keeps all chains in order |
| CrabTrie.WordAddsWord | lualib-src/crab/lua-crab.c:231-233 | Ending a word at its node adds exactly that word |
| CrabTrie.OneWord | lualib-src/crab/lua-crab.c:217-229 | In the trie a table is reached by one word only |
| CrabTrie.WalkIsLongest | lualib-src/crab/lua-crab.c:284-285 | The step the walk ends with is the longest match |
| CrabTrie.MaskedMeans | lualib-src/crab/lua-crab.c:259-301 | What masking comes to: longest words one behind the other are starred out, and everywhere else the text is as it was and no word of the list starts |

## Left out

KCP

- KcpTheorems.InOrderExactlyOnce: for understood runs. In the others a number is taken out of turn or forgotten (KcpTheorems.UnderstoodIff), though the contents may still agree; KcpStale.StaleDatagramIsDelivered gives a run in which they do not.
- KcpTheorems.NothingForgotten: for understood runs, for the same reason; KcpStale.StaleUnaForgets gives a run.
- KcpTheorems.EndToEnd: for understood runs; whole messages only in message mode, since stream mode does not keep their bounds.
- KcpTheorems.FullQueueNeverStalls: for understood runs; only in message mode, since only there a message has bounds.
- KcpTheorems.CwndIsIncrOverMss: only while the 32-bit products of mss and window sizes cannot overflow.
- A whole run in which a receive window taken back makes the sender forget a fragment: KcpInvariant.AckedUnheldIff has the step that goes wrong.
- Segment fields that are always overwritten before use or never read (`ts`, `wnd`, `una` in the send buffer; `conv`, `cmd` and the like in the receive queues).
- Sums of the round-trip estimator are unbounded: their overflow at 32 bits is not modelled.
- Queues are sequences: the `prev`/`next` pointers of the list macros are not modelled.
- Null buffers and negative lengths as arguments, `ikcp_check`, logging and allocator hooks.
- Changing the mtu or the stream mode during a run.
- Progress under fair loss, and how good the round-trip estimate is.

Marshaller

- MarshalRoundTrip.RoundTrip: without tables that have `__persist`, functions and userdata, which call foreign code; the decoder refuses their tags.
- MarshalCodec.Encoder.WriteValue: the order of a table's entries is the one the graph lists, standing for whatever order `lua_next` gives.
- Numbers are the eight bytes of a double, opaque; metatables are not part of a value.
- Lists of 2^30 constants or more, where the counter would overflow; exhaustion of memory or of the Lua or C stack.
- What a read past the end finds, or whether it faults: the model stops there. The byte 0 that Lua keeps behind every string is part of the memory that may be read.

A* search

- NavQuery.Query.FindPath: costs are natural numbers, and mid points, costs and distances are functions of the mesh; rounding of floats is not modelled. That the path is a cheapest one is not promised: what a step costs depends on the step before it, and the point at which a polygon is entered is fixed when it is first met.
- Straight paths, ray casts, the sliced and local searches, and the path corridor.

Bounding-volume tree

- NavBvTree.QueryTile: the query box is given quantised; quantising from floats and the swap of the y range are left out.
- NavBvTree.SortRange: `qsort` is any rearrangement of the range; where it sorts, NavBvTree.BuildHalves says what that makes of the tree.
- NavBvTree.ExactIff: compares in the order of the leaves; that this is a rearrangement of the items is in NavBvTree.TileAnswers.

Tiles and links

- NavMesh.Mesh.AddTile: magic number, version and layout of tile data are not parsed; data has at least one link, neighbours in range and no more polygons than the reference width allows; a reference to restore has a salt other than 0. Links to the tiles of a cell are promised where `getTilesAt` returns all of them, which is up to 32, and those of off-mesh connections that were there before for polygons that had links before. Where edges and connections meet is decided by a `Geometry` that stands for the float tests.
- NavMesh.Mesh.RemoveTile: what happens after the header of a free slot was read, which is the null pointer; NavMeshRuns.UnsafeIff says exactly which references lead there. A run of additions that ends in the mesh of NavMeshCrowd.CrowdDangles is not part of the model.
- NavMesh.Mesh.constructor: for widths that fit 32 bits; NavMeshIds.WrappedIsAccepted shows that the program lets others pass.
- A tile's own links are built on its record before it is put into its hash chain; the source interleaves the two.
- Detail meshes, vertices, link boundaries, 64-bit references, storing and restoring tile state, overflow of cell coordinates.

Area of interest

- AoiMap.Map.Query: for ids other than the one that marks an empty slot.
- AoiSpace.Space.Message: objects are kept in a map and met in an order that is a parameter; AoiEngine.Engine.Message has both from the hash table. Positions are reals, so rounding is not modelled.
- AoiEngine.Engine.Message: objects that the flush releases leave the table at the end of the message, not before the rest is met; until then they are passed over, and the order of the rest is the same.
- Overflow of versions and counts, the doubling of object sets, release of the space.
- That the engine never misses an approach: small moves below the threshold make that depend on when it is called.

Word filter

- CrabDict.Dict.Open: word lists whose elements are numbers, already reduced to 32 bits; anything else is an error of the Lua binding.
- Pointers to tables are indices into the list of all tables made; dump, close and the global dictionary are left out.
