# libevent, modelled

A model of the parts of libevent that carry its hard invariants, and proofs of what they keep:

- **Chunked buffers** (`Flat`, `Chains`, `EvBuffers`, `BufferAdd`, `BufferDrain`, `BufferPullup`, `BufferMove`,
  `BufferSplit`, `BufferReserve`, `BufferVectors`, `BufferCommit`, `BufferRead`, `BufferSearch`). An evbuffer is a
  list of chunks linked by `next`, with the pointer to a pointer `last_with_datap` written as the chunk whose
  `next` field it leads through. Ghost fields give the chunks, the data of each, and the index that the pointer
  stands for. `Structure` is the list by itself; `LwdOk` says that the pointer leads to the last chunk with data;
  `Tight` is the stronger invariant of use without reservations. `BufferRuns.Run` says that two buffers behave like
  two byte sequences under any sequence of operations; `BufferFaults` has the runs for which the operations on
  reserved space do not keep the invariant.
- **Overlapped reads and writes** (`Overlapped`, `OverlappedPull`, `OverlappedExpand`, `ReadCycle`, `WriteCycle`,
  `OverlappedFaults`):
  chunks pinned by the system while the program goes on using the buffer.
- **Tagged streams** (`TagCodes`, `Tagging`): the encodings as functions on bytes, with round trips, and the code on
  evbuffers against them.
- **DNS names** (`DnsNames`, `DnsEncode`): what a message denotes at a place, the parser against that, and
  compression through the label table.
- **The resolver's requests** (`RequestFlow`, `DnsQueues`): the order of requests as a state machine with properties
  of all its runs, and the circular lists, the hash table and the ids that refine it.
- **DNS search lists** (`DnsSearch`), **changes for the kernel** (`EvMap`), **the condition variable for Windows**
  (`CondVar`, every interleaving of its critical sections), **timeouts** (`MinHeaps`, `Timeouts`), **rate limits**
  (`TokenBucket`, `RateLimit`), **textual addresses** (`Inet6Text`, `Inet6Accept`, `Inet6`, `Inet6Buffer`) and
  **dispatch by priority** (`Dispatch`).

Code that changes objects is a class or a method with a frame; what it computes is stated against functions on
plain values, and the lemmas are about those. In a few places one loop or one branch of a C function is a method of
its own; its comment names the function.

## Findings

Properties that the code does not have on all inputs, each with the exact condition and a run or an input. Files are
those under `libevent_server/libevent/`.

- `buffer.c:1533-1617`: `evbuffer_add` aborts in `evbuffer_chain_insert` if and only if `BufferAdd.AddAborts`: the
  data overflow a last chunk with room while an empty chunk before it is the first victim (`BufferAdd.Add`,
  `BufferFaults.AddAborted`). It leaves `last_with_datap` at an earlier chunk unless `AddKeepsPointer`
  (`BufferFaults.AddLosesPointer`). Neither happens in plain use (`BufferAdd.TightAdd`).
- `buffer.c:661-729`: `evbuffer_commit_space` with one vector in the last chunk, two or more chunks behind the last one
  with data, leaves the pointer wrong (`Strands` in `BufferCommit.Commit`, `BufferFaults.CommitStrands`).
- `buffer.c:612-659`: a vector just reserved is refused by the commit if and only if it is `Misplaced`
  (`BufferRead.SingleCommits`, `BufferFaults.CommitRefused`).
- `buffer.c:1619-1691`: prepending loses a pending read if and only if the first chunk is empty and the read goes into
  it (`Overlapped.PrependWhilePending`, `OverlappedFaults.PrependLosesRead`).
- `buffer.c:904-948`: moving contents into a buffer with a pending read drops the chunks of the read if and only if the
  buffer is empty (`Overlapped.MoveInWhilePending`, `OverlappedFaults.MoveInLosesRead`).
- `buffer.c:1173-1283`: pulling up loses a pending read if and only if it succeeds for all bytes of a buffer whose first
  chunk does not hold them all yet: the loop that frees used-up chunks goes on over the empty one that the system
  writes into (`OverlappedPull.PullupWhilePending`,
  `OverlappedPull.PullupLosesRead`).
- `buffer.c:1719-1946`: `evbuffer_expand` does not ask whether the end is frozen. While a read is pending, its chunks are
  not the last ones any more, and later calls do not see that any is pinned, if and only if `BufferReserve.Inserts`: the
  first chunk with room is in use, or does not do (`OverlappedExpand.ExpandWhilePending`, `OverlappedFaults.ExpandUnpins`).
- `buffer_iocp.c:243-307`: the assertion in `evbuffer_launch_read` on the number of pinned chunks fails if and only if
  `LaunchAborts` holds before the call: there is no chunk and nothing is asked for, or at most sixteen of the chunks from
  the first one with room on, but not all of them, can take as many bytes as are asked for (`Overlapped.LaunchRead`,
  `OverlappedFaults.LaunchAsserts`). An empty chunk behind the contents, as a short read leaves it, is enough; with none
  and something asked for it does not fail (`Overlapped.NothingBehind`).
- `event_tagging.c:194-231`: the tag decoder makes five bytes contiguous and reads on behind them if and only if all five
  say that more follow and there are more (`Tagging.TagReadableIff`, `Tagging.DecodeTagInternal`, `Tagging.ReadsBehind`).
- `event_tagging.c:78-83`: the example in the comment on tags shows other bytes than the code writes; the model follows
  the code.
- `evdns.c:936-989`: `name_parse` copies a label that the end of the packet cuts off, and so reads behind it, if and only
  if `DnsNames.OverReads`: the walk meets such a label and the output has room for it (`DnsNames.NameParse`,
  `DnsNames.LabelPastEnd`). The packet holds no name there (`DnsNames.CutIsNoName`), and -1 is returned.
- `evdns.c:1597-1610`: a compression pointer to a place from 0x4000 on leads somewhere else (`DnsEncode.PointerIff`). The
  program's own messages, of at most 1500 bytes, do not get there.
- `evdns.c:1634-1641`: the zero at the end of a name is written without a look at the length of the buffer. It goes to the
  byte behind it if and only if `DnsEncode.Overruns`: no rest of the name is in the table, the name does not end in a
  dot, and its labels fill the buffer exactly (`DnsEncode.EncodeName`, `DnsEncode.OverrunsByOne`).
- `evdns.c:1612-1632`: an encoding that fails leaves entries in the label table if and only if `DnsEncode.Starts`: the
  whole name was not there, the table had room, and the first label was short enough and fitted (`DnsEncode.EncodeName`,
  `DnsEncode.LeavesEntry`).
- `evutil.c:1586-1680`: `evutil_inet_ntop` given a buffer of exactly the length of the text drops its last character
  without an error; the result parses back if and only if there is room for the terminator too (`Inet6Buffer.RereadIff`,
  `Inet6Buffer.LoopbackLost`).
- `evutil.c:1682-1792`: `evutil_inet_pton` takes more than well-formed texts: a prefix 0x within the four characters of
  a word, one more colon at the end, signs and white space in the numbers of the quad (`Inet6Accept.TakenIff`). A text
  that it takes is well-formed if and only if it has only hexadecimal digits, colons and dots and does not end in a single
  colon (`Inet6Accept.WellFormedIff`, `Inet6Accept.PrefixTaken`, `Inet6Accept.ColonTaken`, `Inet6Accept.SignTaken`).
- `evthread_win32.c:215-295`: a signal on the condition variable can be used up by threads that came later
  (`CondVar.SignalStolen`); a thread is woken if and only if signals are left (`CondVar.WokenIff`). Broadcasts do not have
  this fault (`CondVar.BroadcastWakes`).
- `bufferevent_ratelim.c:72-110`: a bucket above its maximum grows further on a refill, if and only if what is added does
  not reach the difference that has wrapped round (`TokenBucket.RefillIsMinIff`, `TokenBucket.OverfullGrows`).
- `bufferevent_ratelim.c:199-260`: the cap of 16384 bytes at once applies only to a bufferevent without a limit of its own
  (`RateLimit.GetMax`).
- `evdns.c:3134-3238`: a DNS search ends at the first try that times out, though a server's failure goes on to the next
  domain (`DnsSearch.FindsFirst`).
- `evdns.c:3314-3343`: `evdns_base_set_max_requests_inflight` does not send what waits when the limit goes up: a request
  waits with room if and only if one waited before and fewer than the new limit were in flight
  (`DnsQueues.Resolver.SetMaxInflight`, `DnsQueues.WaitsWithRoom`).

## Model

| member | source | states |
|---|---|---|
| Chains.ChunkSize | libevent_server/libevent/buffer.c:154-181 | the memory of a chunk: at least what is asked for, and some |
| Chains.ChunkSizeIs | libevent_server/libevent/buffer.c:154-181 | with the header it is the least power-of-two multiple of the smallest size that is big enough |
| Chains.Chain.constructor | libevent_server/libevent/buffer.c:154-181 | a new chunk is empty, unpinned and has exactly that much memory |
| Chains.Chain.Free | libevent_server/libevent/buffer.c:183-227 | freeing gives a chunk back, or leaves it dangling while it is pinned |
| Chains.Chain.Unpin | libevent_server/libevent/buffer.c:330-337 | ends one kind of use; a dangling chunk that nothing else uses is given back then |
| Chains.Chain.Align | libevent_server/libevent/buffer.c:1694-1701 | moves the data of a chunk to the front of its memory; the data stay the same |
| EvBuffers.EvBuffer.constructor | libevent_server/libevent/buffer.c:339-353 | a new buffer is empty and in order |
| EvBuffers.AllEmpty | libevent_server/libevent/buffer.c:240-248 | says just whether no chunk from the given one on holds data |
| EvBuffers.FindVictim | libevent_server/libevent/buffer.c:265-270 | the slot of the first chunk behind the contents that is empty and not pinned |
| EvBuffers.FreeTrailing | libevent_server/libevent/buffer.c:264-277 | cuts the list there; all chunks behind it are freed and no data go |
| EvBuffers.ChainInsert | libevent_server/libevent/buffer.c:282-311 | the new chunk takes the place of the victims, in every case of the last-with-data pointer; the assertion in it fails if and only if a victim is followed by data, and then nothing has changed |
| EvBuffers.AdvanceLast | libevent_server/libevent/buffer.c:645-659 | the pointer goes on to the last of the chunks with data that follow |
| BufferAdd.Add | libevent_server/libevent/buffer.c:1533-1617 | the bytes become the end of the contents, unless that end is frozen; aborts if and only if `AddAborts` held; afterwards the last-with-data pointer is right if and only if `AddKeepsPointer` held; the data of pinned chunks stay where they are |
| BufferAdd.TightAdd | libevent_server/libevent/buffer.c:1533-1617 | without pins and empty chunks in between, neither of the two can happen, whatever is added |
| BufferAdd.AddChunk | libevent_server/libevent/buffer.c:1585-1610 | when the last chunk is filled up and the rest goes to a new one, exactly in which cases the insertion aborts and the pointer stays right |
| BufferAdd.Prepend | libevent_server/libevent/buffer.c:1619-1691 | the bytes become the front of the contents unless that end is frozen; no other chunk moves, old chunks stay the end of the list |
| BufferDrain.Drain | libevent_server/libevent/buffer.c:950-1017 | the first bytes go, and no others; refused only at a frozen front of a buffer with data; chunks of a pending read stay |
| BufferDrain.Copyout | libevent_server/libevent/buffer.c:1034-1078 | the first bytes are copied, as many as there are and were asked for, and nothing changes; -1 only at a frozen front |
| BufferDrain.Remove | libevent_server/libevent/buffer.c:1020-1032 | what is returned is what has gone from the front |
| BufferPullup.UnpinnedPulls | libevent_server/libevent/buffer.c:1173-1283 | without pins it always succeeds when there are enough bytes |
| BufferPullup.Pullup | libevent_server/libevent/buffer.c:1173-1283 | the contents stay the same; succeeds, with the first bytes contiguous, if and only if there are that many and `CanPull` holds: no chunk copied from is pinned, and a pinned first chunk has room; the chunks behind what was copied are as they were |
| BufferMove.PreservePinned | libevent_server/libevent/buffer.c:751-793 | takes the chunks of a pending read out of a list: all data stay behind, the free memory of the read is where it was |
| BufferMove.RestorePinned | libevent_server/libevent/buffer.c:795-810 | the buffer is just those chunks again, empty |
| BufferMove.CopyChain | libevent_server/libevent/buffer.c:812-824 | one buffer gets the list of another |
| BufferMove.AppendChain | libevent_server/libevent/buffer.c:826-838 | one list behind the other; the last-with-data pointer comes out right |
| BufferMove.PrependChain | libevent_server/libevent/buffer.c:840-856 | one list in front of the other; the last-with-data pointer comes out right |
| BufferMove.AddBuffer | libevent_server/libevent/buffer.c:858-902 | all contents move to the end of the other buffer, or nothing changes at all; chunks of a pending read stay behind untouched |
| BufferMove.PrependBuffer | libevent_server/libevent/buffer.c:904-948 | all contents move to the front of the other buffer, or nothing changes at all; what the receiver keeps of its own chunks depends on whether it held data |
| BufferSplit.RemoveBuffer | libevent_server/libevent/buffer.c:1083-1171 | the first bytes of one buffer become the end of the other, in order; none is lost or copied twice; both stay without holes |
| BufferRuns.Run | libevent_server/libevent/buffer.c:858-1691 | any sequence of adding, prepending, draining, removing, copying out, pulling up and moving between two buffers does to the chunked buffers and returns exactly what it does to two plain byte sequences |
| BufferRuns.MoveConserves | libevent_server/libevent/buffer.c:858-1171 | on the plain sequences that `Run` is about, a move neither loses nor invents a byte |
| BufferReserve.ExpandSingle | libevent_server/libevent/buffer.c:1719-1826 | a chunk right behind the contents with enough room; contents unchanged; exactly when a new chunk is linked, else nothing but the last chunk with data changes |
| BufferVectors.CountRoom | libevent_server/libevent/buffer.c:1853-1876 | stops with enough room if and only if at most `n` of the chunks from the last one with data on can take as many bytes, an empty one its whole memory |
| BufferVectors.ExpandFast | libevent_server/libevent/buffer.c:1830-1935 | afterwards enough room lies in at most `n` chunks behind the contents, which are unchanged; if there was enough already no chunk comes or goes, else the last chunk is needed for it; exactly when a chunk is linked and how big it is |
| BufferCommit.SetupVecs | libevent_server/libevent/buffer.c:2001-2035 | the vectors start at the free space of consecutive chunks, offer enough room together, and none is empty |
| BufferCommit.Commit | libevent_server/libevent/buffer.c:661-729 | accepts the vectors if and only if `Commits` holds; the bytes in them become the end of the contents; the pointer is right afterwards if and only if not `Strands` |
| BufferRead.SingleCommits | libevent_server/libevent/buffer.c:612-729 | one vector from a reservation is accepted by the commit if and only if it is not `Misplaced` |
| BufferRead.FastCommits | libevent_server/libevent/buffer.c:612-729 | vectors of a reservation of two or more are always accepted, and strand nothing |
| BufferRead.ReserveSpace | libevent_server/libevent/buffer.c:612-643 | the vectors are free space of the buffer and large enough together; fails exactly on a frozen end or fewer than one vector; for one vector, the commit accepts it if and only if it is not `Misplaced`; for more, always |
| BufferRead.Read | libevent_server/libevent/buffer.c:2057-2180 | the bytes read are a prefix of those waiting, as long as the limit allows, and become the end of the contents |
| BufferFaults.AddAborted | libevent_server/libevent/buffer.c:1533-1617 | a run of public calls after which adding to the buffer aborts |
| BufferFaults.AddLosesPointer | libevent_server/libevent/buffer.c:1533-1617 | a run after which adding leaves the last-with-data pointer wrong |
| BufferFaults.CommitStrands | libevent_server/libevent/buffer.c:661-729 | a run after which an accepted commit leaves the pointer wrong |
| BufferFaults.CommitRefused | libevent_server/libevent/buffer.c:612-729 | a run after which the one vector just reserved is refused |
| BufferSearch.PtrSet | libevent_server/libevent/buffer.c:2410-2450 | the pointer is at the position asked for, or nowhere just when that is behind the end |
| BufferSearch.PtrMatches | libevent_server/libevent/buffer.c:2456-2488 | equal if and only if the text stands at the position, across chunks |
| BufferSearch.SearchRange | libevent_server/libevent/buffer.c:2496-2559 | returns the first occurrence between start and end, or nowhere when there is none |
| BufferSearch.StrChr | libevent_server/libevent/buffer.c:1295-1315 | the first such byte from the pointer on, or none |
| BufferSearch.FindEol | libevent_server/libevent/buffer.c:1344-1364 | the first carriage return or line feed from the pointer on, or none |
| BufferSearch.SpanEol | libevent_server/libevent/buffer.c:1366-1403 | the length of the run of line-end bytes, the one set that the code asks for |
| BufferSearch.SearchEol | libevent_server/libevent/buffer.c:1415-1488 | for each of the four styles, the first line end and its length; -1 just when there is none |
| BufferSearch.Readln | libevent_server/libevent/buffer.c:1490-1527 | the line before the first line end is returned and it and the line end are gone; nothing changes when there is none |
| Overlapped.LaunchRead | libevent_server/libevent/buffer_iocp.c:243-307 | starts a read into pinned memory directly behind the contents; its assertion fails if and only if `LaunchAborts` held of the buffer before: no chunk and nothing asked for, or at most sixteen of its chunks with room, and not all of them, hold as much as is asked for |
| Overlapped.NothingBehind | libevent_server/libevent/buffer_iocp.c:243-307 | with something asked for and no chunk behind the last one with data it does not fail |
| Overlapped.CommitRead | libevent_server/libevent/buffer_iocp.c:95-134 | the bytes that have arrived become the end of the contents, no chunk of the buffer is pinned any more, and both it and its chunks are otherwise as they were |
| Overlapped.PinRelease | libevent_server/libevent/buffer_iocp.c:81-93 | every chunk of the operation loses its pin; the detached ones are given back |
| Overlapped.DrainWhilePending | libevent_server/libevent/buffer.c:950-1017 | draining leaves a pending read pending |
| Overlapped.MoveWhilePending | libevent_server/libevent/buffer.c:858-948 | moving the contents out leaves a pending read pending; it succeeds if and only if nothing is there to move or neither end is frozen |
| Overlapped.PrependWhilePending | libevent_server/libevent/buffer.c:1619-1691 | prepending leaves a pending read pending if and only if it is refused or the read does not go into an empty first chunk |
| Overlapped.MoveInWhilePending | libevent_server/libevent/buffer.c:858-948 | moving contents in leaves a pending read pending if and only if nothing moves or the buffer holds data |
| OverlappedPull.PullupWhilePending | libevent_server/libevent/buffer.c:1173-1283 | pulling up leaves a pending read pending if and only if it fails, has nothing to copy, or is not for all bytes of the buffer |
| OverlappedPull.PullupLosesRead | libevent_server/libevent/buffer.c:1243-1265 | three chunks with which pulling up all bytes drops the one that the system writes into |
| OverlappedExpand.ExpandWhilePending | libevent_server/libevent/buffer.c:1937-1946 | making room leaves a pending read on the last chunks if and only if no new chunk is linked |
| OverlappedFaults.ExpandUnpins | libevent_server/libevent/buffer.c:1937-1946 | a run after which a chunk that is not pinned is behind those of a pending read |
| Overlapped.LaunchWrite | libevent_server/libevent/buffer_iocp.c:169-241 | the pinned vectors hold the first bytes of the contents, as many as asked for, in at most sixteen chunks |
| Overlapped.CommitWrite | libevent_server/libevent/buffer_iocp.c:136-148 | the bytes written are gone from the front and all pins are gone |
| WriteCycle.AddWhileSending | libevent_server/libevent/buffer.c:1533-1617 | adding while a write is pending leaves it pending and the memory that the system reads untouched, unless the add itself aborts or loses the pointer |
| WriteCycle.SendCycle | libevent_server/libevent/buffer_iocp.c:136-241 | launch, any adds, completion: what was sent and what is left are the old contents and what was added, in order |
| OverlappedFaults.PrependLosesRead | libevent_server/libevent/buffer.c:1619-1691 | a run in which prepending loses a pending read |
| OverlappedFaults.MoveInLosesRead | libevent_server/libevent/buffer.c:904-948 | a run in which moving contents in loses a pending read |
| OverlappedFaults.LaunchAsserts | libevent_server/libevent/buffer_iocp.c:243-307 | a run with data waiting in which the assertion fails |
| ReadCycle.WorkOn | libevent_server/libevent/buffer.c:858-1691 | any sequence of draining, moving out and, while there are data, prepending and moving in keeps a read pending and acts on the contents as on plain sequences |
| ReadCycle.ReadAll | libevent_server/libevent/buffer_iocp.c:95-307 | launch, such work in between, arrival and commit: what arrived is what follows the contents then, in order, for every buffer and size for which the launch does not abort |
| TagCodes.TagRoundTrip | libevent_server/libevent/event_tagging.c:171-231 | a tag read back is the tag written, with its length, whatever follows |
| TagCodes.IntRoundTrip | libevent_server/libevent/event_tagging.c:115-335 | an integer read back is the integer written, with its length |
| TagCodes.TagBytesBound | libevent_server/libevent/event_tagging.c:171-192 | a 32-bit tag takes at most five bytes |
| TagCodes.ValueBound | libevent_server/libevent/event_tagging.c:304-335 | digits read are less than the next power of sixteen: the value fits its type |
| Tagging.EncodeIntInternal | libevent_server/libevent/event_tagging.c:115-136 | the loop over nibbles writes the bytes of the integer |
| Tagging.EncodeTag | libevent_server/libevent/event_tagging.c:171-192 | appends the bytes of the tag |
| Tagging.EncodeInt | libevent_server/libevent/event_tagging.c:150-164 | appends the bytes of the integer, 32 or 64 bits wide |
| Tagging.TagReadableIff | libevent_server/libevent/event_tagging.c:194-231 | the tag is read inside what was pulled up unless five bytes all say that more follow and there are more |
| Tagging.DecodeTagInternal | libevent_server/libevent/event_tagging.c:194-231 | reads behind the bytes pulled up if and only if the tag is not `TagReadable`; else the tag and its length, draining just these bytes when told to |
| Tagging.DecodeInt | libevent_server/libevent/event_tagging.c:360-378 | the integer and the bytes it took, or no change |
| Tagging.UnmarshalHeader | libevent_server/libevent/event_tagging.c:422-436 | tag and length are taken off, and -1 just when they are malformed or the payload is not there; what is gone in each case |
| Tagging.Marshal | libevent_server/libevent/event_tagging.c:245-252 | appends the item: tag, length, payload |
| Tagging.WriteAll | libevent_server/libevent/event_tagging.c:245-252 | appends a stream of items |
| Tagging.ItemRoundTrip | libevent_server/libevent/event_tagging.c:245-465 | the header of an item with anything behind it gives back tag, length and payload |
| Tagging.Unmarshal | libevent_server/libevent/event_tagging.c:451-465 | the payload moves to the other buffer and the tag is returned; every failure and what has gone by then |
| Tagging.ReadAll | libevent_server/libevent/event_tagging.c:245-465 | reading a written stream gives every tag, length and payload back in order and leaves what follows |
| Tagging.PeekLength | libevent_server/libevent/event_tagging.c:386-402 | the length of the whole item as 32 bits, and no change |
| Tagging.Consume | libevent_server/libevent/event_tagging.c:438-447 | takes off exactly one item |
| Tagging.PeekThenConsume | libevent_server/libevent/event_tagging.c:386-447 | an item that is consumed could be peeked at, and what goes is the length peeked |
| Tagging.MarshalInt | libevent_server/libevent/event_tagging.c:265-286 | appends the item that holds the integer |
| Tagging.UnmarshalInt | libevent_server/libevent/event_tagging.c:469-519 | takes the item off when the tag is right; succeeds just when its payload is one integer |
| Tagging.IntThere | libevent_server/libevent/event_tagging.c:265-519 | an integer written under a tag is read back |
| Tagging.ReadsBehind | libevent_server/libevent/event_tagging.c:194-231 | a stream for which the decoder reads behind the five bytes |
| DnsNames.JoinLabels | libevent_server/libevent/evdns.c:936-989 | the labels of a valid name put together again are the name without a trailing dot |
| DnsNames.ParseDenoted | libevent_server/libevent/evdns.c:936-989 | where a name is well-formed without endless pointers, parsing finds it |
| DnsNames.ParsedLabels | libevent_server/libevent/evdns.c:936-989 | a parsed name has no empty label |
| DnsNames.NameParse | libevent_server/libevent/evdns.c:936-989 | follows pointers to the name that stands there, fails just when there is none or it does not fit, and returns where the text behind it begins; reads behind the packet if and only if `OverReads`: the walk meets a label cut off by the end for which the output has room |
| DnsNames.CutIsNoName | libevent_server/libevent/evdns.c:936-989 | such a packet holds no name at that place |
| DnsNames.LabelPastEnd | libevent_server/libevent/evdns.c:936-989 | a packet of two bytes with which it happens |
| DnsEncode.LabelTable.GetPos | libevent_server/libevent/evdns.c:1537-1546 | a position recorded for exactly this name, or -1 when there is none |
| DnsEncode.LabelTable.Add | libevent_server/libevent/evdns.c:1549-1564 | records the name unless the table is full |
| DnsEncode.PointerIff | libevent_server/libevent/evdns.c:1597-1610 | a compression pointer leads to its position if and only if that is below 0x4000 |
| DnsEncode.EncodeName | libevent_server/libevent/evdns.c:1577-1641 | the message then denotes the name at that place and every entry of the table is right, as far as pointers reach; the result exactly for a name without compression; goes one byte behind the buffer if and only if `Overruns`; why it fails in each case; entries stay after a failure if and only if `Starts`; bytes before it are untouched |
| DnsEncode.OverrunsByOne | libevent_server/libevent/evdns.c:1634-1641 | a name of three letters that goes one byte behind a buffer of four |
| DnsEncode.LeavesEntry | libevent_server/libevent/evdns.c:1612-1632 | a name that is in the table though encoding it failed |
| DnsEncode.EncodeAll | libevent_server/libevent/evdns.c:1577-1641 | with enough room all names are written, each denoted where it starts, with other bytes in between |
| DnsEncode.RoundTrip | libevent_server/libevent/evdns.c:936-1641 | names encoded with compression into one message are each parsed back without their trailing dot, and the place returned is exactly the end of the encoded name |
| RequestFlow.AlwaysSaturated | libevent_server/libevent/evdns.c:648-751 | in every run nothing waits while there is room |
| RequestFlow.LimitKept | libevent_server/libevent/evdns.c:731-751 | without probes, no more requests than the limit are in flight |
| RequestFlow.Conserved | libevent_server/libevent/evdns.c:648-751 | in every run the requests that are outstanding are those handed in and not finished |
| RequestFlow.FirstInFirstOut | libevent_server/libevent/evdns.c:731-751 | in every run requests are sent in the order of arrival, except for those given up while waiting |
| DnsQueues.Insert | libevent_server/libevent/evdns.c:2656-2669 | puts a request at the end of a circular list |
| DnsQueues.Remove | libevent_server/libevent/evdns.c:2617-2652 | takes exactly that request out and moves the head on |
| DnsQueues.FindInTable | libevent_server/libevent/evdns.c:479-493 | the request in flight with that id, or none |
| DnsQueues.Resolver.PickId | libevent_server/libevent/evdns.c:1296-1307 | an id that no request in flight has |
| DnsQueues.Resolver.Submit | libevent_server/libevent/evdns.c:2759-2773 | a request is sent when there is room, else waits at the end: one step of the flow above |
| DnsQueues.Resolver.Probe | libevent_server/libevent/evdns.c:2279-2303 | a probe is sent whatever the limit |
| DnsQueues.Resolver.Pump | libevent_server/libevent/evdns.c:731-751 | sends as many of the oldest waiting requests as there is room for |
| DnsQueues.Resolver.Finish | libevent_server/libevent/evdns.c:648-697 | the request leaves whichever list it is in, and the next ones are sent |
| DnsQueues.Resolver.Answer | libevent_server/libevent/evdns.c:846-933 | the request with an answer is finished |
| DnsQueues.Resolver.Cancel | libevent_server/libevent/evdns.c:2776-2809 | a cancelled request is on no list any more |
| DnsQueues.Resolver.TimeOut | libevent_server/libevent/evdns.c:2139-2173 | sent again under its id while attempts are left, else finished |
| DnsQueues.Resolver.Rehash | libevent_server/libevent/evdns.c:3325-3338 | every request in flight is in the bucket for its id of the new table |
| DnsQueues.Resolver.SetMaxInflight | libevent_server/libevent/evdns.c:3314-3343 | the new limit, at least one, and a table of the right size with the same requests; afterwards nothing waits needlessly if and only if nothing waited before or the requests in flight reach the new limit |
| DnsQueues.WaitsWithRoom | libevent_server/libevent/evdns.c:3314-3343 | a run that ends with a request waiting and room for it |
| DnsSearch.NumDots | libevent_server/libevent/evdns.c:2672-2679 | the number of dots |
| DnsSearch.Domains.Add | libevent_server/libevent/evdns.c:3031-3049 | the domain without its leading dots comes first |
| DnsSearch.Domains.Reverse | libevent_server/libevent/evdns.c:3054-3066 | the list is in reverse |
| DnsSearch.Domains.SetSearch | libevent_server/libevent/evdns.c:3474-3482 | the domains of a search line in their order |
| DnsSearch.Handle.MakeNew | libevent_server/libevent/evdns.c:3108-3132 | the name with that domain behind it |
| DnsSearch.Handle.Start | libevent_server/libevent/evdns.c:3134-3177 | the first name asked for is the first candidate |
| DnsSearch.Handle.TryNext | libevent_server/libevent/evdns.c:3185-3225 | the next name asked for is the next candidate, if there is one |
| DnsSearch.Handle.Resolve | libevent_server/libevent/evdns.c:3134-3238 | over a whole search the names sent are the first candidates in order, and the outcome is that of `Search` |
| DnsSearch.FindsFirst | libevent_server/libevent/evdns.c:3134-3238 | a search ends with the first candidate that is found; every earlier one failed; a time-out ends it |
| DnsSearch.AllTried | libevent_server/libevent/evdns.c:3134-3238 | when every candidate fails, all domains and the bare name have been tried once |
| EvMap.EventBase.MakeSpace | libevent_server/libevent/evmap.c:201-223 | room for the slot; every old slot stays |
| EvMap.EventBase.GetOrConstruct | libevent_server/libevent/evmap.c:615-644 | the pending change of the descriptor, or a new one at the end |
| EvMap.EventBase.ChangelistAdd | libevent_server/libevent/evmap.c:646-675 | with the change applied the kernel will know of the addition |
| EvMap.EventBase.ChangelistDel | libevent_server/libevent/evmap.c:677-726 | with the change applied the kernel will know of the removal, also when it takes back an addition |
| EvMap.EventBase.IoAdd | libevent_server/libevent/evmap.c:262-331 | the event is listed, unless there are too many; returns whether what is wanted has changed |
| EvMap.EventBase.IoDel | libevent_server/libevent/evmap.c:335-387 | the event is not listed any more; returns whether what is wanted has changed |
| EvMap.EventBase.RemoveAll | libevent_server/libevent/evmap.c:559-578 | no change is pending and what the kernel knows is what is wanted |
| EvMap.Run | libevent_server/libevent/evmap.c:262-726 | after any run of additions, removals and flushes the table lists the events of a plain list, and the kernel knows just what the list wanted at the last flush |
| CondVar.AlwaysInvariant | libevent_server/libevent/evthread_win32.c:176-295 | in every interleaving of any number of threads the counters agree with the threads that wait |
| CondVar.NotStuck | libevent_server/libevent/evthread_win32.c:230-295 | a thread that a broadcast has reached can always return, and then leaves with success |
| CondVar.BroadcastWakes | libevent_server/libevent/evthread_win32.c:215-295 | with broadcasts only, such a thread goes on waiting until, the first time it is found not to, it leaves with success |
| CondVar.SignalsConserved | libevent_server/libevent/evthread_win32.c:215-295 | with single signals, each has woken one thread or is still to be used |
| CondVar.WokenIff | libevent_server/libevent/evthread_win32.c:230-295 | a thread from before the last signal leaves with success if and only if fewer were woken than signals sent |
| CondVar.SignalStolen | libevent_server/libevent/evthread_win32.c:215-295 | a run in which later threads use up the signal for an earlier one |
| CondVar.Cond.Wake | libevent_server/libevent/evthread_win32.c:215-228 | the code takes the step of the protocol |
| CondVar.Cond.BeginWait | libevent_server/libevent/evthread_win32.c:230-250 | the code takes the step of the protocol |
| CondVar.Cond.CheckWait | libevent_server/libevent/evthread_win32.c:251-286 | the code takes the step of the protocol, in each of its three cases |
| CondVar.Cond.EndWait | libevent_server/libevent/evthread_win32.c:283-295 | the code takes the step of the protocol |
| MinHeaps.TopIsFirst | libevent_server/libevent/minheap-internal.h:91-94 | no event in the heap is due before the top |
| MinHeaps.MinHeap.ShiftUp | libevent_server/libevent/minheap-internal.h:133-143 | order and places hold again, with the same events |
| MinHeaps.MinHeap.ShiftDown | libevent_server/libevent/minheap-internal.h:145-158 | order and places hold again, with the same events |
| MinHeaps.MinHeap.Push | libevent_server/libevent/minheap-internal.h:71-77 | the heap holds one event more |
| MinHeaps.MinHeap.Erase | libevent_server/libevent/minheap-internal.h:96-115 | exactly that event is gone, from any place; -1 when it is not in the heap |
| MinHeaps.EraseOk | libevent_server/libevent/minheap-internal.h:96-115 | the last event in the freed place is out of order upwards or downwards, as the comparison in the code says |
| Timeouts.Base.AddTimeout | libevent_server/libevent/event.c:2026-2174 | the event is pending, due after its interval, in the heap or at its sorted place of its list; every other list keeps its order, and every other event but the timer of the list what it was |
| Timeouts.Base.Delete | libevent_server/libevent/event.c:2196-2268 | the event is neither pending nor active, and off its list and the queue; the order of the others and all they were is kept |
| Timeouts.Base.Register | libevent_server/libevent/event.c:1717-1762 | a new event, not pending and not active, is one of the base |
| Timeouts.FindPlace | libevent_server/libevent/event.c:2542-2570 | the place in the list that keeps it sorted, equal times in order of arrival |
| Timeouts.Base.InitCommon | libevent_server/libevent/event.c:1181-1253 | the list for that duration, a new one if there is none; -1 just when there are too many |
| Timeouts.Base.Schedule | libevent_server/libevent/event.c:1144-1151 | the timer of the list is due with its first event |
| Timeouts.Base.RunTimer | libevent_server/libevent/event.c:1156-1177 | activates exactly the events of the list that are due, in order, and no timer is missing for the rest |
| Timeouts.Base.Process | libevent_server/libevent/event.c:2475-2499 | activates exactly the events of the heap that are due, in order |
| Timeouts.Base.Correct | libevent_server/libevent/event.c:2422-2472 | when the clock has gone back all pending times move by the same amount |
| Timeouts.Base.NextTimeout | libevent_server/libevent/event.c:2379-2414 | sleeps exactly until the first event of the heap, for ever just when there is none |
| Timeouts.RunThenSleep | libevent_server/libevent/event.c:1144-2570 | after any run of adding, deleting, clock changes and processing, the loop sleeps exactly until the first pending timeout, be it in the heap or on a list, for ever just when none is pending, and not at all while something is active |
| TokenBucket.RefillIsMin | libevent_server/libevent/bufferevent_ratelim.c:72-110 | in machine arithmetic a refill gives the smaller of the maximum and the sum, for every bucket that is not over-full |
| TokenBucket.RefillIsMinIff | libevent_server/libevent/bufferevent_ratelim.c:72-110 | exactly when it does, for every bucket |
| TokenBucket.OverfullGrows | libevent_server/libevent/bufferevent_ratelim.c:72-110 | an over-full bucket for which it does not |
| TokenBucket.BucketBound | libevent_server/libevent/bufferevent_ratelim.c:72-110 | over any run of `k` ticks no more than the maximum and `k` times the rate gets through, and the bucket stays between empty and full |
| RateLimit.Bev.Update | libevent_server/libevent/bufferevent_ratelim.c:72-110 | the two sides are refilled, or nothing changes when no tick has passed |
| RateLimit.Bev.Enable | libevent_server/libevent/bufferevent.c:407-427 | an enabled direction is active unless it is suspended |
| RateLimit.Bev.Disable | libevent_server/libevent/bufferevent.c:498-510 | a disabled direction is not active |
| RateLimit.Bev.DecrementOwn | libevent_server/libevent/bufferevent_ratelim.c:284-298 | the direction is suspended if and only if its bucket is empty then |
| RateLimit.Bev.DecrementLimit | libevent_server/libevent/bufferevent_ratelim.c:900-954 | the limit goes down, or up for a negative amount, and no wakeup is lost |
| RateLimit.Bev.RefillCallback | libevent_server/libevent/bufferevent_ratelim.c:395-441 | every direction with something in its bucket goes on; the timer is pending if one does not |
| RateLimit.Bev.SetRateLimit | libevent_server/libevent/bufferevent_ratelim.c:558-635 | the buckets and what is suspended under the new limit, in each case |
| RateLimit.SuspendGroup | libevent_server/libevent/bufferevent_ratelim.c:351-391 | every member whose lock is free is suspended |
| RateLimit.UnsuspendGroup | libevent_server/libevent/bufferevent_ratelim.c:471-522 | from any starting point every member is visited exactly once and goes on unless its lock is taken; then, and only then, the group remembers to try again |
| RateLimit.GetMax | libevent_server/libevent/bufferevent_ratelim.c:199-260 | exactly the smaller of the own bucket and the share of the group, or nothing while the group is suspended |
| RateLimit.Decrement | libevent_server/libevent/bufferevent_ratelim.c:274-348 | own bucket and the group's go down by the same amount, the group is suspended if and only if its bucket is empty then, and the invariants of both hold |
| RateLimit.DecrementGroup | libevent_server/libevent/bufferevent_ratelim.c:300-309 | the group is suspended if and only if its bucket is empty then |
| RateLimit.RefillGroup | libevent_server/libevent/bufferevent_ratelim.c:527-556 | both buckets of the group are refilled by the ticks passed, and a group that may go on wakes every member whose lock is free |
| RateLimit.AddToGroup | libevent_server/libevent/bufferevent_ratelim.c:731-776 | the new member comes last, leaving another group first, and is suspended just as the group is; nothing changes for one that is a member already |
| RateLimit.RemoveFromGroup | libevent_server/libevent/bufferevent_ratelim.c:784-806 | the member, and no other, leaves the group, and waits for it no more |
| RateLimit.PassSome | libevent_server/libevent/bufferevent_ratelim.c:199-348 | asking and passing is a step of a run of the bucket; less than was wanted goes through only if the bucket is empty then |
| RateLimit.PassAll | libevent_server/libevent/bufferevent_ratelim.c:199-348 | any sequence of asks passes no more in all than a full bucket and the rate for every tick |
| Inet6Text.ParseMeans | libevent_server/libevent/evutil.c:1682-1792 | parsing the text of any well-formed form gives the words that it shows |
| Inet6Accept.WrittenMeans | libevent_server/libevent/evutil.c:1682-1792 | the same for loose forms: a prefix 0x in the four characters of a word, signs and white space in the numbers of the quad, one more colon at the end |
| Inet6Accept.TakenIff | libevent_server/libevent/evutil.c:1682-1792 | a text parses if and only if it is written that way |
| Inet6Accept.WellFormedIff | libevent_server/libevent/evutil.c:1682-1792 | a text that parses is well-formed if and only if all its characters are hexadecimal digits, colons or dots and it does not end in a single colon |
| Inet6Accept.PrefixTaken | libevent_server/libevent/evutil.c:1682-1792 | "::0x1" parses |
| Inet6Accept.ColonTaken | libevent_server/libevent/evutil.c:1682-1792 | "::1:" parses |
| Inet6Accept.SignTaken | libevent_server/libevent/evutil.c:1682-1792 | "::1.+2. 3.4" parses |
| Inet6.FindGap | libevent_server/libevent/evutil.c:1634-1652 | the first longest run of two or more zero words, or none |
| Inet6.Print | libevent_server/libevent/evutil.c:1586-1680 | the text is that of the canonical form of the address |
| Inet6.CanonicalUnique | libevent_server/libevent/evutil.c:1586-1680 | each address has one canonical form |
| Inet6.CanonicalMeans | libevent_server/libevent/evutil.c:1586-1680 | the canonical form shows the words of the address |
| Inet6.ParseWords | libevent_server/libevent/evutil.c:1682-1792 | the loop computes the meaning of every text, well-formed or not |
| Inet6.Pton | libevent_server/libevent/evutil.c:1682-1792 | the address that the text stands for, or none |
| Inet6.RoundTrip | libevent_server/libevent/evutil.c:1586-1792 | parsing the canonical text of an address gives the address |
| Inet6.Reread | libevent_server/libevent/evutil.c:1586-1792 | every address printed and parsed comes back |
| Inet6.Normalize | libevent_server/libevent/evutil.c:1586-1792 | any text that parses, printed again, stands for the same address |
| Inet6.TextFits | libevent_server/libevent/evutil.c:1586-1680 | no text is longer than the local buffer that it is made in |
| Inet6Buffer.Ntop | libevent_server/libevent/evutil.c:1586-1680 | what the caller finds in a buffer of the given size |
| Inet6Buffer.RereadIff | libevent_server/libevent/evutil.c:1586-1792 | it parses back to the address if and only if the buffer has room for the text and its terminator |
| Inet6Buffer.LoopbackLost | libevent_server/libevent/evutil.c:1586-1680 | an address and a size for which it does not |
| Dispatch.Base.ActivateNow | libevent_server/libevent/event.c:2288-2327 | the event is at the end of its queue, once; a more important one interrupts the round |
| Dispatch.Base.DeleteNow | libevent_server/libevent/event.c:2196-2268 | the event is on no queue, and the others of its queue follow each other as before |
| Dispatch.Base.Begin | libevent_server/libevent/event.c:1311-1335 | the oldest event of the queue is the one that starts |
| Dispatch.Base.ProcessQueue | libevent_server/libevent/event.c:1311-1370 | callbacks start in queue order while nothing more important waits; what is left behind, by the result |
| Dispatch.Base.ProcessActive | libevent_server/libevent/event.c:1409-1435 | something starts if and only if something is active, the most important first |
| Dispatch.Base.Loop | libevent_server/libevent/event.c:1536-1638 | over any rounds and any activations from callbacks: no event starts while a more important one waits, events of one priority start in the order they became active, and every activation starts once, waits, or was taken back |

## Left out

- Failure of memory allocation, locks, callbacks on buffers, the counters `n_add_for_cb` and `n_del_for_cb`, and reference counts.
- Immutable, referenced, mapped and sendfile chunks; writing to a socket; printf into a buffer.
- Machine widths: sizes and pointers are those of a 64-bit build (chunk header 48 bytes, smallest chunk 1024); lengths do not overflow `size_t`.
- BufferAdd.Add: after an abort only the list is described, since the program does not go on.
- BufferDrain.Drain: needs `PinsOk`, that the chunks in use by a read are the last ones; this is what launching a read gives.
- BufferDrain.Remove: needs `PinsOk`, as `Drain` does.
- BufferSearch.Readln: needs `PinsOk`, as `Drain` does.
- BufferSplit.RemoveBuffer: needs both buffers `Tight`; with empty chunks in between, the pointer can go wrong as described for adding.
- BufferRuns.Run: the operations on reserved space are not among its steps, because of the findings above; they have their own contracts.
- BufferRead.Read: the set-up offers four vectors as in the POSIX build; the Windows path sets up two.
- BufferSearch.SpanEol: models `evbuffer_strspn` for the set of line-end bytes only, the one set that it is called with.
- ReadCycle.ReadAll: prepending and moving in only while the buffer holds data, no pulling up, and a buffer and size for which the launch does not abort, because of the findings above.
- WriteCycle.SendCycle: every chunk holds data at the start, as in plain use; `AddWhileSending` says what happens otherwise.
- Tagging.Unmarshal: a payload of 2^31 bytes or more is excluded, as the length is a signed int there.
- Tagging.Consume: the same payloads are excluded.
- Tagging.PeekThenConsume: the same payloads are excluded.
- Tagging.PeekLength: the length is modulo 2^32, as in the code.
- Time values and strings in tagged streams, which wrap the items modelled here.
- DnsEncode.EncodeName: the call without a label table, which skips the lookups, is not modelled; a zero that goes outside of the memory is not written.
- DnsQueues.Resolver.Submit: at most 0xffff requests in flight, since there are no more ids; the search for a free id then does not end in the code.
- DnsQueues.Resolver.TimeOut: which server a request goes to is any known one; the state of the servers, their failure and their probing are left out.
- DnsSearch.Handle.Resolve: the name is not empty, since the code looks at the byte before its first one otherwise; what a server answers is a parameter.
- Parsing of replies, host files and configuration, and requests by address.
- EvMap.Run: the table as an array of slots; the hash table for Windows handles, signals, and the check that edge-triggered and other events are not mixed are left out. The kernel is what the backend was told.
- CondVar.AlwaysInvariant: the critical sections are atomic steps; the system's event is a flag; waiting times are a parameter.
- Timeouts.RunThenSleep: times are whole microseconds in one number; the array of the heap is a sequence.
- MinHeaps.MinHeap.Push: growing the array of the heap is left out.
- RateLimit.GetMax: reading and writing share one method with a flag, where the code has two copies. A step of a group is atomic; which members' locks are taken is a parameter.
- RateLimit.Bev.DecrementOwn: a refund that takes the bucket over its maximum is excluded, since what holds of buckets in use does not hold after it.
- RateLimit.Bev.DecrementLimit: the same refunds are excluded.
- RateLimit.Decrement: the same refunds are excluded.
- RateLimit.PassAll: for a bufferevent without a group.
- Inet6.Pton: strtol reads whole numbers without a bound; IPv4 addresses by themselves, and builds that use the system's functions, are left out.
- Dispatch.Base.Loop: callbacks are scripts of activations, deletions and a break; deferred callbacks, signals with several calls, and waiting in the backend are left out.
- HTTP, RPC, listeners, bufferevents apart from rate limits, random numbers, and the backends.
