# Kanon, verified

A Dafny model of the self-contained cores of kanon, an event-driven network library, with proofs about them. Each
core keeps the form it has in the library. Lists, buffers, the pool and the poll table are classes whose methods update
fields in place. The concurrent protocols are step relations over a state, with one step per stretch of code under a
mutex, or per access to what threads share. Arithmetic and wire formats are functions.

| file | what it models |
|---|---|
| `Bytes.dfy`, `Sequences.dfy`, `Striping.dfy`, `Ordering.dfy`, `Counting.dfy`, `Runs.dfy` | shared vocabulary: bytes and big-endian words, folding 16-byte stripes, merging under an order, counting threads, runs of a step protocol |
| `Xxh32.dfy`, `Xxh32Vectors.dfy` | XXH32 one-shot and streaming, as the "XXH32 Algorithm Description" section of the xxHash fast digest algorithm specification has it |
| `Mult128.dfy` | the portable 64 by 64 to 128 bit product |
| `Framing.dfy`, `PbCodec.dfy` | the size, tag, payload, checksum frames of `GenericPbCodec` and what a receiver makes of a stream |
| `ForwardList.dfy`, `ForwardListSort.dfy` | the singly linked list with a cached tail, and its merge sort with a binary counter of runs |
| `ChunkList.dfy`, `ChunkStream.dfy`, `Buffer.dfy` | the byte queues |
| `EventLoop.dfy`, `RwLock.dfy`, `ThreadPool.dfy`, `AsyncLog.dfy` | the concurrent protocols |
| `MemoryPool.dfy`, `Poller.dfy`, `IntFormat.dfy` | the chunk allocator, the poll table, decimal output |

## Main results

- **Streaming is one-shot.** For every way of cutting an input into pieces, the streaming hash is the one-shot hash,
  with the length wrapped to 32 bits and the sticky flag included. `Send` uses this on the chunks of its list. The hash
  itself is anchored to the eight digests that xxHash publishes for it.
- **The codec is a round trip under any fragmentation.** However a stream of frames is cut, the receiver delivers
  exactly the payloads of the complete frames, in order and once each, up to the first payload that the parser refuses,
  and keeps exactly what follows. Apart from that refusal it reports an error if and only if an entry finds 2^26 bytes
  or more. Conversely, whatever bytes arrive, what is consumed is exactly the frames of what is delivered, each error
  code is reported exactly if the bytes left call for it, and below 2^26 bytes in all the cuts change none of it.
- **The sort is a sorted permutation** for every strict weak order. The index bound of 64 follows from the run sizes
  being exact powers of two.
- **The closed form of `GetReadableSize`** is right if and only if every chunk between the second and the last is full,
  which every operation but `ReserveChunk` keeps.
- **No wakeup is lost** in the event loop, the lock and the pool. Each has an invariant over all runs, and a bound on
  how many steps it takes to settle without new requests. For a lock that admits at least two readers the condition is
  exact: no run deadlocks if and only if there is at most one thread more than the reader counter admits. For the event
  loop the one exception is shown: a functor queued by the owner before the loop starts is slept on, at a poll before
  the first swap. The loop ends only on request. In the lock, exclusion is proved of the calls: whoever is inside by
  `WLock` is there alone.
- **The log accounts for every message** in the order of the mutex. What is dropped is exactly what the notices in the
  file own up to, and nothing is lost in a run if and only if every message is shorter than a buffer and the messages
  between two swaps never take more than sixteen buffers, which fewer bytes than eight buffers hold cannot do. The back
  thread alone gets everything out.
- **The allocator** keeps its free list acyclic and equal to the chunks marked free, and never touches a payload in use.

## Properties that do not hold throughout

Each of these is what the code, or a comment in it, sets out to do. The exact condition is proved of each, and most
come with a run on which it fails.

- `ChunkList::GetReadableSize` (`kanon/buffer/chunk_list.cc:126-152`) is the number of readable bytes. After
  `ReserveChunk` of n chunks on k chunks it still is if and only if n is zero, there are at most three chunks in all, or
  n is one and the last chunk was full: `ChunkLists.ChunkList.ReserveThenMeasure`. Four chunks on a new list make it
  4096 too large: `ChunkLists.ReservedChunksMislead`.
- `ChunkList::ReserveWriteSpace` (`kanon/buffer/chunk_list.cc:210-222`) makes room for an append of that size. It does
  on a list in use: `ChunkLists.ChunkList.ReserveThenAppend`. On an empty list it can be one chunk short, because the
  first chunk keeps room for a header: `ChunkLists.ChunkList.ReserveThenAppendToEmpty` gives the exact condition,
  `ChunkLists.ReservationTooShort` a run.
- `Buffer::ReserveWriteSpace` admits an append after a size was prepended, as its comment has it
  (`kanon/buffer/buffer.cc:72-73`). It does if and only if the request fits as it is or the free space covers the eight
  bytes of the prefix, because the subtraction in its test is unsigned: `Buffers.Buffer.ReserveWriteSpace`, and
  `Buffers.PrependedWhenFull` for a run.
- `Poller::UpdateChannel` (`kanon/linux/net/poller.cc:65-106`) leaves a slot on exactly if it has events, where
  assertions are compiled out. It does if and only if an old slot was on, or a new one has events:
  `Pollers.Poller.UpdateChannel`, and `Pollers.ArmedThroughout` over the life of a channel.
  `Pollers.DisableThenEnable` and `Pollers.RegisterWithoutEvents` are runs.
- The size test of `GenericPbCodec::OnMessage` (`kanon/protobuf/generic_pb_codec.cc:120-125`) lets sizes below 2^26
  pass. The four sizes from 2^26 - 4 on can never be delivered, since an entry that finds 2^26 bytes discards them:
  `Framing.DeliveredFits` and `Framing.Deliverable` give the exact condition.
- `RWLock::RUnlock` (`kanon/thread/rw_lock.cc:43-53`) notifies one waiting reader when the counter leaves its maximum.
  For a maximum of at least two, that leaves nobody behind if and only if there is at most one thread more than the
  maximum: `RwLocks.ThreadBound`, whose proof builds the run for every larger number (`RwLocks.LeaveAll`).
- The back thread of `AsyncLog` (`kanon/log/async_log.cc:103-115`) discards what is over sixteen buffers:
  `AsyncLogs.NothingLost` says exactly when that loses messages, `AsyncLogs.OverfullBatch` is a run.

## Model

| member | source | states |
|---|---|---|
| Bytes.DecodeEncodeBE32 | kanon/buffer/buffer.h:249-254 | a 32-bit value survives conversion to network order and back |
| Bytes.EncodeDecodeBE32 | kanon/buffer/buffer.h:282-288 | and so do four bytes the other way round |
| Bytes.EncodeOrder | kanon/buffer/buffer.h:249-254 | encodings are ordered, byte by byte from the first, as the numbers are: the most significant byte comes first |
| Striping.FeedConcat | third-party/xxHash/xxhash.h:2175-2224 | folding the stripes of two inputs in turn, with the bytes left pending by the first in front of the second, is folding the stripes of their concatenation |
| Striping.ConsumeStripes | third-party/xxHash/xxhash.h:2207-2215 | the stripe loop consumes exactly the complete stripes and stops at the pending bytes |
| Xxh32.Finalize | third-party/xxHash/xxhash.h:1994-2021 | the length, the remaining bytes and the avalanche are mixed in as the one-shot hash has it |
| Xxh32.MixRest | third-party/xxHash/xxhash.h:2012-2020 | the two loops mix in exactly the remaining bytes, fours first |
| Xxh32.OneShot | third-party/xxHash/xxhash.h:2083-2114 | the one-shot routine computes the hash of the whole input |
| Xxh32.State.constructor | third-party/xxHash/xxhash.h:2159-2170 | a reset state holds what the empty input leaves |
| Xxh32.State.TopUp | third-party/xxHash/xxhash.h:2194-2205 | completing the kept bytes to a stripe leaves the same lanes and pending bytes to come |
| Xxh32.State.Update | third-party/xxHash/xxhash.h:2175-2224 | an update of any length, the empty one included, changes lanes, kept bytes, wrapped length and flag as feeding the concatenation would |
| Xxh32.State.Digest | third-party/xxHash/xxhash.h:2229-2245 | the digest is read off the state without changing it |
| Xxh32.FedAfter | third-party/xxHash/xxhash.h:2175-2224 | one update takes the state for some data to the state for that data and the input, modulo 2^32 in the length |
| Xxh32.DigestAfter | third-party/xxHash/xxhash.h:2229-2245 | the digest of the state for some data is the one-shot hash of the data |
| Xxh32.StreamingIsOneShot | third-party/xxHash/xxhash.h:2159-2245 | for every sequence of pieces, updates in turn and a digest give the one-shot hash of the concatenation |
| Xxh32.HashPieces | kanon/protobuf/generic_pb_codec.cc:65-82 | reset, one update per piece and digest compute that hash |
| Xxh32Vectors.NoBytes | third-party/xxHash/cli/xsum_sanity_check.c:102-103 | the published digests of the empty input |
| Xxh32Vectors.OneByte | third-party/xxHash/cli/xsum_sanity_check.c:104 | the published digest of one byte |
| Xxh32Vectors.OneByteSeeded | third-party/xxHash/cli/xsum_sanity_check.c:105 | the published digest of one byte, seeded |
| Xxh32Vectors.FourteenBytes | third-party/xxHash/cli/xsum_sanity_check.c:106 | the published digest of the first fourteen bytes of the test buffer |
| Xxh32Vectors.FourteenBytesSeeded | third-party/xxHash/cli/xsum_sanity_check.c:107 | and seeded |
| Xxh32Vectors.Bytes222 | third-party/xxHash/cli/xsum_sanity_check.c:108 | the published digest of 222 bytes, thirteen stripes and a remainder |
| Xxh32Vectors.Bytes222Seeded | third-party/xxHash/cli/xsum_sanity_check.c:109 | and seeded |
| Mult128.Mult32to64Exact | third-party/xxHash/xxhash.h:3226 | the product of two 32-bit halves is exact |
| Mult128.CrossProductsExact | third-party/xxHash/xxhash.h:3345-3348 | the four cross products are the exact products of the halves |
| Mult128.NeverOverflows | third-party/xxHash/xxhash.h:3350-3352 | neither sum exceeds 64 bits, for all operands |
| Mult128.Mult64to128Exact | third-party/xxHash/xxhash.h:3344-3358 | upper times 2^64 plus lower is the product, for all operands |
| Mult128.ShiftOrIsSum | third-party/xxHash/xxhash.h:3353 | shifting and or-ing the halves together is adding them |
| Framing.Frame | kanon/protobuf/generic_pb_codec.cc:84-92 | a frame is four bytes longer than its size header says |
| Framing.ParseOfSent | kanon/protobuf/generic_pb_codec.cc:154-184 | a body that Send built parses to its payload, and fails only if the protobuf parser refuses it |
| Framing.BodyIsSent | kanon/protobuf/generic_pb_codec.cc:154-184 | conversely, a body that parses is the one that Send builds for its payload |
| Framing.DrainFrame | kanon/protobuf/generic_pb_codec.cc:117-150 | a complete frame at the front is delivered, or refused by the parser, whatever follows it |
| Framing.DrainPartial | kanon/protobuf/generic_pb_codec.cc:117-150 | any proper prefix of a frame waits, untouched |
| Framing.OversizeRejected | kanon/protobuf/generic_pb_codec.cc:120-125 | a frame whose size reaches 2^26 is refused as soon as eight bytes of it are there |
| Framing.DrainStream | kanon/protobuf/generic_pb_codec.cc:97-152 | of any prefix of a stream of frames, exactly the complete ones are delivered in order, up to the first payload that the parser refuses, and exactly the rest is left |
| Framing.FeedStream | kanon/protobuf/generic_pb_codec.cc:36-184 | for every fragmentation of a stream of frames: exactly the complete payloads, once each and in order, up to the first that the parser refuses, exactly the rest left, and apart from that refusal an error if and only if some entry finds 2^26 bytes or more |
| Framing.DrainSound | kanon/protobuf/generic_pb_codec.cc:97-152 | for arbitrary bytes, what is consumed is exactly the frames of the payloads delivered |
| Framing.DrainVerdict | kanon/protobuf/generic_pb_codec.cc:97-184 | for arbitrary bytes and each code, the code is reported if and only if the bytes left call for it: a header that is missing or of a proper size with the rest still to come, a size too small or too large, a wrong checksum, a right checksum without the tag, a frame that the parser refuses |
| Framing.DrainUnique | kanon/protobuf/generic_pb_codec.cc:97-184 | whole frames of accepted payloads and that verdict on what follows determine the outcome: there is no other |
| Framing.AnyCut | kanon/protobuf/generic_pb_codec.cc:97-152 | arbitrary bytes below 2^26 in all: however they are cut, the same is delivered and the same error reported, and without an error the same is left |
| Framing.DeliveredFits | kanon/protobuf/generic_pb_codec.cc:97-152 | whatever arrives and however it is cut, every payload delivered is accepted by the parser and its whole frame, size header included, is below 2^26 bytes |
| Framing.Deliverable | kanon/protobuf/generic_pb_codec.cc:112-125 | some fragmentation of its frame delivers a payload if and only if the parser accepts it and the frame is below 2^26 bytes; the test of the size header admits four sizes more |
| PbCodec.GetCheckSum | kanon/protobuf/generic_pb_codec.cc:232-234 | the checksum of contiguous bytes is their XXH32 |
| PbCodec.HashChunks | kanon/protobuf/generic_pb_codec.cc:65-82 | hashing chunk by chunk gives the checksum of the list's bytes and leaves the list as it was |
| PbCodec.GenericPbCodec.Send | kanon/protobuf/generic_pb_codec.cc:36-95 | the list handed to the connection holds exactly the frame of the payload |
| PbCodec.GenericPbCodec.Finish | kanon/protobuf/generic_pb_codec.cc:84-92 | size in front and checksum behind make the frame |
| PbCodec.GenericPbCodec.CheckCheckSum | kanon/protobuf/generic_pb_codec.cc:232-243 | true exactly if the last four bytes are the checksum of those before them |
| PbCodec.GenericPbCodec.Parse | kanon/protobuf/generic_pb_codec.cc:154-184 | checksum, tag and payload are judged in that order, with the error code of the first that fails |
| PbCodec.GenericPbCodec.Examine | kanon/protobuf/generic_pb_codec.cc:117-150 | one turn of the receiving loop judges the front of the buffer as the wire format says |
| PbCodec.GenericPbCodec.OnMessage | kanon/protobuf/generic_pb_codec.cc:97-152 | deliveries, remaining buffer and error are those of an entry on the buffered bytes, too large a buffer included |
| Ordering.MergedPermutes | kanon/algo/forward_list/forward_list_impl.h:293-321 | merging neither adds nor loses a value |
| Ordering.MergedSorted | kanon/algo/forward_list/forward_list_impl.h:293-321 | the merge of two sorted sequences is sorted, for every strict weak order |
| Ordering.MergedTies | kanon/algo/forward_list/forward_list_impl.h:293-321 | among equivalent values, those of the first sequence come first, each in its own order |
| ForwardLists.ForwardList.Acyclic | kanon/algo/forward_list/algorithm.cc:11-129 | a chain that ends visits no node twice |
| ForwardLists.ForwardList.Reset | kanon/algo/forward_list.h:67-72 | the list is empty and its header its own last node |
| ForwardLists.ForwardList.Swap | kanon/algo/forward_list.h:55-63 | the two lists exchange their chains, an empty one leaving the header as last node; a list swapped with itself stays as it is |
| ForwardLists.ForwardList.Move | kanon/algo/forward_list.h:39-46 | the new list has the chain, the old one is empty |
| ForwardLists.ForwardList.PushFront | kanon/algo/forward_list/algorithm.cc:11-21 | the node becomes the first of the chain, and the last of an empty one |
| ForwardLists.ForwardList.PushBack | kanon/algo/forward_list/algorithm.cc:23-34 | the node becomes the last of the chain |
| ForwardLists.ForwardList.InsertAfter | kanon/algo/forward_list/algorithm.cc:53-66 | the node follows the given position, and is the last if that was |
| ForwardLists.ForwardList.ExtractFront | kanon/algo/forward_list/algorithm.cc:36-51 | the first node is unlinked, the header being last again when it was the only one |
| ForwardLists.ForwardList.ExtractAfter | kanon/algo/forward_list/algorithm.cc:68-88 | the node after the position is unlinked, and the tail updated when it was the last |
| ForwardLists.ForwardList.ExtractRange | kanon/algo/forward_list/algorithm.cc:90-109 | the open range is unlinked and returned by its first node, null for an empty range |
| ForwardLists.ForwardList.PushFrontValue | kanon/algo/forward_list/forward_list_impl.h:97-101 | the value comes before all others |
| ForwardLists.ForwardList.PushBackValue | kanon/algo/forward_list/forward_list_impl.h:104-108 | the value comes after all others |
| ForwardLists.ForwardList.InsertValueAfter | kanon/algo/forward_list/forward_list_impl.h:111-116 | the value is inserted at the position, in a new node without which the chain is what it was |
| ForwardLists.ForwardList.InsertCopies | kanon/algo/forward_list/forward_list_impl.h:119-133 | count copies are inserted at the position |
| ForwardLists.ForwardList.PopFront | kanon/algo/forward_list/forward_list_impl.h:148-153 | the first value is gone |
| ForwardLists.ForwardList.EraseAfter | kanon/algo/forward_list/forward_list_impl.h:169-174 | the value after the position is gone |
| ForwardLists.ForwardList.EraseRange | kanon/algo/forward_list/forward_list_impl.h:192-212 | the values of the open range are gone, the others stay |
| ForwardLists.ForwardList.Clear | kanon/algo/forward_list/forward_list_impl.h:237-262 | the loop ends and the list is empty |
| ForwardLists.ForwardList.Resize | kanon/algo/forward_list/forward_list_impl.h:24-39 | the list is cut to n values, or filled up to n with copies |
| ForwardLists.ForwardList.SearchBefore | kanon/algo/forward_list/forward_list_impl.h:277-291 | the position before the first value, from a position on, that satisfies the predicate, or null if none does |
| ForwardLists.ForwardList.SpliceAfter | kanon/algo/forward_list/forward_list_impl.h:341-361 | the whole of the other list is in place after the position, and the other list is empty |
| ForwardLists.ForwardList.Merge | kanon/algo/forward_list/forward_list_impl.h:293-321 | this list holds the merge of both, the other is empty, and no node was copied |
| ForwardLists.ForwardList.RemoveIf | kanon/algo/forward_list/forward_list_impl.h:363-377 | exactly the values that do not satisfy the predicate remain, in order, and the number removed is returned |
| ForwardLists.KeptConcat | kanon/algo/forward_list/forward_list_impl.h:363-377 | each value is kept or not on its own, in the order they were in |
| ForwardLists.ForwardList.Unique | kanon/algo/forward_list/forward_list_impl.h:391-412 | each run of related neighbours is reduced to its first value, and the number removed is returned |
| ForwardLists.DedupedApart | kanon/algo/forward_list/forward_list_impl.h:391-412 | no two neighbours of what remains are related |
| ForwardLists.DedupedRun | kanon/algo/forward_list/forward_list_impl.h:391-412 | the first run, as long as it goes on, leaves exactly its first value, and what follows is treated alike |
| ForwardLists.ForwardList.ReverseNodes | kanon/algo/forward_list/algorithm.cc:111-129 | every link is turned around, and head and tail change places |
| ForwardLists.ForwardList.Reverse | kanon/algo/forward_list/forward_list_impl.h:379-389 | the values are in reverse order, on lists of every length |
| ForwardListSort.CarryFits | kanon/algo/forward_list/forward_list_impl.h:414-453 | in a counter of runs of exact powers of two, a carry stays below index 64 for every list whose size fits 64 bits |
| ForwardListSort.CarryStep | kanon/algo/forward_list/forward_list_impl.h:429-443 | merging two runs of 2^i values gives a sorted run of 2^(i+1) |
| ForwardListSort.Carry | kanon/algo/forward_list/forward_list_impl.h:426-444 | carrying one more value through the counter keeps every slot empty or a sorted run of exactly 2^i values, and never takes the branch that swaps by size |
| ForwardListSort.MergeRuns | kanon/algo/forward_list/forward_list_impl.h:446-452 | merging the slots in turn leaves one sorted run of all values |
| ForwardListSort.Sort | kanon/algo/forward_list/forward_list_impl.h:414-453 | the list is a sorted permutation of what it was, for every strict weak order |
| ChunkLists.Chunk.SetToHeader | kanon/buffer/chunk_list.h:39-42 | both indices stand behind the header room, nothing is readable |
| ChunkLists.Chunk.Append | kanon/buffer/chunk_list.h:62-68 | the bytes follow what was readable |
| ChunkLists.Chunk.Prepend | kanon/buffer/chunk_list.h:97-105 | the bytes precede what was readable |
| ChunkLists.ChunkList.AddChunk | kanon/buffer/chunk_list.cc:258-280 | a chunk from the free list, or a new one, goes to the end empty; only the first of a list keeps header room |
| ChunkLists.ChunkList.Append | kanon/buffer/chunk_list.cc:47-91 | the bytes follow the contents across chunk boundaries, and exactly the chunks needed are taken, from the free list as long as it lasts; chunks in use and free chunks stay those created less those erased |
| ChunkLists.ChunkList.Prepend | kanon/buffer/chunk_list.cc:37-45 | at most eight bytes precede the contents |
| ChunkLists.ChunkList.AdvanceRead | kanon/buffer/chunk_list.cc:93-124 | exactly the smaller of len and the size is dropped from the front, and the loop ends |
| ChunkLists.ChunkList.PutToFreeChunk | kanon/buffer/chunk_list.cc:154-168 | the first chunk moves to the free list, empty, and the contents lose exactly its bytes |
| ChunkLists.ChunkList.GetReadableSize | kanon/buffer/chunk_list.cc:126-152 | the closed form over the first two chunks, the number of chunks and the last, which on a list without reserved chunks is the number of readable bytes |
| ChunkLists.ChunkList.ReadableSizeExact | kanon/buffer/chunk_list.cc:126-152 | in every state that the operations reach, the closed form is the number of readable bytes |
| ChunkLists.ClosedFormExact | kanon/buffer/chunk_list.cc:126-152 | for any chunk sizes, the closed form is their sum if and only if every chunk between the second and the last is full |
| ChunkLists.ReservedChunksMislead | kanon/buffer/chunk_list.h:282-287 | a run: four chunks reserved on a new list make the size 4096 with nothing to read |
| ChunkLists.ChunkList.ReserveChunk | kanon/buffer/chunk_list.h:282-287 | n new empty chunks follow, and the contents stay |
| ChunkLists.ChunkList.ReserveKeepsPacked | kanon/buffer/chunk_list.h:282-287 | reserving keeps the chunk invariant if and only if it adds nothing, or one chunk behind a full one |
| ChunkLists.ChunkList.ReservedSizeExact | kanon/buffer/chunk_list.h:282-287 | with chunks reserved behind a list in order, the closed form is the number of readable bytes if and only if nothing was added, there are at most three chunks, or one was added behind a full one |
| ChunkLists.ChunkList.ReserveThenMeasure | kanon/buffer/chunk_list.h:282-287 | the same of reserving n chunks on k and asking for the size |
| ChunkLists.ChunkList.Shrink | kanon/buffer/chunk_list.cc:170-195 | the free list is cut to the given length, and what is cut is counted as erased |
| ChunkLists.ChunkList.ReserveFreeChunk | kanon/buffer/chunk_list.cc:197-208 | the free list has at least the given length, and only what was missing is allocated |
| ChunkLists.ChunkList.ReserveWriteSpace | kanon/buffer/chunk_list.cc:210-222 | exactly the free chunks missing for the size are allocated, and nothing else changes |
| ChunkLists.ChunkList.ReserveThenAppend | kanon/buffer/chunk_list.cc:210-222 | on a list in use, an append within the reserved size allocates no chunk |
| ChunkLists.ChunkList.ReserveThenAppendToEmpty | kanon/buffer/chunk_list.cc:210-222 | on an empty list that holds if and only if the chunks for the data and the header room are no more than those free before or those for the reserved size; otherwise exactly the difference is allocated |
| ChunkLists.ReservationTooShort | kanon/buffer/chunk_list.cc:210-222 | a run: 4096 bytes reserved on a new list are one chunk, and appending them takes two |
| ChunkLists.ChunkList.Deposit | kanon/protobuf/chunk_stream.cc:5-17 | bytes stored through the pointer that Next handed out appear at the right place of the contents |
| ChunkStreams.ChunkStream.Next | kanon/protobuf/chunk_stream.cc:5-17 | the rest of a chunk with room is handed out and taken as written, never an empty region |
| ChunkStreams.ChunkStream.BackUp | kanon/protobuf/chunk_stream.cc:19-23 | exactly the last count bytes are taken back |
| ChunkStreams.ChunkStream.Write | kanon/protobuf/chunk_stream.cc:5-23 | asking for a region, storing what fits and giving back the rest appends exactly what was stored |
| ChunkStreams.ChunkStream.Serialize | kanon/protobuf/generic_pb_codec.cc:57-59 | a serializer that does so until it is done appends its whole output |
| ChunkStreams.ChunkStream.ByteCount | kanon/protobuf/chunk_stream.cc:25 | the number of bytes in the list |
| Buffers.SpareExact | kanon/buffer/buffer.cc:55 | the unsigned test chooses between growing and compacting as plain arithmetic would, if and only if the free space covers the eight-byte prefix |
| Buffers.Buffer.Compact | kanon/buffer/buffer.cc:70-88 | the readable bytes move to the front of the storage and stay what they were |
| Buffers.Buffer.ReserveWriteSpace | kanon/buffer/buffer.cc:36-89 | on the growing and on the compacting path, the readable bytes stay and at least the asked space is writable; the compaction would end past the storage if and only if the request does not fit as it is and the free space is below the prefix |
| Buffers.Buffer.Append | kanon/buffer/buffer.h:171-177 | the bytes follow the contents, if and only if space for them can be reserved |
| Buffers.PrependedWhenFull | kanon/buffer/buffer.cc:55-82 | a run on which it cannot: a size prepended to a full buffer, and one more byte |
| Buffers.Buffer.Prepend | kanon/buffer/buffer.h:227-234 | the bytes precede the contents |
| Buffers.Buffer.AdvanceRead | kanon/buffer/buffer.h:369-383 | the first n bytes are gone, and an emptied buffer starts again at the prefix |
| Buffers.Buffer.AdvanceWrite | kanon/buffer/buffer.h:419-424 | the next n bytes of the storage become readable |
| Buffers.Buffer.Prepend32 | kanon/buffer/buffer.h:249-268 | the value in network order precedes the contents |
| Buffers.Buffer.GetReadBegin32 | kanon/buffer/buffer.h:282-315 | the value of the first four bytes, without consuming them |
| Buffers.Buffer.Read32 | kanon/buffer/buffer.h:324-353 | the value of the first four bytes, which are consumed |
| Buffers.Buffer.PrependThenRead32 | kanon/buffer/buffer.h:249-353 | prepending a value and reading it gives it back and restores the contents |
| Buffers.Buffer.ReadFromFd | kanon/linux/net/buffer.cc:8-41 | a scatter read of n bytes over the writable region and the 64 KiB overflow appends exactly those n bytes, if and only if they fit the region or the prefix is free, and a failed one nothing |
| EventLoops.OwnerStepInv | kanon/net/event_loop.cc:153-277 | every step of the owner, in the loop, in a handler or in a functor, keeps the invariant |
| EventLoops.OtherStepInv | kanon/net/event_loop.cc:203-305 | every step of another thread in QueueToLoop or Quit keeps it |
| EventLoops.History | kanon/net/event_loop.cc:153-305 | in every run the queue, the number of calls, the quit flag and the eventfd counter are what the events of the run make them, and every other thread is where its last event put it; quit is set if and only if somebody asked, and asking again changes nothing |
| EventLoops.EndsOnRequest | kanon/net/event_loop.cc:153-176 | the loop ends only if somebody asked it to quit |
| EventLoops.QuitStops | kanon/net/event_loop.cc:237-241 | once asked to quit, outside the turn under way, no functor is called any more |
| EventLoops.NoLostWakeup | kanon/net/event_loop.cc:153-305 | in every run, a loop blocked in poll with work queued or a request to quit has the eventfd readable or a write to it coming, unless the owner queued before it started the loop, nothing was swapped out yet and nobody asked to quit |
| EventLoops.EarlyFunctorIsSleptOn | kanon/net/event_loop.cc:203-231 | and that exception is real: a run in which such a functor is slept on |
| EventLoops.InOrderOnce | kanon/net/event_loop.cc:237-277 | in every run the functors called are the first of those that the queueing events put in, in that order, as many as there were calls, and the others are those still waiting; the eventfd is read only when it can be |
| EventLoops.StepDecreases | kanon/net/event_loop.cc:153-305 | every step that needs no new request decreases a measure |
| EventLoops.Drains | kanon/net/event_loop.cc:153-305 | without new requests a run is bounded, and at its end every queued functor has been called and the loop waits, or it has ended with quit set |
| RwLocks.StepInv | kanon/thread/rw_lock.cc:21-83 | every step of every thread, spurious wakeups included, keeps the invariant |
| RwLocks.ByCalls | kanon/thread/rw_lock.cc:21-83 | in every run, of any number of threads, a thread that called RLock sleeps, was notified or reads, one that called WLock sleeps, was notified or writes, and the others are outside; calls and releases alternate, each call released as it was made |
| RwLocks.Safety | kanon/thread/rw_lock.cc:21-83 | in every run of at most max + 1 threads, two threads inside both got in by RLock, the counter is the number of readers inside, whoever sleeps has a reason, at most one thread waits for readers to leave, and not all participants sleep |
| RwLocks.BelowUintMax | kanon/thread/rw_lock.cc:7-83 | with the library's maximum and fewer threads than that the same holds, and a thread asleep on cond_w also implies a writer |
| RwLocks.WriterFirst | kanon/thread/rw_lock.cc:21-74 | once a writer has claimed the lock, no step lets a further thread read |
| RwLocks.Progress | kanon/thread/rw_lock.cc:21-83 | while anybody takes part, some participant can leave or test again |
| RwLocks.Drains | kanon/thread/rw_lock.cc:21-83 | without new requests and spurious wakeups a run is bounded, and where it cannot go on nobody waits or holds the lock |
| RwLocks.AllReleased | kanon/thread/rw_lock.cc:21-83 | there every call of the whole run was granted in its own mode and released |
| RwLocks.ThreadBound | kanon/thread/rw_lock.cc:21-57 | for a maximum of two readers or more, no run deadlocks if and only if there are at most max + 1 threads |
| ThreadPools.StepInv | kanon/thread/thread_pool.cc:41-65 | every step of Push, Pop and a wakeup keeps the invariant |
| ThreadPools.Safety | kanon/thread/thread_pool.cc:41-65 | in every run popped tasks are a prefix of pushed ones, the queue is what lies between and never above its bound, a consumer asleep implies no more tasks than notified consumers, and a producer asleep no more free slots than notified producers |
| ThreadPools.ByCalls | kanon/thread/thread_pool.cc:41-65 | in every run each task that Push was called with went in once or waits with the producer that called, each Pop took one task out or waits, and whoever waits does so in its last call |
| ThreadPools.Settles | kanon/thread/thread_pool.cc:41-65 | without new calls a run is bounded, and where it ends the sleepers are all of one side, with an empty queue for consumers or a full one for producers |
| AsyncLogs.StepInv | kanon/log/async_log.cc:68-181 | every step of Append and of the back thread keeps the account and the two spare buffers |
| AsyncLogs.Account | kanon/log/async_log.cc:68-141 | in every run, what is logged or marked dropped, then the rest of the batch, then the filled buffers, then the current one are all messages in the order of the mutex; the back thread never finds a spare buffer missing or not empty; a missing next buffer implies filled ones; and the notices count exactly the dropped buffers |
| AsyncLogs.NothingLost | kanon/log/async_log.cc:68-181 | for every run, the file, then the rest of the batch, then the filled buffers, then the current one are all messages of the Append events, if and only if every message is shorter than a buffer and at every discarding step the messages between the last two swaps take at most sixteen buffers |
| AsyncLogs.History | kanon/log/async_log.cc:160-181 | in every run `submitted` is what the Append events put in, and while all messages are short a buffer is given up exactly when the next message does not fit |
| AsyncLogs.DividedOnce | kanon/log/async_log.cc:160-181 | messages can be divided into buffers in only one such way |
| AsyncLogs.LightLoad | kanon/log/async_log.cc:68-181 | nothing is lost while fewer bytes than eight buffers hold arrive between two swaps |
| AsyncLogs.Flush | kanon/log/async_log.cc:68-141 | from every state that is reached, the steps of the back thread alone lead to where nothing waits and every message is written or marked as dropped, those that fill no buffer included |
| AsyncLogs.FlushWrites | kanon/log/async_log.cc:68-141 | after any run that leads to a file that holds exactly the messages of the Append events, if and only if they are short and the batches fit |
| AsyncLogs.InFullExact | kanon/log/async_log.cc:103-115 | in every reachable state that is so if and only if every message is shorter than a buffer and no notice was written |
| AsyncLogs.StoredExact | kanon/log/async_log.cc:160-181 | a message is stored whole if and only if it is shorter than a buffer; otherwise a prefix of it, as long as the 32-bit length says if that is shorter than a buffer, and nothing if not |
| AsyncLogs.OverfullBatch | kanon/log/async_log.cc:103-115 | a run in which any number of buffers above sixteen is thrown away, with a notice of that number, and messages are lost |
| MemoryPools.Inside | kanon/mem/fixed_chunk_memory_pool.cc:112-136 | a chunk lies in its block, behind the link |
| MemoryPools.ChunksApart | kanon/mem/fixed_chunk_memory_pool.cc:112-136 | two chunks, status words and payloads, do not overlap |
| MemoryPools.FixedChunkMemoryPool.AllocBlock | kanon/mem/fixed_chunk_memory_pool.cc:112-136 | a new block has all its chunks free and linked in order, the rest of memory is untouched, and nothing changes if malloc fails |
| MemoryPools.FixedChunkMemoryPool.Malloc | kanon/mem/fixed_chunk_memory_pool.cc:35-58 | null exactly for size zero or no memory, with nothing changed; otherwise a chunk that was not in use, of the size asked for or of one word if that is more, with every payload in use untouched |
| MemoryPools.FixedChunkMemoryPool.Free | kanon/mem/fixed_chunk_memory_pool.cc:60-69 | the chunk is the first free one again, all other payloads in use are untouched, and null is ignored |
| MemoryPools.FixedChunkMemoryPool.Store | kanon/mem/fixed_chunk_memory_pool.cc:35-69 | whatever the user writes to a payload it holds, the pool stays intact |
| MemoryPools.FixedChunkMemoryPool.PayloadsApart | kanon/mem/fixed_chunk_memory_pool.cc:112-136 | a payload in use lies inside its block and overlaps no other payload, no status word and no link |
| MemoryPools.FixedChunkMemoryPool.RequestApart | kanon/mem/fixed_chunk_memory_pool.cc:35-58 | the bytes asked for lie inside the block and overlap no other payload, no status word and no link |
| MemoryPools.FixedChunkMemoryPool.Conservation | kanon/mem/fixed_chunk_memory_pool.cc:101-110 | free chunks and chunks in use are all chunks |
| MemoryPools.FixedChunkMemoryPool.GetFreeChunkNumInBlock | kanon/mem/fixed_chunk_memory_pool.cc:154-166 | the count of one block, by its status words |
| MemoryPools.FixedChunkMemoryPool.GetFreeChunkNum | kanon/mem/fixed_chunk_memory_pool.cc:101-110 | walking the chain and the blocks counts exactly the free list, and with the chunks in use makes the number of blocks times the chunks per block |
| MemoryPools.FixedChunkMemoryPool.GetUsage | kanon/mem/fixed_chunk_memory_pool.cc:96-99 | for each block eight bytes, and for each of its chunks eight more than the size asked for, or sixteen if that is less than eight |
| Pollers.Poller.UpdateChannel | kanon/linux/net/poller.cc:65-106 | channels and slots stay one to one; a new descriptor is entered switched on, an old one gets the new events and is turned over if there are none, and all other entries stay; the entry has the channel's events, and the slot is then on exactly if it has events, if and only if an old one was on before or a new one has events |
| Pollers.Poller.RemoveChannel | kanon/linux/net/poller.cc:108-153 | channels and slots stay one to one and exactly that entry is gone, whether its slot or the last one is switched off, is the last, or is not there at all |
| Pollers.Poller.OneToOne | kanon/linux/net/poller.cc:65-153 | there are as many channels as slots |
| Pollers.Poller.CollectActive | kanon/linux/net/poller.cc:23-63 | the channels of exactly the reported slots are found, in order, the early stop included, and no lookup fails |
| Pollers.ReportedExact | kanon/linux/net/poller.cc:23-63 | those slots are exactly the ones with events, each once and in order |
| Pollers.ArmedThroughout | kanon/linux/net/poller.cc:65-106 | from registration on and after every update, the slot is on exactly if it has events, if and only if the channel was registered with events and no update but the last takes all events away |
| Pollers.DisableThenEnable | kanon/linux/net/poller.cc:88-105 | a run: registered, disabled and enabled again, the channel has events and its slot is off |
| Pollers.RegisterWithoutEvents | kanon/linux/net/poller.cc:71-87 | a run: registered without events, the slot is on |
| IntFormats.Int2Str | kanon/string/fixed_buffer.h:185-209 | for every value of at most 64 bits, the most negative one included, at most 20 characters that are its decimal form, and a terminating zero |
| IntFormats.Numeral | kanon/string/fixed_buffer.h:185-209 | the reference numeral: no leading zero, and its value is the number |
| IntFormats.NumeralUnique | kanon/string/fixed_buffer.h:185-209 | a canonical numeral is determined by its value |
| IntFormats.DenotesUnique | kanon/string/fixed_buffer.h:185-209 | a number has one decimal form and a form one number |
| IntFormats.EnoughRoom | kanon/string/fixed_buffer.h:89-95 | twenty characters, sign included, are enough |
| IntFormats.FixedBuffer.Append | kanon/string/fixed_buffer.h:74-81 | a string that fits with its zero is appended, any other changes nothing |
| IntFormats.FixedBuffer.AppendInt | kanon/string/fixed_buffer.h:88-95 | with more than 32 characters free the decimal form is appended within the buffer, otherwise nothing changes |

## Left out

- Sockets, epoll, connectors, acceptors, servers, clients, files, signals and terminal logging are calls to the operating system.
- Protobuf serialization: a payload is a byte sequence, and whether the parser accepts one is a parameter.
- ProtobufCodec2 depends on a varint library that is not part of this model; the length-header example codec is left out too.
- Framing.Feed: stops at the first error, where the default callback only shuts the writing side down.
- PbCodec.GenericPbCodec.Send: a size that does not fit 32 bits is not modelled, and neither is an empty tag, on which the list's Append asserts.
- PbCodec.GenericPbCodec.OnMessage: the Shrink after a discarded buffer is not modelled, since Buffer::Shrink moves bytes without its indices.
- Buffers.Buffer.ReserveWriteSpace: what the copy does where it would end past the storage is not modelled; the method then says so and changes nothing. Sizes near 2^64 are excluded.
- ChunkLists.Chunk: the padding behind the node is a sequence of 4096 bytes held by value, not memory shared with the node.
- ChunkList::AppendChunkList, the integer reads of ChunkList and writing a ChunkList to a descriptor are left out.
- The range form of splice_after, assign, operator== and sort2 of ForwardList are left out, and so is splicing a list into itself.
- ForwardListSort.Sort: stability is not claimed, since merging puts the newer run's values first.
- Xxh32: the NULL input of XXH32_update and XXH32_digest on an unaligned state are not distinguished. XXH64, XXH3 and the intrinsic forms of the product are left out.
- EventLoops: exceptions thrown by functors and functors left behind by a request to quit are not modelled; poll may return at any time.
- RwLocks and ThreadPools: a notify wakes one sleeper, and waking more is a spurious wakeup; changing the queue bound while threads wait is not modelled.
- AsyncLogs: shutdown, flushing and rolling of the file are not modelled, and what the clock puts into a notice is not either.
- MemoryPools.FixedChunkMemoryPool.Malloc: the address that malloc returns is a parameter, and overflow of the block size is not modelled; Shrink and SetChunkPerBlock are left out.
- Pollers.Poller.UpdateChannel: the assertion that an updated slot is on is not required, so the model shows what happens where assertions are compiled out.
- Pollers.Poller.CollectActive: storing the reported events in each channel is not modelled.
- A removed channel keeps its old index, so entering it again needs the index reset first.
- The ring buffer rests on two memory mappings of one file, which are calls to the operating system. The memory cache of the examples and the searches of `StringView` are left out, since none of the cores above uses them.
