# A verified model of the forward-error-correction codec

The codec cuts a byte stream into blocks, makes each block a numbered chunk of
Reed-Solomon shards, sends one packet a shard, and interleaves the packets of
several chunks. The decoder collects packets by chunk in a table of lines,
rebuilds a chunk once enough packets are there, and puts chunks back in order.
The blocking ring buffer beside it is a monitor with two condition variables.

The project models every stage twice. A value-level step function says what one
message does to a stage (`Assembler.Step`, `Dispatcher.Step`, `Interleaver.Step`,
`Aggregator.Step`); a class with the arrays, counters and queues of the source
is proved to take exactly that step (`AssemblerTable.Table`,
`DispatcherBuffer.Buffer`, `InterleaverBuffer.Buffer`, `Aggregator.Aggregator`,
`EncodeStage.Encoder`, `Decoder.Decoding`, `Decoder.Restorer`,
`RingBuffer.Ring`). What the codec promises is then proved about the steps, over
all runs, and about all stages together.

Files, in the order of the data:

- `Lists`, `Bytes`, `Arith`, `Machines`: sequences, little-endian coding, index
  arithmetic, runs of a machine.
- `Packet`, `Chunk`, `ErasureCode`: the frame, the chunk and its shards, the
  erasure code as a parameter with two laws.
- `Aggregator`, `EncodeStage`, `Interleaver`, `InterleaverBuffer`,
  `InterleaverBurst`: the encoder.
- `Assembler`, `AssemblerTable`, `AssemblerCounts`, `AssemblerOrder`: the line table.
- `Dispatcher`, `DispatcherBuffer`, `DispatcherOrder`: the reorder buffer.
- `Decoder`, `Pipeline`, `Codec`: the outer decoder stages, goroutines over
  bounded channels, and the two pipelines.
- `Recovery`, `EndToEnd`, `Losses`, `RecoveryExact`, `StreamExact`, `BatchExact`,
  `LinesExact`, `Gaps`, `System`: which losses are made good, and the whole path under any
  schedule.
- `Ring`, `RingMonitor`, `RingCalls`: the ring buffer, its waiting protocol, and
  how the two fit.

Main results:

- `StreamExact.StreamRecoveredExactly`: for any number of interleaver batches and
  any losses on an in-order link, all chunks are restored if and only if every
  chunk keeps enough packets and within a batch no chunk completes in an earlier
  row than a lower one; then they are restored once each and in order. So one lost
  packet can cost a block (`BatchExact.OneLossCostsABlock`), while any number of
  whole rows (`Losses.RowLoss`) and any burst of a whole number of rows' length
  inside a batch (`Losses.AlignedBurst`), up to the parity, costs nothing.
  `LinesExact.LosslessExactly`: without losses all chunks are restored if and only
  if the assembler has a line for each chunk of a batch.
- `System.LossyPrefixDelivered`, `System.AllDelivered`: for every input, timer
  pattern, goroutine schedule and such pattern of losses, what has been delivered
  is a prefix of what was written, and at rest it is all full interleaver batches;
  `System.SomeScheduleDelivers`: for all channel capacities rest can be reached.
- `EndToEnd.RestoredGenuine`, `System.OnlyBlocksDelivered`: over every link that
  delivers packets of the encoder, however it loses, repeats and reorders them,
  only blocks of the encoder are restored and delivered.
- `EndToEnd.ErasureTolerance`: on lossy, reordering links on which chunks
  complete in order and open chunks do not share a line, the decoder has at
  every moment delivered exactly the blocks of the chunks with enough packets;
  surplus packets may come at any time (`System.ReorderedDelivered` under every
  schedule). `RecoveryExact.RecoveredExactly`: for
  streams of at most as many chunks as the assembler has lines, all blocks are
  delivered if and only if the chunks complete in order.
- `Dispatcher.OrderExact`: for every history, chunks come out in increasing order
  if and only if no arrival evicts a chunk that had been passed over, and without
  gaps if and only if none evicts.
- `Pipeline.ResultsArePrefix`, `Pipeline.Completion`, `Pipeline.Bounded`:
  scheduling independence and progress for any row of stages over FIFO channels
  that never hold more than their capacity.
- `RingMonitor.WakeupsKept`, `RingCalls.ItemsKept`: no lost wake-up and no lost
  item, with any number of threads; `RingCalls.ReadsAsRing` and
  `RingCalls.WritesAsRing`: every step does what the ring itself does.

Where the code does less than one would expect, the model follows the code and
says exactly when the expected property holds:

- The packet-number guard admits `psn == total`; such a packet lands in the next
  line (`Assembler.PurityExact`).
- Duplicates count (`AssemblerCounts.ExactStep`).
- Creating a line does not test for completion, so with one data shard the first
  packet does not complete its chunk (`AssemblerOrder.ExactFromTwo`): the table
  works exactly as with two (`AssemblerCounts.RunEffective`), and what a chunk
  needs below is two packets.
- `NewChunk` admits 22 bytes more than its parts hold (`Chunks.ChunkRoundTrip`).
- Evictions make gaps, and evicting a chunk that had been passed over puts chunks
  out of order, even for increasing arrivals (`Dispatcher.OrderExact`,
  `DispatcherOrder.IncreasingNotEnough`).
- Completing a chunk drops the later packets of lower ones
  (`StreamExact.StreamRecoveredExactly`).
- The index of a packet is computed modulo 2^64 first (`AssemblerTable.IndexExact`,
  `AssemblerTable.TableExact`).
- A batch of the interleaver is sent only when it is full, so the last chunks of a
  stream may wait for ever (`Interleaver.RunBatches`).
- The ring's counters wrap at 2^64, after which a write can hit a live element
  (`RingBuffer.WrapExact`, for every write).

Parameters of the model: the digest is any function from bytes to 8 bytes; the
erasure code is any code that keeps the data shards, rebuilds them from any `data`
shards of a codeword and fails with fewer, which XOR parity does (`ErasureCode.XorParityLawful`,
`EndToEnd.XorUsable`); the aggregator's timer is an event that may come at any time;
the link is the list of frames the decoder is given.

## Model

| member | source | states |
|---|---|---|
| Bytes.FromToLE | src/codec/packet_v2.go:58-60 | reading back n little-endian bytes gives the number, for every number that fits them |
| Bytes.ToFromLE | src/codec/packet_v2.go:73-75 | every byte string is the little-endian form of the number it denotes, which fits |
| Bytes.SpellsExact | src/codec/packet_v2.go:58-60 | coding and decoding, both by digits: byte i is the i-th digit of the number in base 256 |
| Packets.PacketRoundTrip | src/codec/packet_v2.go:54-80 | every packet, with any psn, csn, addr and payload, is accepted from its frame with all fields intact |
| Packets.FrameRoundTrip | src/codec/packet_v2.go:54-80 | an accepted frame is reproduced by marshalling if and only if its reserved bytes are zero |
| Packets.FrameLaidOut | src/codec/packet_v2.go:54-65 | where every field is in a frame, byte by byte, with the reserved bytes zero |
| Packets.FrameExact | src/codec/packet_v2.go:67-80 | bytes are accepted as a packet if and only if they are laid out as that packet with the right digest |
| Packets.PacketV2.NewPacketV2 | src/codec/packet_v2.go:24-40 | the payload is the first 1024 bytes, zero padded; what did not fit is returned, and only then |
| Packets.PacketV2.Marshal | src/codec/packet_v2.go:54-65 | writes exactly the frame of the packet into a fresh buffer |
| Packets.PacketV2.Unmarshal | src/codec/packet_v2.go:67-80 | true if and only if the length and the digest are right, and then the receiver is the packet of the frame |
| Chunks.ChunkRoundTrip | src/codec/chunk.go:57-97 | a chunk is read back from its own parts if and only if it fits in 1024 * parts - 22 bytes, and is refused otherwise; the shards past its parts are then zero |
| Chunks.ShardsHold | src/codec/chunk.go:57-72 | where the fields and the data of a chunk are among the bytes of its shards, and that all others are zero |
| Chunks.ChunkExact | src/codec/chunk.go:74-97 | shards of any lengths are read as a chunk if and only if they hold that chunk |
| Chunks.Chunk.NewChunk | src/codec/chunk.go:21-38 | up to 1024 * parts bytes, a product modulo 2^64, are taken, all of the block without copying; the rest, if any, is returned |
| Chunks.Chunk.Data | src/codec/chunk.go:41-45 | a fresh copy of the data |
| Chunks.Chunk.Marshal | src/codec/chunk.go:57-72 | fresh shards holding header, data and zeros if the chunk fits in the allocation; exactly otherwise the loop runs past the last shard |
| Chunks.Chunk.PutData | src/codec/chunk.go:67-70 | the copying loop leaves every shard with its piece of header and data, or finds no shard exactly when the chunk does not fit |
| Chunks.Chunk.Unmarshal | src/codec/chunk.go:74-97 | for shards of any lengths, true if and only if the announced size fits in them, and then the receiver is the chunk they hold |
| Chunks.Chunk.GetData | src/codec/chunk.go:87-96 | the copying loop gathers the bytes after the header, or fails exactly when there are too few |
| ErasureCode.XorParityLawful | src/codec/encoder.go:50-54 | the laws asked of the erasure code are met by XOR parity for every number of data shards |
| ErasureCode.XorRebuilds | src/codec/decoder.go:192-201 | any data shards of a parity codeword give back all data shards |
| Aggregator.FeedConserves | src/codec/encoder.go:191-198 | a write loses and reorders no byte and flushes only full blocks |
| Aggregator.RunConserves | src/codec/encoder.go:180-202 | for every input and every pattern of ticks the blocks followed by the pending bytes are the input, and no block exceeds the capacity |
| Aggregator.FeedUnique | src/codec/encoder.go:191-198 | full blocks and a rest shorter than a block that make up the pending bytes and the write are what it makes of them |
| Aggregator.DataSends | src/codec/encoder.go:190-198 | after every history a write sends full blocks only, and what is short of a block waits |
| Aggregator.TickSends | src/codec/encoder.go:188-189 | after every history a timer flush sends exactly one block more, the pending bytes, and leaves nothing pending |
| Aggregator.TickFlushes | src/codec/encoder.go:83-96 | so all input before it is in the blocks |
| Aggregator.FeedAppend | src/codec/encoder.go:191-198 | where the stream is cut into writes makes no difference to the blocks |
| Aggregator.Aggregator.Aggregate | src/codec/encoder.go:190-198 | the copying loop terminates, never outgrows the buffer and sends the blocks of the feeding function, leaving sent blocks untouched |
| Aggregator.Aggregator.Tick | src/codec/encoder.go:188-189 | a timer flush sends the pending bytes and leaves nothing pending |
| Aggregator.Aggregator.Flush | src/codec/encoder.go:83-96 | the block sent is a fresh copy of the buffer, which is then empty |
| EncodeStage.CapacityExact | src/codec/encoder.go:75-77 | a block is within the capacity if and only if its chunk fits in the data shards |
| EncodeStage.PacketsCarry | src/codec/encoder.go:142-175 | every field of every packet of a block, and that the data packets carry the block as a chunk |
| EncodeStage.EncodeAt | src/codec/encoder.go:142-175 | packet r of block i is at place i * total + r of the stream |
| EncodeStage.Encoder.EncodeBlock | src/codec/encoder.go:142-175 | a block longer than the data shards is dropped without using a number; any other becomes the packets of the next chunk, unless it exceeds all shards |
| EncodeStage.Encoder.SendPackets | src/codec/encoder.go:156-174 | one packet a shard, numbered from 0, never with a remainder |
| Interleaver.Transposition | src/codec/encoder.go:109-110 | packet r of chunk q of a batch goes to slot chunks * r + q |
| Interleaver.SlotsDistinct | src/codec/encoder.go:109-110 | different packets of a batch have different slots inside the buffer |
| Interleaver.SlotsCovered | src/codec/encoder.go:109-110 | every slot is some packet's |
| Interleaver.OrderKept | src/codec/encoder.go:109-110 | the packets of a chunk are sent in the order of their numbers |
| Interleaver.RunBatches | src/codec/encoder.go:104-127 | over every run the output is the complete batches, each a permutation of its packets by slot, and the rest waits |
| Interleaver.OutAt | src/codec/encoder.go:104-127 | which input packet stands at any place of the output stream |
| InterleaverBuffer.Buffer.Dispatch | src/codec/encoder.go:108-126 | the slot of a packet is free, nothing is overwritten, and the array takes the step of the batch |
| InterleaverBuffer.Buffer.Flush | src/codec/encoder.go:113-125 | a full buffer is sent transposed; the nil branch is never taken |
| InterleaverBurst.BurstBound | src/codec/encoder.go:98-129 | b consecutive packets of the stream, across batches too, hold at most ceil(b / chunks) packets of a chunk |
| InterleaverBurst.WholeChunk | src/codec/encoder.go:98-129 | every chunk of a complete batch is sent exactly total times |
| InterleaverBurst.BurstLeavesData | src/codec/encoder.go:98-129 | losing up to chunks * (total - data) consecutive packets leaves every chunk at least data packets |
| Assembler.IgnoredExact | src/codec/decoder.go:235-250 | a packet changes nothing if and only if its number is above total, its chunk is 0 or at most last |
| Assembler.PacketPlaced | src/codec/decoder.go:252-301 | any other is in the line of its chunk afterwards, at its number, or in the vector pushed, and no other line changes |
| Assembler.LineOpened | src/codec/decoder.go:283-288 | in a line without a chunk it opens its own, without a push |
| Assembler.LineExtended | src/codec/decoder.go:261-282 | in the line of its chunk it is counted, and the line is pushed and emptied if and only if there are data arrivals |
| Assembler.LineTakenOver | src/codec/decoder.go:290-301 | in a line of any other chunk, lower or higher, it is alone afterwards, and last is the number of that chunk |
| Assembler.StrayPlaced | src/codec/decoder.go:252-301 | a packet numbered total goes to the next line but counts for its own |
| Assembler.PurityExact | src/codec/decoder.go:235-301 | a step keeps every line to one chunk, each packet at its number, if and only if the packet is dropped or its number is below total |
| Assembler.RunPure | src/codec/decoder.go:222-308 | over every run of in-bounds packets lines stay pure and a pushed vector never mixes chunks |
| AssemblerCounts.ExactStep | src/codec/decoder.go:261-301 | found stays the number of filled slots, and a push holds exactly data packets (two for one data shard), if and only if no accepted packet is a duplicate |
| AssemblerCounts.RunEffective | src/codec/decoder.go:264-288 | over every run the table with one data shard does what it does with two |
| AssemblerCounts.RunExact | src/codec/decoder.go:261-301 | over every duplicate-free run found is exact and every push holds exactly data packets (two for one data shard) |
| AssemblerCounts.PushBound | src/codec/decoder.go:261-301 | over every run, pushes of a chunk times data plus its live count never exceed its arrivals |
| AssemblerCounts.PushedOnce | src/codec/decoder.go:261-301 | with less than double redundancy no chunk is pushed twice on a duplicate-free run |
| AssemblerOrder.CompletedExact | src/codec/decoder.go:266-282 | the reference list names exactly the chunks with data arrivals, each once |
| AssemblerOrder.FirstVectorIs | src/codec/decoder.go:266-282 | a complete chunk's vector is exactly data of its own arrivals, each at its number |
| AssemblerOrder.OrderedArrivals | src/codec/decoder.go:248-301 | on arrivals in csn order exactly the chunks with data arrivals are pushed, with their first data packets, through evictions and although last goes back |
| AssemblerOrder.CompletedAscending | src/codec/decoder.go:248-301 | and they are pushed in increasing order |
| AssemblerOrder.OrderedCompletion | src/codec/decoder.go:248-301 | on mixed arrivals whose chunks complete in order without sharing lines, chunks 1, 2, 3, ... are pushed and the table holds exactly the open ones |
| AssemblerOrder.ExactFromTwo | src/codec/decoder.go:283-288 | on every duplicate-free run in csn order the pushes are those of the reference if and only if there are two or more data shards |
| AssemblerTable.PacketIndex | src/codec/decoder.go:252 | the flat index of a packet, the number total included, as line and slot |
| AssemblerTable.RowRange | src/codec/decoder.go:253-258 | chunkStart and chunkEnd bound the line csn mod lines, of exactly total slots |
| AssemblerTable.StoreFlat | src/codec/decoder.go:263 | storing at the flat index changes one slot of one line |
| AssemblerTable.IndexExact | src/codec/decoder.go:252 | the 64-bit index of a packet is right if and only if wrapping takes off a multiple of the size of the table |
| AssemblerTable.TableExact | src/codec/decoder.go:252 | it is right for all packets if and only if the size divides 2^64 |
| AssemblerTable.Table.constructor | src/codec/decoder.go:77-81 | a new table is empty |
| AssemblerTable.Table.Assemble | src/codec/decoder.go:235-304 | the flat arrays and 64-bit indices take exactly the step of the line table |
| AssemblerTable.Table.Extend | src/codec/decoder.go:261-282 | the branch for the chunk that owns the line |
| AssemblerTable.Table.Create | src/codec/decoder.go:283-288 | the branch for an empty line |
| AssemblerTable.Table.Evict | src/codec/decoder.go:290-301 | the branch for a line of another chunk |
| Dispatcher.StepInv | src/codec/decoder.go:113-175 | for every state and arrival awaiting is last + 1, last at most first, every chunk in its slot, the awaited one not buffered, and a step delivers consecutive chunks ending at last |
| Dispatcher.StepHeld | src/codec/decoder.go:113-175 | no chunk is lost or made up by a step, evictions included |
| Dispatcher.DroppedExact | src/codec/decoder.go:107-117 | a chunk changes nothing if and only if its number is 0 or at most last |
| Dispatcher.StepDelivers | src/codec/decoder.go:119-174 | which chunk is delivered first, where the arrival goes, and that all else leaves its slot only by being delivered |
| Dispatcher.RunInv | src/codec/decoder.go:113-175 | the invariant holds over every run |
| Dispatcher.RunHeld | src/codec/decoder.go:113-175 | over every run each chunk was accepted as often as it was delivered and is buffered |
| Dispatcher.StepOrder | src/codec/decoder.go:119-174 | from every state a step leaves a gap if and only if it evicts, and goes back if and only if the evicted chunk had been passed over |
| Dispatcher.OrderExact | src/codec/decoder.go:119-174 | over every run chunks come out in strictly increasing order if and only if no arrival evicts a chunk that had been passed over, and as 1, 2, 3, ... if and only if none evicts |
| Dispatcher.StrandedExact | src/codec/decoder.go:119-135 | where nothing has been passed over, a step passes a chunk over if and only if it evicts one that is not the lowest |
| DispatcherOrder.OrderedStream | src/codec/decoder.go:88-178 | on new chunks at most size beyond last, exactly 1..last are delivered in order and the buffer holds exactly the other arrivals |
| DispatcherOrder.Resynchronises | src/codec/decoder.go:119-174 | after a gap a run of consecutive chunks is delivered whole if it is longer than the buffer, and not at all otherwise |
| DispatcherOrder.GapsAreSkipped | src/codec/decoder.go:119-174 | a stream whose gaps are each followed by more chunks than the buffer holds is delivered in order with only the missing chunks absent |
| DispatcherOrder.IncreasingNotEnough | src/codec/decoder.go:121-133 | strictly increasing arrivals that are delivered out of order |
| DispatcherBuffer.Buffer.constructor | src/codec/decoder.go:61-64 | a new reorder buffer is empty and awaits chunk 1 |
| DispatcherBuffer.Buffer.Dispatch | src/codec/decoder.go:107-175 | the array and the 64-bit counters take exactly the step of the reorder buffer |
| DispatcherBuffer.Buffer.Place | src/codec/decoder.go:119-147 | the chunk is delivered, buffered, or takes the place of the chunk it evicts |
| DispatcherBuffer.Buffer.DrainReady | src/codec/decoder.go:155-174 | the inner loop delivers what draining delivers |
| Decoder.FramesAccepted | src/codec/decoder.go:334-349 | every marshalled packet of the codec comes through |
| Decoder.AcceptExact | src/codec/decoder.go:334-349 | a frame comes through if and only if its length and digest are right and its address is 1, and as the packet it is laid out as |
| Decoder.RestoreExact | src/codec/decoder.go:191-217 | a vector is restored to a chunk if and only if its data shards can be rebuilt and hold it |
| Decoder.Decoding.Receive | src/codec/decoder.go:333-356 | a frame is dropped unless its length, digest and address are right |
| Decoder.Restorer.Rebuild | src/codec/decoder.go:191-217 | a vector is dropped unless its data shards can be rebuilt and hold a chunk |
| Pipeline.WaitsExactly | src/codec/decoder.go:378-391 | a goroutine with something to send waits if and only if the channel is full, one without if and only if its channel is empty |
| Pipeline.Bounded | src/codec/decoder.go:378-391 | in every reachable state no channel holds more than its capacity |
| Pipeline.ResultsArePrefix | src/codec/decoder.go:378-391 | under every schedule the results are a prefix of the stages composed in sequence |
| Pipeline.Progress | src/codec/decoder.go:378-391 | while a stage has work and there is room for results, some stage can move |
| Pipeline.Completion | src/codec/decoder.go:378-391 | every reachable state has all results out, or a full result channel, or a possible move, and every move leaves one less to do |
| Pipeline.FeedAll | src/codec/decoder.go:378-391 | for all channel capacities every input can be fed in and carried to rest |
| Codec.DecoderStagesStep | src/codec/decoder.go:378-391 | what each decoder goroutine makes of one message |
| Codec.DecoderComposes | src/codec/decoder.go:378-391 | the decoder pipeline in sequence is the decoding function |
| Codec.EncoderComposes | src/codec/encoder.go:204-215 | the encoder pipeline in sequence cuts, encodes, interleaves and marshals, and no block exceeds the capacity |
| Recovery.CountDelivered | src/codec/encoder.go:98-129 | how often a chunk has arrived at any place of a lossy interleaved stream |
| Recovery.LossesInTurn | src/codec/decoder.go:248-301 | losses that leave enough of each chunk and keep rows in order deliver all packets in turn |
| EndToEnd.VectorRestores | src/codec/decoder.go:191-217 | any vector of data packets of a chunk gives back its block |
| EndToEnd.RestoredAre | src/codec/decoder.go:191-217 | over every duplicate-free link exactly the blocks of the pushed chunks are restored, as the encoder was given them |
| EndToEnd.RestoredGenuine | src/codec/decoder.go:191-217 | over every link that delivers packets of the encoder, duplicates included, only its chunks are restored |
| EndToEnd.NothingMadeUp | src/codec/decoder.go:88-308 | over every such link only blocks of the encoder are delivered |
| EndToEnd.ErasureTolerance | src/codec/decoder.go:88-308 | on every lossy, reordering, duplicate-free link with chunks completing in order and open chunks in lines of their own, exactly the blocks of the complete chunks are delivered at every moment; surplus packets may come at any time |
| EndToEnd.StreamGenuine | src/codec/encoder.go:98-178 | everything the interleaver sends is a packet the encoder made |
| EndToEnd.LossesMadeGood | src/codec/decoder.go:88-308 | behind the interleaver every such loss pattern gives exactly the blocks of the full batches |
| EndToEnd.XorUsable | src/codec/encoder.go:50-54 | there are codes to which the end-to-end results apply |
| Losses.Lossless | src/codec/encoder.go:98-178 | without losses exactly the blocks of the full batches come out |
| Losses.UpToParityPerChunk | src/codec/decoder.go:222-308 | without interleaving any total - data packets of every chunk may be lost |
| Losses.RowLoss | src/codec/encoder.go:98-129 | with interleaving whole rows may be lost, up to total - data of each batch |
| Losses.AlignedBurst | src/codec/encoder.go:98-129 | a burst of k * chunks packets anywhere inside a batch costs nothing, for k up to total - data |
| Losses.BurstIsGap | src/codec/encoder.go:98-129 | the burst is exactly a gap in the output stream |
| RecoveryExact.RecoveredExactly | src/codec/decoder.go:248-301 | for at most as many chunks as lines all blocks come out in order if and only if the chunks complete in order |
| StreamExact.PushedExactly | src/codec/decoder.go:248-301 | for any number of batches and any losses, every chunk is pushed at all if and only if each keeps data packets and no chunk completes in an earlier row than a lower one of its batch, and all are then pushed once each and in order |
| StreamExact.StreamRecoveredExactly | src/codec/decoder.go:88-308 | the same of the chunks restored, and, with less than double redundancy or where no two blocks are the same, of the blocks delivered |
| BatchExact.BatchRecoveredExactly | src/codec/decoder.go:248-301 | the same of the blocks delivered for one batch, whatever the redundancy |
| BatchExact.OneLossCostsABlock | src/codec/decoder.go:248-250 | with two or more chunks to a batch, losing the first packet alone costs a chunk of any stream, and the only batch its blocks |
| LinesExact.LosslessExactly | src/codec/decoder.go:252-301 | without losses all chunks are restored if and only if the assembler has a line for each chunk of a batch |
| Gaps.SurvivorsDelivered | src/codec/decoder.go:88-308 | on in-order arrivals with whole chunks lost, exactly the surviving chunks are restored, and delivered if gaps close |
| System.LossyPrefixDelivered | src/codec/decoder.go:378-391 | under all schedules of both pipelines, all inputs and all ticks, what is delivered over an in-order link with recoverable losses is a prefix of what was written |
| System.PrefixDelivered | src/codec/encoder.go:204-215 | so too without losses |
| System.AllDelivered | src/codec/decoder.go:378-391 | and when both pipelines rest exactly the full batches are delivered if the losses are recoverable, and, with less than double redundancy or where no two blocks are the same, only if |
| System.OnlyBlocksDelivered | src/codec/decoder.go:378-391 | under all schedules and over every link that delivers packets of the encoder, duplicates included, only its blocks are delivered |
| System.ReorderedDelivered | src/codec/decoder.go:378-391 | under all schedules and over every lossy, reordering link with chunks completing in order, a prefix of the blocks is delivered, up to the last complete chunk |
| System.SomeScheduleDelivers | src/codec/encoder.go:204-215 | for every input, all losses and all channel capacities some schedules bring both pipelines to rest |
| System.Inhabited | src/codec/encoder.go:50-54 | there are codes, for every number of data shards, to which these results apply |
| RingBuffer.SharedSlot | src/buffer/ring.go:57-68 | a live element is in the slot of the next one if and only if the counter has wrapped between them and they are as far apart as 2^64 leaves over |
| RingBuffer.StoreJoins | src/buffer/ring.go:66-68 | what a write does to the queue at every value of the counters: it appends, and in a clash also replaces one element |
| RingBuffer.StoreReplaces | src/buffer/ring.go:55-59 | overwriting a full ring drops exactly the oldest element and joins the rest |
| RingBuffer.WrapExact | src/buffer/ring.go:66-68 | every write appends, for every content, if and only if there is no clash: the counter is not below what 2^64 leaves over, or fewer elements are live |
| RingBuffer.PlainWrite | src/buffer/ring.go:66-68 | so a write appends as long as the counter has not wrapped, and always where the size divides 2^64 |
| RingBuffer.Ring.constructor | src/buffer/ring.go:18-29 | a new ring holds the given number of elements of the buffer |
| RingBuffer.Ring.Read | src/buffer/ring.go:31-48 | takes the oldest element, or waits or fails exactly on an empty ring |
| RingBuffer.Ring.Write | src/buffer/ring.go:50-69 | for every ring: joins the queue, or on a full ring waits or drops the oldest element and joins the rest |
| RingCalls.ReadsAsRing | src/buffer/ring.go:31-48 | a step of the monitor that reads does what the ring does with the same contents, sleeps if and only if the ring says to wait, and wakes a writer if and only if it took an item and one sleeps |
| RingCalls.WritesAsRing | src/buffer/ring.go:50-69 | a step that writes does what the ring does, sleeps with its item if and only if the ring says to wait, and wakes a reader if and only if it added an item and one sleeps |
| RingCalls.SleepsExactly | src/buffer/ring.go:31-64 | a read sleeps if and only if it waits on an empty ring, a write if and only if it does not overwrite on a full one |
| RingCalls.MayStep | src/buffer/ring.go:31-69 | any thread that is away may call, any that is woken may go on, and a sleeping one does nothing |
| RingCalls.ItemsKept | src/buffer/ring.go:50-69 | in every reachable state the items handed to writes are those that got in and those of waiting writers |
| RingMonitor.WakeupsKept | src/buffer/ring.go:31-69 | in every reachable state a sleeping reader means no more items than readers on their way, and dually for writers |
| RingMonitor.NoDeadlock | src/buffer/ring.go:31-69 | with no thread on its way sleeping readers mean an empty ring and sleeping writers a full one, so not both |
| RingMonitor.WorkIsTaken | src/buffer/ring.go:31-48 | beside a sleeping reader the readers on their way are enough to take every item |
| RingMonitor.SlotsAreFilled | src/buffer/ring.go:50-69 | beside a sleeping writer the writers on their way are enough to fill every free slot |
| RingMonitor.FirstInFirstOut | src/buffer/ring.go:31-69 | in every reachable state what left the queue followed by what is in it is what got in, in order |

## Left out

- Cancellation, closing of channels, logging, the ok and err counters, and the reset request, whose body is commented out in the source; so no nil packet or chunk reaches a stage.
- Real time: the aggregator's timer is an event that may come at any moment, and its lock is not modelled because one goroutine holds both ends.
- Galois-field arithmetic and SHA-1: the erasure code and the digest are parameters.
- The allocation of a buffer of a size announced by the peer cannot fail in the model.
- AssemblerTable.Table.Assemble: asks of a packet that is not dropped that wrapping at 2^64 leaves its indices right; AssemblerTable.IndexExact says when that is.
- InterleaverBuffer.Buffer.constructor: asks that chunks * chunks * total fits in 64 bits, beyond which the source's slot numbers wrap.
- Chunks.Chunk.NewChunk: copies the part of a block that is too long for its parts, where the source keeps a view of the block; a model array is never part of another.
- Chunks.Chunk.Unmarshal: asks that the first shard holds a header, without which the source panics.
- RingBuffer.Ring.constructor: asks that the elements taken as written are no more than the buffer holds, which the source leaves to its callers.
- AssemblerOrder.OrderedArrivals: is stated for two or more data shards, as are the other results of that module; AssemblerOrder.ExactFromTwo shows that it fails for one, and AssemblerCounts.RunEffective carries what is said of two over to one.
- StreamExact.StreamRecoveredExactly: with double redundancy or more and equal blocks the equivalence is stated of the chunks restored, since among equal blocks one delivered twice can hide one that is missing.
- EndToEnd.ErasureTolerance: on reordering links and streams longer than the table the condition is sufficient; StreamExact.StreamRecoveredExactly shows it necessary on in-order links and RecoveryExact.RecoveredExactly for streams that fit the table.
- EncodeStage.Encoder.EncodeBlock: a block between the capacity and the data shards runs into the parity shards and is not read back; the aggregator never makes one.
- Packet and chunk pointers are values here: the source never changes a packet or chunk after making it.
- src/codec/packet_v3.go: the same layout as version 2, and unused.
- src/client.go, cmd, histo.go, src/secure, src/observer, src/traversal, src/unit: sockets, encryption wrappers, counters and tables without a property of this kind.
