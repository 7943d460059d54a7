# CoAP block transfer, double buffering, LED strips: a verified model

This project models the stateful parts of a sensor board's firmware and of the CoAP library (libcoap) it ships with,
and proves what they keep over whole runs.  Code that changes things step by step is modelled by classes, arrays and
loops; each method is proved against a function on values, and the main results are theorems about those functions.

## What is modelled

* **Block-wise transfer** (RFC 7959, RFC 9177).  `ReceivedBlocks` is the small array of block ranges that is edited in
  place; its meaning is a set of numbers.  `BlockCut` chooses block sizes and cuts slices, and `OptionSpace` counts the
  bytes of the options around them.  `Reassembly` is the server that collects blocks into a growing buffer: the class
  `Receiver` refines the function `Receive`, in which the range array has become a set.  `EndToEnd` cuts a body and delivers its blocks: in every run of deliveries, in any order and with any
  repetition and loss, it says exactly when the body handed over is the body that was cut, and when it is handed over.
  `SendRun` is the client that sends the next block on each acknowledgement and changes the block size; `QBlockBursts`
  is the client that sends bursts driven by a timer; `MissingBlocks` is the report of missing blocks and its reading on
  the other side.  `WholeTransfer` shows that the messages of these runs are the packets `EndToEnd` speaks about, and
  carries its theorems over.  `VarUint` has the variable-length integers, the Block option and the 48/16-bit state tokens.
* **Sampling interrupt and send task.**  `RingBuffers` is the ring buffer with its sticky full flag.  `DoubleBuffer` is
  the protocol of interrupt and task over two buffers and two locks as a state machine whose steps may be interleaved
  in any way, for every buffer size from 2 on.  `BufferProgress` shows that it gets on: buffers are filled in turn and
  every full one is drained.  `SensorBoard` is the program itself, proved to be that state machine.
* **Smaller cores.**  `LedStrip`: the SPI driver, which keeps the coded wave, refines the RMT driver, which keeps
  colour bytes.  `PseudoFloat`: 8.4 pseudo-floating-point rounding.  `SharedBody`: reference-counted bodies shared by
  PUT and block-wise GET.

Integers are unbounded in Dafny; where the program's 8-, 32- or 64-bit arithmetic could matter it is written out
(`% U32` and so on).  Products `num << (szx + 4)` are written as repeated addition (`Words.Times`), which
`Words.TimesIsProduct` ties to multiplication.

## Where the code does not meet its promise

Each of these is a theorem with the exact condition, or a concrete counterexample, about the code as it is.

| what fails | exact condition or counterexample |
|---|---|
| A fitted block cannot always be added: the space is measured without the payload marker byte and before the Block option grows | `BlockCut.Pdu.WriteAndAdd`, `BlockCut.ExactFillFails`, `BlockCut.OptionTakesTheRoom` |
| A size reduced in a copy of the block only: the requested block is then too large | `BlockCut.Pdu.WriteCopyAndAdd`, `BlockCut.ReducedCopyFails`, `BlockCut.CopyOfTwentyFails` |
| A Size1 that is too large (for Q-Block1: not exact) makes a wrong body go out, or none | `EndToEnd.EveryRunIsSafe`, `EndToEnd.CompletesIff`, `EndToEnd.OversizedNeverCompletes`, `EndToEnd.Size1TooLarge`, `EndToEnd.QBlock1NeedsSize1` |
| A block whose bytes could not be stored still counts as received, so a body with a hole is handed over | `EndToEnd.EveryRunIsSafe` with `EndToEnd.LostIffStoreFailed`, `EndToEnd.FailedAllocationLeavesHole` |
| When nothing was stored, because memory failed or because the blocks were empty, a packet that brings nothing new is taken for a complete body and the code reads the missing buffer | `EndToEnd.NullReadIff`, `EndToEnd.RepeatReadsNull`, `EndToEnd.EmptyQBlockReadsNull`, `EndToEnd.EmptyBlocksReadNull` |
| After a change of block size within a body, numbers counted in two sizes are mixed: bytes are dropped, or the body is never complete | `WholeTransfer.SizeChangeNumbers` with `WholeTransfer.KnownNumberIsNotStored` and `WholeTransfer.SkippedNumberNeverCompletes`, `WholeTransfer.GrownBlockIsLost` |
| A 2.31 for Q-Block1 can name an inner block of the payload set | `EndToEnd.AnswerNamesTheEndIff` |
| An unaligned request for larger blocks is logged as ignored, but the next slice is cut in the larger size behind a gap | `SendRun.AckContinuesIff`, `SendRun.AnyAckContinuesIff`, `SendRun.UnalignedLeavesGap` |
| A repeated acknowledgement that changed the block size is not recognised: after a smaller size the client goes back, after a larger one it skips bytes or stops early | `SendRun.RepeatIgnoredIff`, `SendRun.RepeatUnalignedIff`, `SendRun.RepeatGoesBack`, `SendRun.RepeatSkips` |
| An acknowledgement of the second block that asks for twice the size is taken for a duplicate, and nothing is sent | `SendRun.AckEnlarges` |
| With MAX_PAYLOADS of 1 or 2 the Q-Block1 timer never sends another block | `QBlockBursts.BodyGoesOutIff`, `QBlockBursts.BurstsStuck` |
| Block numbers from 65536 on are written in three bytes and read as four | `MissingBlocks.DerivedIff`, `MissingBlocks.ReadReport`, `MissingBlocks.LargeNumberIsMisread` |
| A response can be given to another transfer whose application token equals the base of its state token | `VarUint.ResponseFindsItsTransfer`, `VarUint.AppTokenCanShadow` |
| An empty block list passes the completeness test for one block | `ReceivedBlocks.BlockList.CheckAllBlocksIn` |
| Rounding down overflows into the mantissa from 2^23 on | `PseudoFloat.DownIsFloorIff` |
| The 50 ms test before sending subtracts the wrong way round | `DoubleBuffer.PacingTest`, `DoubleBuffer.PacingTestPassesAtOnce` |
| A packet is sent in every cycle, also with samples of earlier cycles in it | `DoubleBuffer.PacketIsFreshIff`, `DoubleBuffer.EmptyPacketIsSent` |
| A response without a request neither releases nor keeps its body | `SharedBody.Server.LargeResponse` |
| A new SPI strip holds no valid wave until it is cleared | `LedStrip.ZeroIsNoWave` |

## Model

| member | source | states |
|---|---|---|
| ReceivedBlocks.BlockList.CheckIfReceived | managed_components/espressif__coap/libcoap/src/coap_block.c:1436-1447 | the scan with its early exit decides membership in the set exactly |
| ReceivedBlocks.BlockList.CheckAllBlocksIn | managed_components/espressif__coap/libcoap/src/coap_block.c:1449-1465 | for a non-empty list below `total`: true iff every block is present; true from any non-empty list implies all present; the exact condition for any list, and the empty list passes for one block |
| ReceivedBlocks.BlockList.Update | managed_components/espressif__coap/libcoap/src/coap_block.c:2512-2564 | keeps the ranges sorted, disjoint and non-adjacent; succeeds iff the enlarged set needs fewer runs than the array has slots; then the set gains exactly the number, otherwise nothing changes |
| ReceivedBlocks.BlockList.InsertRange | managed_components/espressif__coap/libcoap/src/coap_block.c:2528-2536 | opening a slot with an overlapping move puts one range between its neighbours |
| ReceivedBlocks.BlockList.MergeWithNext | managed_components/espressif__coap/libcoap/src/coap_block.c:2539-2551 | closing a slot joins two ranges and keeps the others |
| ReceivedBlocks.Splice | managed_components/espressif__coap/libcoap/src/coap_block.c:2512-2564 | extending, merging and inserting are one edit that adds exactly one number and keeps the list well formed |
| ReceivedBlocks.RangesAreRuns | managed_components/espressif__coap/libcoap/src/coap_block.c:2512-2564 | a well-formed list has one range per maximal run of its set |
| ReceivedBlocks.Canonical | managed_components/espressif__coap/libcoap/src/coap_block.c:2512-2564 | two well-formed lists for the same set are equal, so all successful arrival orders end in the same array |
| VarUint.DecodeVarBytes | managed_components/espressif__coap/libcoap/src/coap_encode.c:37-44 | the big-endian value modulo 2^32 for any length |
| VarUint.DecodeVarBytes8 | managed_components/espressif__coap/libcoap/src/coap_encode.c:66-74 | the big-endian value of the first eight bytes, without wrap-around |
| VarUint.EncodeVarSafe | managed_components/espressif__coap/libcoap/src/coap_encode.c:46-64 | writes the shortest form in place and nothing behind it, or nothing at all when it does not fit; also the 8-byte variant |
| VarUint.ValueOfShortest | managed_components/espressif__coap/libcoap/src/coap_encode.c:37-64 | decoding inverts encoding for every value |
| VarUint.ShortestOfValue | managed_components/espressif__coap/libcoap/src/coap_encode.c:37-64 | encoding inverts decoding exactly on strings without a leading zero |
| VarUint.ShortestLength | managed_components/espressif__coap/libcoap/src/coap_encode.c:46-64 | the encoded length is at most n iff the value is below 256^n |
| VarUint.EncodingIsMinimal | managed_components/espressif__coap/libcoap/src/coap_encode.c:46-64 | no byte string with the same value is shorter |
| VarUint.WordRoundTrip | managed_components/espressif__coap/libcoap/src/coap_encode.c:66-95 | every 64-bit value survives encoding and 8-byte decoding |
| VarUint.OptBlockNum | managed_components/espressif__coap/libcoap/src/coap_block.c:38-55 | the option value shifted right by four, modulo 2^32, at every length including zero |
| VarUint.BlockOptionRoundTrip | managed_components/espressif__coap/libcoap/src/coap_block.c:38-55 | number, M and size come back from every encoded Block option, whatever its length |
| VarUint.TokenKeepsBase | managed_components/espressif__coap/libcoap/src/coap_block.c:22-24 | for every token and every retry count the base survives composing, encoding and decoding |
| VarUint.TokenParts | managed_components/espressif__coap/libcoap/src/coap_block.c:22-24 | reading a token back gives the base below 2^48 and the retry count modulo 65536 above it |
| VarUint.TokensRepeatIff | managed_components/espressif__coap/libcoap/src/coap_block.c:22-24 | two attempts of one transfer have the same token iff they are a multiple of 65536 retries apart |
| VarUint.FindTransfer | managed_components/espressif__coap/libcoap/src/coap_block.c:3026-3037 | the first request in the list that matches the token, or none; responses are passed over |
| VarUint.ResponseFindsItsTransfer | managed_components/espressif__coap/libcoap/src/coap_block.c:3026-3037 | a response reaches its own transfer iff no earlier request has that base as its state or application token |
| VarUint.AppTokenCanShadow | managed_components/espressif__coap/libcoap/src/coap_block.c:3033-3037 | two transfers with different bases where the response goes to the wrong one |
| BlockCut.Flsll | managed_components/espressif__coap/libcoap/src/coap_encode.c:26-35 | the position of the highest set bit |
| BlockCut.FlsBounds | managed_components/espressif__coap/libcoap/src/coap_encode.c:17-35 | that position brackets the number between two powers of two |
| BlockCut.SetupBlock | managed_components/espressif__coap/libcoap/src/coap_block.c:127-167 | success exactly when 16 bytes are free or the rest is shorter than the space; then the same start offset, a payload that fits, M iff bytes remain, and the largest size that is needed and fits |
| BlockCut.Rescale | managed_components/espressif__coap/libcoap/src/coap_block.c:148-162 | shifting the number by the difference of the sizes keeps the byte offset |
| BlockCut.Pdu.UpdateOption | managed_components/espressif__coap/libcoap/src/coap_pdu.c:562-689 | inserts or replaces the Block option when there is space for it, and exactly what space is left then; otherwise the message stays as it was |
| BlockCut.Pdu.WriteBlockOpt | managed_components/espressif__coap/libcoap/src/coap_block.c:202-231 | exactly when the request is illegal or finds no room; otherwise the option for a block with the requested start goes into the message and takes its space there |
| BlockCut.Pdu.AddData | managed_components/espressif__coap/libcoap/src/coap_pdu.c:766-794 | appends the payload behind one marker byte iff there is no data yet and room for both |
| BlockCut.Pdu.AddBlock | managed_components/espressif__coap/libcoap/src/coap_block.c:233-267 | adds exactly the slice of the block, or fails and changes nothing |
| BlockCut.Pdu.WriteAndAdd | managed_components/espressif__coap/libcoap/src/coap_block.c:202-267 | a block is fitted, its option written and its data added: success exactly when payload, marker byte and the growth of the option (if it can be written) fit the space that was measured, in terms of the inputs; then exactly the requested bytes go out |
| BlockCut.Pdu.WriteCopyAndAdd | managed_components/espressif__coap/libcoap/src/coap_block.c:169-245 | the same for the variant that fits a copy of the block, with another option added in between, and then adds the block that was asked for |
| BlockCut.RequestedIff | managed_components/espressif__coap/libcoap/src/coap_block.c:169-245 | that condition counted in bytes: payload, marker, growth of the Block option, and the other option if it fits behind it |
| BlockCut.FittedRoom | managed_components/espressif__coap/libcoap/src/coap_block.c:202-267 | the space left after the option decides, and the slice of the chosen block is the requested bytes |
| BlockCut.RoomyBlockGoesOut | managed_components/espressif__coap/libcoap/src/coap_block.c:127-231 | eight spare bytes are always enough |
| BlockCut.ReducedCopyFails | managed_components/espressif__coap/libcoap/src/coap_block.c:169-199 | a size that was reduced in the copy only makes adding the requested block fail, unless the option shrinks |
| BlockCut.CopyOfTwentyFails | managed_components/espressif__coap/libcoap/src/coap_block.c:169-245 | 20 bytes left for a 32-byte block: fitted with 16 bytes, sent with none |
| BlockCut.ExactFillFails | managed_components/espressif__coap/libcoap/src/coap_block.c:127-167 | 64 bytes left for a 64-byte block: fitted, but there is no byte for the marker |
| BlockCut.OptionTakesTheRoom | managed_components/espressif__coap/libcoap/src/coap_block.c:202-231 | 17 bytes left for a 16-byte block: fitted, but the new Block option takes the byte the marker needs |
| BlockCut.BlockCountExact | managed_components/espressif__coap/libcoap/src/coap_block.c:233-245 | the blocks below the block count are exactly the non-empty ones |
| BlockCut.AllBlocksAreTheBody | managed_components/espressif__coap/libcoap/src/coap_block.c:233-245 | all slices in order are the body |
| OptionSpace.GrowthIsTheBytes | managed_components/espressif__coap/libcoap/src/coap_pdu.c:562-689 | for every list of options: what the message grows by when an option is inserted or replaced is the difference of the encoded lists, including the bytes the header of the next option loses |
| OptionSpace.AskedIsEnough | managed_components/espressif__coap/libcoap/src/coap_pdu.c:562-689 | the space asked for is the whole encoded option, never less than the growth and at most two bytes more |
| Reassembly.BuildBody | managed_components/espressif__coap/libcoap/src/coap_block.c:3284-3320 | copies in place when the block fits and otherwise moves to a grown buffer: the contents are those of `Build`, for every outcome of the allocations |
| Reassembly.Receiver.PutBlock | managed_components/espressif__coap/libcoap/src/coap_block.c:2579-2840 | the receiver with its range array and buffer refines `Receive`, which knows only a set of numbers: same outcome, same new state |
| Reassembly.Receiver.StoreNew | managed_components/espressif__coap/libcoap/src/coap_block.c:2737-2766 | a new block is counted and stored, or refused because it needs too many ranges |
| Reassembly.Receiver.KeepBytes | managed_components/espressif__coap/libcoap/src/coap_block.c:2758-2763 | the length is raised before the copy |
| Reassembly.Receiver.Finish | managed_components/espressif__coap/libcoap/src/coap_block.c:2768-2829 | when the body is handed over, a missing buffer read, the next block asked for, or nothing said |
| Reassembly.OneRange | managed_components/espressif__coap/libcoap/src/coap_block.c:2781-2783 | the payload-set test on the first range is a statement about the set |
| EndToEnd.IsolatedIff | managed_components/espressif__coap/libcoap/src/coap_block.c:2659-2665 | a packet goes to the application by itself exactly when no transfer is in progress and it begins none, with its part of the payload at its offset |
| EndToEnd.IsolatedTotal | managed_components/espressif__coap/libcoap/src/coap_block.c:2659-2665 | the total given with such a packet never exceeds the body, and exceeds the end of the block exactly when bytes follow it, as M says |
| EndToEnd.RefusedIff | managed_components/espressif__coap/libcoap/src/coap_block.c:2667-2716 | when a packet is answered by 5.00 or by a 4.08 for its format or its size, and that no transfer is left then |
| EndToEnd.OversizedIsCut | managed_components/espressif__coap/libcoap/src/coap_block.c:2634-2639 | bytes beyond the block size make no difference, except in a body of one message |
| EndToEnd.ReceiveKeepsInv | managed_components/espressif__coap/libcoap/src/coap_block.c:2731-2829 | every delivery keeps: each received block is in the buffer or lost for good, and the length covers the received blocks and no more |
| EndToEnd.HandedIsOriginalIff | managed_components/espressif__coap/libcoap/src/coap_block.c:2731-2829 | one hand-over is the original iff nothing was lost and Size1 was right for this packet |
| EndToEnd.EveryRunIsSafe | managed_components/espressif__coap/libcoap/src/coap_block.c:2731-2829 | in every run of deliveries, whatever order, repetition and loss: a body handed over is the original, byte for byte and in length, iff since the transfer began no new block met failing memory with no buffer or one too short, and Size1 did not exceed the length (was exact, when M was set) |
| EndToEnd.LostIffStoreFailed | managed_components/espressif__coap/libcoap/src/coap_block.c:2753-2767 | the mark for lost bytes is set exactly when some delivery since the transfer began could not store its block |
| EndToEnd.NothingLost | managed_components/espressif__coap/libcoap/src/coap_block.c:2753-2767 | without failed allocations nothing is ever lost |
| EndToEnd.Block1BodiesAreOriginal | managed_components/espressif__coap/libcoap/src/coap_block.c:2731-2829 | Block1 with Size1 absent, right or too small: every body handed over is the original |
| EndToEnd.QBlock1BodiesAreOriginal | managed_components/espressif__coap/libcoap/src/coap_block.c:2731-2829 | Q-Block1 with an exact Size1: every body handed over is the original |
| EndToEnd.DeliveryStep | managed_components/espressif__coap/libcoap/src/coap_block.c:2701-2829 | one delivery with memory and within the range limit, whatever size was announced: refused if a Q-Block1 transfer outgrew it; otherwise the block is recorded, and the body handed over iff all blocks up to the length kept are in |
| EndToEnd.AnyOrderDelivers | managed_components/espressif__coap/libcoap/src/coap_block.c:2701-2829 | completeness for Block1 and Q-Block1 and any announced size: a run that begins with block 0 and never needs four ranges hands a body over at the first delivery after which all blocks up to the length kept are in, and at no earlier one; it is the original iff the size was right |
| EndToEnd.CompletesIff | managed_components/espressif__coap/libcoap/src/coap_block.c:2768-2770 | when that is: with the right size, once every block is in (for Block1, with the packet without M); for Block1 with a larger size, the same iff that size has no more blocks than the body |
| EndToEnd.OversizedNeverCompletes | managed_components/espressif__coap/libcoap/src/coap_block.c:2768-2770 | an announced size with more blocks than the body is never completed |
| EndToEnd.AnnouncedSizeDelivers | managed_components/espressif__coap/libcoap/src/coap_block.c:2701-2829 | with the size announced as it should be, the original is handed over at the first delivery with every block in (for Block1, of a packet without M), and at no earlier one |
| EndToEnd.EarlierAnswers | managed_components/espressif__coap/libcoap/src/coap_block.c:2768-2807 | before that every block with M is answered by 2.31, for Q-Block1 only at the end of a gapless payload set, and others not at all |
| EndToEnd.AnswerNamesTheEndIff | managed_components/espressif__coap/libcoap/src/coap_block.c:2781-2803 | the number in a 2.31 for Q-Block1 is the end of the payload set iff the block behind it is not in |
| EndToEnd.QBlock1NeedsSize1 | managed_components/espressif__coap/libcoap/src/coap_block.c:2731-2829 | Q-Block1 without Size1 hands block 0 over as the body |
| EndToEnd.Size1TooLarge | managed_components/espressif__coap/libcoap/src/coap_block.c:2759-2829 | Block1 with a Size1 one byte too large: both blocks arrive, and a body one byte too long goes out |
| EndToEnd.FailedAllocationLeavesHole | managed_components/espressif__coap/libcoap/src/coap_block.c:2737-2767 | a failed allocation on block 0 makes the next block hand over a wrong body |
| EndToEnd.NullReadIff | managed_components/espressif__coap/libcoap/src/coap_block.c:2659-2822 | for every packet and every transfer: the missing buffer is read iff the packet fits the transfer, may complete it and brings nothing new, all blocks are in and there is no buffer |
| EndToEnd.CutNullReadIff | managed_components/espressif__coap/libcoap/src/coap_block.c:2659-2822 | for the blocks of a body: iff the block is known, all are in, the packet may complete the body, and nothing was ever stored |
| EndToEnd.EmptyQBlockReadsNull | managed_components/espressif__coap/libcoap/src/coap_block.c:2764-2822 | one Q-Block1 packet without payload and Size1 reads the missing buffer, with all memory there is |
| EndToEnd.EmptyBlocksReadNull | managed_components/espressif__coap/libcoap/src/coap_block.c:2764-2822 | so do two empty Block1 packets |
| EndToEnd.RepeatReadsNull | managed_components/espressif__coap/libcoap/src/coap_block.c:2764-2822 | two blocks that met failing memory and then the second again: the missing buffer is read |
| SendRun.LgXmit.HandleAck | managed_components/espressif__coap/libcoap/src/coap_block.c:3041-3163 | the fields and the message after one acknowledgement are those of `Step` |
| SendRun.AckReduces | managed_components/espressif__coap/libcoap/src/coap_block.c:3054-3067 | a smaller size makes the next block start exactly where the sent one ended |
| SendRun.AckEnlarges | managed_components/espressif__coap/libcoap/src/coap_block.c:3054-3091 | a larger aligned size continues, except that twice the size on the second block is taken for a duplicate: nothing is sent |
| SendRun.AckUnaligned | managed_components/espressif__coap/libcoap/src/coap_block.c:3054-3146 | a larger unaligned size leaves a gap unless nothing is left to send |
| SendRun.UnresizedOutcome | managed_components/espressif__coap/libcoap/src/coap_block.c:3041-3163 | every acknowledgement that leaves the size in use, with any number and size: when it is ignored, ends the run, finds no bytes, or sends, and exactly what |
| SendRun.ResizedOutcome | managed_components/espressif__coap/libcoap/src/coap_block.c:3054-3067 | one that changes the size at a common boundary is the acknowledgement that ends at the same byte in the new size |
| SendRun.AckContinuesIff | managed_components/espressif__coap/libcoap/src/coap_block.c:3041-3163 | the exact condition for continuing without gap or overlap, in any size |
| SendRun.AckNumberUnread | managed_components/espressif__coap/libcoap/src/coap_block.c:3054-3067 | when the size changes to an aligned one, the number in the acknowledgement is not read |
| SendRun.AnyAckContinuesIff | managed_components/espressif__coap/libcoap/src/coap_block.c:3041-3163 | the exact condition for an acknowledgement with any number |
| SendRun.UnalignedLeavesGap | managed_components/espressif__coap/libcoap/src/coap_block.c:3054-3146 | a concrete unaligned acknowledgement after which bytes 16 to 31 are never sent |
| SendRun.RepeatIgnoredIff | managed_components/espressif__coap/libcoap/src/coap_block.c:3054-3163 | the second copy of an acknowledgement that was continued from is ignored iff the size stayed the same; after a smaller size the client goes back, after a larger one it skips at least a block or stops |
| SendRun.RepeatUnalignedIff | managed_components/espressif__coap/libcoap/src/coap_block.c:3054-3163 | after an unaligned acknowledgement the second copy is ignored unless the next boundary is aligned |
| SendRun.RepeatGoesBack | managed_components/espressif__coap/libcoap/src/coap_block.c:3054-3146 | a concrete repeated acknowledgement after which bytes 16 to 31 are sent again |
| SendRun.RepeatSkips | managed_components/espressif__coap/libcoap/src/coap_block.c:3054-3163 | a concrete run with an enlarging acknowledgement received twice, after which bytes 96 to 127 are never sent |
| SendRun.AdvanceTiles | managed_components/espressif__coap/libcoap/src/coap_block.c:3041-3163 | each expected acknowledgement keeps the tiling; a new one sends more bytes or ends the run |
| SendRun.RunTiles | managed_components/espressif__coap/libcoap/src/coap_block.c:3041-3163 | for every sequence of acknowledgements of the block sent last, in any size that can be continued with, and of unchanged repetitions: the bytes sent are a prefix without gap or overlap, M is clear exactly on the last block, and a finished run has sent the body |
| SendRun.RunEnds | managed_components/espressif__coap/libcoap/src/coap_block.c:3041-3163 | the run ends, with the whole body sent, within as many new acknowledgements as the body has bytes |
| QBlockBursts.QXmit.SendQBlocks | managed_components/espressif__coap/libcoap/src/coap_block.c:1638-1776 | one call sends the blocks up to the end of the payload set or body, in order, and sets the all-sent time only after the final one |
| QBlockBursts.QXmit.SendRest | managed_components/espressif__coap/libcoap/src/coap_block.c:1705-1769 | the loop sends each following block once up to the end of the burst |
| QBlockBursts.QXmit.SendFirst | managed_components/espressif__coap/libcoap/src/coap_block.c:1929-1949 | the first burst leads to the first state of the run |
| QBlockBursts.QXmit.CheckTimer | managed_components/espressif__coap/libcoap/src/coap_block.c:1779-1825 | a timer that ran out leads to the next state of the run |
| QBlockBursts.CallEndAnywhere | managed_components/espressif__coap/libcoap/src/coap_block.c:1667-1769 | a call for any block runs to the end of the payload set of the next block or of the body, and sends nothing if that set has only one block left |
| QBlockBursts.BurstsCover | managed_components/espressif__coap/libcoap/src/coap_block.c:1638-1825 | for MAX_PAYLOADS of 3 or more: after k timers exactly the blocks of the first k+1 payload sets were sent, each once, ascending |
| QBlockBursts.BurstsAreBounded | managed_components/espressif__coap/libcoap/src/coap_block.c:1638-1825 | no burst is longer than MAX_PAYLOADS, whatever that is |
| QBlockBursts.BurstsStuck | managed_components/espressif__coap/libcoap/src/coap_block.c:1638-1825 | with MAX_PAYLOADS of 1 or 2 only block 0 ever goes out |
| QBlockBursts.BodyGoesOutIff | managed_components/espressif__coap/libcoap/src/coap_block.c:1638-1825 | the last block is reached iff MAX_PAYLOADS is at least 3 or there is one block; then the payloads together are the body |
| WholeTransfer.RunSendsInOrder | managed_components/espressif__coap/libcoap/src/coap_block.c:3041-3163 | a sending run whose server keeps the block size sends the blocks 0, 1, 2, ... with their slices and M, once each, and all of them when it is over |
| WholeTransfer.MessagesAreCuts | managed_components/espressif__coap/libcoap/src/coap_block.c:3096-3146 | every message of such a run is a packet of the body |
| WholeTransfer.Block1TransferIsSafe | managed_components/espressif__coap/libcoap/src/coap_block.c:2731-2829 | whatever messages of whatever run arrive, in any order and with any repetition: a body handed over is the one given to the sender iff storing never failed and Size1 was right |
| WholeTransfer.Block1TransferCompletes | managed_components/espressif__coap/libcoap/src/coap_block.c:2731-2829 | of a finished run, once every message arrived, the delivery of the last block hands the original over |
| WholeTransfer.BurstsAreCuts | managed_components/espressif__coap/libcoap/src/coap_block.c:1638-1825 | every block that goes out in bursts is a block of the body |
| WholeTransfer.QBlock1TransferDelivers | managed_components/espressif__coap/libcoap/src/coap_block.c:1638-1825 | Q-Block1 from burst to hand-over: what is handed over is the original, and once all blocks went out and arrived it is handed over |
| WholeTransfer.SizeChangeNumbers | managed_components/espressif__coap/libcoap/src/coap_block.c:3054-3133 | after a change of size that the client can continue with, the next number is one sent before (larger size) or leaves a number out (smaller size) |
| WholeTransfer.KnownNumberIsNotStored | managed_components/espressif__coap/libcoap/src/coap_block.c:2737-2767 | a packet with a known number is not stored, whatever its size |
| WholeTransfer.SkippedNumberNeverCompletes | managed_components/espressif__coap/libcoap/src/coap_block.c:1449-1465 | with a number left out nothing behind it completes a body |
| WholeTransfer.GrownBlockIsLost | managed_components/espressif__coap/libcoap/src/coap_block.c:2737-2829 | a concrete transfer whose last block comes in a larger size: its bytes are dropped and the body goes out without them |
| MissingBlocks.MissingInExact | managed_components/espressif__coap/libcoap/src/coap_block.c:1568-1600 | the reported list is exact, ascending and without repeats |
| MissingBlocks.Report.Add408Block | managed_components/espressif__coap/libcoap/src/coap_block.c:1398-1432 | appends the encoded number iff it is a block number and fits |
| MissingBlocks.ItemIsShortest | managed_components/espressif__coap/libcoap/src/coap_block.c:1398-1432 | below 24 the number itself, otherwise a head byte that counts and then the number without leading zeros, also for the three bytes behind head 26 |
| MissingBlocks.Report.AddRun | managed_components/espressif__coap/libcoap/src/coap_block.c:1579-1584 | reports a whole gap in order until one number does not fit |
| MissingBlocks.ReportMissing | managed_components/espressif__coap/libcoap/src/coap_block.c:1569-1600 | one walk over the ranges lists exactly the numbers up to the final block that were not received, as far as they fit |
| MissingBlocks.CountMissing | managed_components/espressif__coap/libcoap/src/coap_block.c:1538-1548 | the highest received block and the number of gaps below it |
| MissingBlocks.PlanReport | managed_components/espressif__coap/libcoap/src/coap_block.c:1530-1567 | the transfer expires iff nothing is missing; otherwise the report reaches to the end of the payload set of the highest received block or of the body, one set further if nothing is missing up to there, and it is not empty |
| MissingBlocks.SetEndUnique | managed_components/espressif__coap/libcoap/src/coap_block.c:1552-1557 | only one number less than MAX_PAYLOADS above a block ends a payload set |
| MissingBlocks.ReachUnique | managed_components/espressif__coap/libcoap/src/coap_block.c:1552-1567 | so the reach of the report is determined by the set of received blocks |
| MissingBlocks.DeriveCborValue | managed_components/espressif__coap/libcoap/src/coap_block.c:2877-2909 | the value and the next position are those of `Derived`, for every item |
| MissingBlocks.DerivedIff | managed_components/espressif__coap/libcoap/src/coap_block.c:1398-1432 | every written item below 65536 is read back, and no larger one |
| MissingBlocks.CutItem | managed_components/espressif__coap/libcoap/src/coap_block.c:2877-2909 | an item with bytes missing at the end is read as no block number |
| MissingBlocks.LargeNumberIsMisread | managed_components/espressif__coap/libcoap/src/coap_block.c:1419-1425 | block 65536 is read as the number of the byte behind the report |
| MissingBlocks.ReadReport | managed_components/espressif__coap/libcoap/src/coap_block.c:3206-3240 | the client re-sends the first MAX_PAYLOADS blocks of the server's list iff these are all below 65536 and in its body |
| MissingBlocks.ListsAll | managed_components/espressif__coap/libcoap/src/coap_block.c:1569-1600 | with room for all of them the list is complete |
| MissingBlocks.MissingIsInBody | managed_components/espressif__coap/libcoap/src/coap_block.c:1569-1600 | a transfer asks only for blocks of the body |
| MissingBlocks.Recover | managed_components/espressif__coap/libcoap/src/coap_block.c:1520-1605 | planning, listing and reading together: unless all is in, a non-empty list with the reach above, and with room for it the client re-sends exactly its first MAX_PAYLOADS blocks iff they are below 65536 (and in its body, which they are for a transfer of its size) |
| RingBuffers.RingBuffer.constructor | main/ringbuffer.c:9-35 | a new buffer is empty and not full |
| RingBuffers.RingBuffer.Write | main/ringbuffer.c:42-53 | appends to the queue, all slots usable; the flag rises exactly on the last slot and stays |
| RingBuffers.RingBuffer.Read | main/ringbuffer.c:55-71 | takes the oldest value; the flag falls exactly on emptying |
| RingBuffers.RingBuffer.Drain | main/main.c:338-342 | from a freshly full buffer the loop ends after exactly `size` reads with the buffer empty and the values in order |
| DoubleBuffer.TickKeepsInv | main/main.c:173-248 | one interrupt keeps the invariant of locks, flags, buffers and batches |
| DoubleBuffer.TaskKeepsInv | main/main.c:327-376 | one step of the task keeps it |
| DoubleBuffer.RunInv | main/main.c:173-376 | it holds after every interleaving |
| DoubleBuffer.LocksAreSafe | main/main.c:173-376 | over every interleaving: holder flag iff the interrupt owns the lock, never both locks, a free buffer is empty or freshly full, the task never finds a partially filled one |
| DoubleBuffer.BatchesAreWhole | main/main.c:332-371 | every drained batch is `size` samples of consecutive ticks, values successive modulo 50000, with the time of its first sample |
| DoubleBuffer.RunConserves | main/main.c:173-376 | over every interleaving samples written are exactly those drained or still buffered |
| DoubleBuffer.NothingTwice | main/main.c:173-376 | no sample is drained twice, or drained and still buffered |
| BufferProgress.FilledBufferIsLeft | main/main.c:204-212 | the interrupt that fills a buffer gives its lock back and goes on with the other buffer |
| BufferProgress.FillsAlternate | main/main.c:183-246 | over every interleaving: each filled buffer is the other one than the one filled before, buffer 1 first |
| BufferProgress.SampleDroppedIff | main/main.c:173-248 | over every interleaving: a sample is dropped exactly when the buffer not filled last is held by the task or not drained yet, and is written otherwise |
| BufferProgress.IsrFills | main/main.c:185-212 | a tick with the lock held adds one sample; the one that fills the buffer frees the lock |
| BufferProgress.TaskProgress | main/main.c:325-376 | every step of the task that does not wait for a lock brings a full buffer closer to being drained |
| BufferProgress.WaitingIsDrained | main/main.c:325-376 | from any state with a full buffer, over every continuation: it is drained, or closer by the steps the task made |
| BufferProgress.FullBufferIsDrained | main/main.c:325-376 | over every interleaving: a full free buffer is drained, as one batch with its samples and time, within 2 * size + 8 steps of the task |
| BufferProgress.DrainTakesSizePlusFour | main/main.c:327-350 | undisturbed, size + 3 steps of the task add exactly that batch, and the next one frees the lock |
| BufferProgress.BlockedEnds | main/main.c:173-248 | a task that waits for the interrupt is let through, to a full buffer, by the tick with the last sample |
| DoubleBuffer.RunPacket | main/main.c:319-378 | the packet array never overflows and its filled part is the layout so far, at every step |
| DoubleBuffer.PacketIsLaidOut | main/main.c:322-378 | a cycle with both buffers full yields id, time and samples, twice, in order |
| DoubleBuffer.PacketWords | main/main.c:322-378 | the same word by word: where id, time and each sample of both buffers are |
| DoubleBuffer.PacketIsFreshIff | main/main.c:322-383 | the whole array that is sent belongs to this cycle iff both buffers were drained in it |
| DoubleBuffer.StepKeepsTail | main/main.c:322-383 | the words behind the filled part are those of earlier cycles |
| DoubleBuffer.EmptyPacketIsSent | main/main.c:322-383 | without any sample so far an array of zeros is sent |
| DoubleBuffer.PacingTest | main/main.c:379-380 | when the 50 ms test passes, and that its answer is right exactly for no time at all, or for more than 50 ms not close to a multiple of 2^32 microseconds |
| DoubleBuffer.PacingTestPassesAtOnce | main/main.c:379-380 | it lets the next packet pass one microsecond after the last |
| SensorBoard.Board.constructor | main/main.c:318-323 | the initial program state is the initial protocol state |
| SensorBoard.Board.WriteTask | main/main.c:173-248 | the interrupt routine is the protocol's tick and keeps the invariant |
| SensorBoard.Board.FillBuffer | main/main.c:183-212 | the branch for one buffer, with its lock, flag and ring buffer |
| SensorBoard.Board.SendStep | main/main.c:327-378 | each take, check, read and give of the task is a protocol step and keeps the invariant; the packet index stays in bounds |
| LedStrip.ExpansionIsTheWave | managed_components/espressif__led_strip/src/led_strip_spi_dev.c:35-48 | the coded buffer, bit by bit, is the 110/100 wave of the colour bits |
| LedStrip.ExpandInjective | managed_components/espressif__led_strip/src/led_strip_spi_dev.c:35-48 | different colour buffers have different waves |
| LedStrip.CodeReadsBack | managed_components/espressif__led_strip/src/led_strip_spi_dev.c:35-48 | the middle bits of the triples are the colour byte |
| LedStrip.ZeroIsNoWave | managed_components/espressif__led_strip/src/led_strip_spi_dev.c:35-48 | a zeroed buffer is a wave only for an empty strip |
| LedStrip.SpiBit | managed_components/espressif__led_strip/src/led_strip_spi_dev.c:35-48 | ORs exactly the three wave bytes in and touches nothing else |
| LedStrip.RmtStrip.SetPixel | managed_components/espressif__led_strip/src/led_strip_rmt_dev.c:36-49 | refused outside the strip, otherwise green, red, blue (and 0) in place and nothing else |
| LedStrip.RmtStrip.SetPixelRgbw | managed_components/espressif__led_strip/src/led_strip_rmt_dev.c:51-63 | refused outside the strip or on three-byte pixels, otherwise four bytes in place |
| LedStrip.RmtStrip.Clear | managed_components/espressif__led_strip/src/led_strip_rmt_dev.c:80-86 | all bytes become 0 |
| LedStrip.SpiStrip.SetPixel | managed_components/espressif__led_strip/src/led_strip_spi_dev.c:50-64 | the same refusals; otherwise the wave of the same bytes in place and nothing else |
| LedStrip.SpiStrip.SetPixelRgbw | managed_components/espressif__led_strip/src/led_strip_spi_dev.c:66-81 | the same for four-byte pixels |
| LedStrip.SpiStrip.Clear | managed_components/espressif__led_strip/src/led_strip_spi_dev.c:97-109 | the buffer becomes the wave of an all-dark strip |
| LedStrip.AcceptedIff | managed_components/espressif__led_strip/src/led_strip_rmt_dev.c:36-63 | a call succeeds exactly for a pixel of the strip, and with a white part only on four-byte pixels; refused calls change nothing; both drivers agree |
| LedStrip.ColourOrder | managed_components/espressif__led_strip/src/led_strip_rmt_dev.c:36-63 | after an accepted call the bytes from index * bytes_per_pixel on are green, red, blue and white (0 without one), each cut to 8 bits, and the others are unchanged |
| LedStrip.ColourOrderOnTheWire | managed_components/espressif__led_strip/src/led_strip_spi_dev.c:50-81 | the same for the bytes read back from the wave |
| LedStrip.PixelPlace | managed_components/espressif__led_strip/src/led_strip_rmt_dev.c:36-49 | the bytes of a pixel are those from index * bytes_per_pixel on |
| LedStrip.StepRefines | managed_components/espressif__led_strip/src/led_strip_spi_dev.c:50-109 | from an expanded buffer each call gives the same status and the expansion of the RMT result |
| LedStrip.SpiRefinesRmt | managed_components/espressif__led_strip/src/led_strip_spi_dev.c:50-109 | after a clear on both, whatever was there before, every sequence of calls gives the same statuses and the wave of the RMT buffer |
| LedStrip.PixelShowsItsColour | managed_components/espressif__led_strip/src/led_strip_rmt_dev.c:36-86 | every pixel shows the last accepted colour for it since the last clear |
| LedStrip.ColourIsRecoverable | managed_components/espressif__led_strip/src/led_strip_spi_dev.c:35-109 | that colour can be read back from the SPI wave alone |
| PseudoFloat.DownValue | managed_components/espressif__coap/libcoap/examples/tiny.c:37-43 | below 2^23 rounding down keeps the upper four significant bits |
| PseudoFloat.DownIsFloor | managed_components/espressif__coap/libcoap/examples/tiny.c:37-43 | the largest representable value not above v |
| PseudoFloat.DownIsFloorIff | managed_components/espressif__coap/libcoap/examples/tiny.c:37-43 | and that exactly for v below 2^23 |
| PseudoFloat.UpIsCeiling | managed_components/espressif__coap/libcoap/examples/tiny.c:44 | the smallest representable value not below v, including the carry into the next exponent |
| PseudoFloat.UpIsCeilingIff | managed_components/espressif__coap/libcoap/examples/tiny.c:44 | and that exactly for v up to MAX_VALUE |
| PseudoFloat.RoundingIsMonotone | managed_components/espressif__coap/libcoap/examples/tiny.c:33-44 | both roundings are monotone |
| PseudoFloat.RoundingError | managed_components/espressif__coap/libcoap/examples/tiny.c:33-44 | the error is 0 below 128 and otherwise below one unit, at most one eighth of v |
| SharedBody.Server.Alloc | managed_components/espressif__coap/libcoap/examples/coap-server.c:208-221 | a fresh value with one reference, or none when an allocation fails |
| SharedBody.Server.Reference | managed_components/espressif__coap/libcoap/examples/coap-server.c:244-258 | one reference more, and the length, also for no value |
| SharedBody.Server.Release | managed_components/espressif__coap/libcoap/examples/coap-server.c:227-239 | one reference less; freed exactly on the last one |
| SharedBody.Server.DeleteXmit | managed_components/espressif__coap/libcoap/src/coap_block.c:2141-2149 | deleting a transfer releases its body once |
| SharedBody.Server.Find | managed_components/espressif__coap/libcoap/src/coap_block.c:552-587 | the first transfer for that resource, query and tag |
| SharedBody.Server.AddDataLarge | managed_components/espressif__coap/libcoap/src/coap_block.c:591-990 | on every path the reference is released once or the new transfer holds it; which one, and what happens to an older transfer |
| SharedBody.TransferBegunIff | managed_components/espressif__coap/libcoap/src/coap_block.c:591-990 | when a response begins a transfer, in the inputs alone: block 0 of a body too long for one block of any usable size (without a Block option: for the message), not a single-block request, and nothing fails |
| SharedBody.LargestUsable | managed_components/espressif__coap/libcoap/src/coap_block.c:728-765 | the block size taken is the largest that the request allows and the message has room for |
| SharedBody.ErrorIff | managed_components/espressif__coap/libcoap/src/coap_block.c:591-1126 | when the response is 4.00, 5.00 or no error, in the inputs alone |
| SharedBody.Server.StartTransfer | managed_components/espressif__coap/libcoap/src/coap_block.c:763-966 | every failure after the transfer was allocated releases through it; success links it in front |
| SharedBody.Server.LargeResponse | managed_components/espressif__coap/libcoap/src/coap_block.c:1015-1126 | with a request the reference is used up exactly once on every path; without one it is neither released nor kept; the code of the response, and the transfers that are left |
| SharedBody.Server.HandleGet | managed_components/espressif__coap/libcoap/examples/coap-server.c:465-493 | keeps the invariant; allocates the initial body once; the transfer, if any, holds the current value; the code of the response |
| SharedBody.Server.HandlePut | managed_components/espressif__coap/libcoap/examples/coap-server.c:592-625 | keeps the invariant; replaces the value; the old one is freed iff no transfer is still sending it; the code of the response |
| SharedBody.Server.Serve | managed_components/espressif__coap/libcoap/examples/coap-server.c:208-625 | every run of GETs, PUTs and ending transfers keeps: each count is the number of references |
| SharedBody.Server.FreedIffUnused | managed_components/espressif__coap/libcoap/examples/coap-server.c:208-258 | a value is freed exactly when neither the server nor a transfer refers to it |
| SharedBody.BodiesWithout | managed_components/espressif__coap/libcoap/src/coap_block.c:702-712 | taking a transfer off the list gives back exactly its reference |
| SharedBody.WithoutFirst | managed_components/espressif__coap/libcoap/src/coap_block.c:702-712 | removing at the found position removes the first match |

## Left out

- BERT (szx 7), confirmable-message pacing and NSTART, OSCORE, Echo, Observe, ETag-change restarts: many branches, no new state to reason about.
- Sockets, Wi-Fi, HTTP, SNTP, DTLS, logging and LED or SPI hardware: I/O.  The CoAP send task, the IDF4 LED driver and HSV conversion: near-duplicates, or floating point.
- Sessions without single-body mode, Block2 reassembly on the client, Q-Block2 bursts, and the request recovery queue of the server.
- Looking up a transfer record of the server by resource and request tag: the receiver is the one record of one resource and tag.
- Timers: times are parameters, and "the timer ran out" is a parameter of the timer check.
- Resizing a message buffer: a message has a fixed maximum size.  `assert` in the C code aborts only in debug builds; the model takes the path behind it.
- ReceivedBlocks.BlockList.Update: block numbers come from 20-bit fields, so the wrap-around of the 32-bit successor is modelled but never needed.
- Reassembly.Receiver.PutBlock: uninitialised memory is modelled by a junk value that differs from every byte; real memory may hold the right byte by chance.
- Reassembly.Receiver.PutBlock: the retained copy of the last token and the 4.08 and 2.31 messages themselves are not part of the outcome, only their kind.
- EndToEnd.AnyOrderDelivers: deliveries before block 0 go to the application one by one and start no transfer, so runs are taken from block 0 on; a body of one block is not tracked at all.
- SendRun.RunTiles: acknowledgements after which the code leaves a gap, goes back or skips are not part of a tiled run; `AnyAckContinuesIff`, `RepeatIgnoredIff` and `RepeatUnalignedIff` say exactly which they are.
- WholeTransfer.RunSendsInOrder: for runs in which the server keeps the block size; what a change of size does to the numbers is `SizeChangeNumbers`.
- WholeTransfer.MessagesAreCuts: the same runs.
- WholeTransfer.Block1TransferIsSafe: the same runs; with a change of size the statement is false, see `GrownBlockIsLost`.
- WholeTransfer.Block1TransferCompletes: the same runs; with a change of size the statement is false, see `SkippedNumberNeverCompletes`.
- QBlockBursts.QXmit.SendQBlocks: failed allocations and sends, which end a burst early, are not modelled.
- QBlockBursts.QXmit.SendRest: the same failures inside the loop are not modelled.
- MissingBlocks.ReportMissing: a message buffer that could not be allocated is not modelled.
- MissingBlocks.ReadReport: allocation and send failures of a re-sent block are not modelled.
- BlockCut.Pdu.UpdateOption: of the other options only what matters for the space is modelled: the size of the own header, and what the header of the next option loses; `OptionSpace` derives both from a list of options.
- SensorBoard.Board.WriteTask: the interrupt is one indivisible step, and so is each take, check, read and give of the task; byte order in the packet and the return value that asks for a task switch are not modelled.
- RingBuffers.RingBuffer.constructor: a failed allocation is not modelled.  The C code does not initialise the timestamp, which is always written before it is read.
- LedStrip.SpiStrip.Clear: the status is that of the transfer to the hardware; only the buffer is modelled.
- LedStrip.SpiStrip.SetPixelRgbw: `bytes_per_pixel` is 3 or 4, the two values the constructors of both drivers set.
- SharedBody.Server.HandlePut: bodies that arrive in parts through the cache, media types and notifying observers are not modelled.
- SharedBody.Server.AddDataLarge: message layout and allocations are parameters, so the statement covers every outcome of them; option handling inside the message is not modelled.
- PseudoFloat.UpIsCeiling: above MAX_VALUE no code can represent the value, so nothing but that is said.
