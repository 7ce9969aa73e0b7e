# Verification of the task controller's compression, match finding, uploads and calendar

This project models, in Dafny, the parts of the controller that are hardest to get right, and proves what they
promise.

* The vendored bzip2 codec, end to end: run-length packing, the cyclic-rotation block sort, move-to-front and run
  coding, length-limited canonical Huffman codes, the bit stream, and every decoder that undoes them with its own
  faster data structure. The compressor and the decompressor are classes and methods over arrays, as in the source.
  `StreamRoundTrip` composes them: whatever calls drive the compressor and however its output is cut up, decompressing
  gives back what the compressor took, through the fast decoder as well as through the memory-saving one, and every
  string of bytes gets there. On input that was never compressed the decompressor terminates, and what it comes to
  depends on the bits alone, not on how they are cut up, on the decoder or on the room for output. Whatever bits it is
  given, it takes bytes for good only from blocks whose stored checksum is that of the bytes, and more input never
  changes what it has decided. It stays within its arrays but for those of the selectors; see below for the exact
  condition.
* The hand-off protocol of the multithreaded match finder, as a transition system in which every access to a flag, an
  event, a semaphore or the critical section is one step.
* The hash-chain match finder and the sliced CRC-32 of the same library.
* The controller's uploads: the main loop, the progress file, crashes, restarts and finalization.
* The calendar arithmetic, timestamps and restart files of the WRF model.

## Modules

| modules | what they hold |
|---|---|
| `Arithmetic`, `Rotations`, `Counting`, `ByteStrings`, `Permutations`, `Options`, `Parsing` | shared notions |
| `BitTable`, `KeySort`, `FallbackSort` | the block sort |
| `Bwt`, `BwtDecoders` | the transform, its inverse, and both decoders of it |
| `WeightHeap`, `HuffmanForest`, `HuffmanOptimal`, `HuffmanLengths`, `PrefixCodes`, `HuffmanCodes` | code lengths, their optimality, codes and tables |
| `BitStream`, `SymbolStream`, `SegmentedMtf`, `MtfCoding`, `BlockTables`, `BlockCodec`, `BlockSize` | everything between a block and its bits |
| `CrcDivision`, `WordBits`, `ByteNumbers`, `BlockCrc` | the checksum of a block as a division of bits |
| `RunLength`, `UnRunLength` | run-length packing |
| `StreamFormat`, `Compressor`, `StreamDecoder`, `StreamRoundTrip` | whole streams |
| `StreamSettling`, `StreamIntegrity` | what streams that are cut off, changed or arbitrary come to |
| `MtSync`, `Crc32`, `Hc4` | the LZMA match finders and their checksum |
| `UploadTask` | the upload protocol |
| `WrfCalendar`, `WrfTimestamps`, `WrfRestarts` | dates, timestamps and restart files |

Lines of the table name the member whose contract states the property; for a method proved against a specification
function, the lemmas about that function are listed beside it. The reading methods are proved against functions of the
bits named `Parse...`; the lemmas named `...Back` and `...Checked` say that these undo the writing, and those named
`...Settled` that they never go back on an answer.

## What turned out false of the code

The decompressor does not stay within the arrays of selectors on every input. A block announces its number of
selectors in 15 bits, only zero is refused, and the arrays have 18002 places. Reading writes past their ends exactly
when a block with a sound head and mapping announces more than 18002 selectors and 18003 ranks can be read in turn,
none too large and none cut off (`StreamDecoder.StreamOverrunsExactly`, `BlockCodec.SelectorsOverrunExactly`);
`StreamDecoder.StreamOverruns` gives such a stream. Comparing the announced number with 18002 would rule it out
(`StreamDecoder.GuardedStaysInside`), and every stream of this compressor passes that test. The model stops there;
what the source does from there on is undefined.

A process can finalize its uploads twice: the wait before its end can lead into error recovery, which finalizes again.
The second finalization then hands over an upload that is not owed. `UploadTask.FinalizationOverruns` gives the exact
condition on the uploads handed over, which a caller could test before the call: the upload number has already reached
the number of uploads owed. `UploadTask.FinalizedTwice` gives a task for which it happens.

## Model

| member | source | states |
|---|---|---|
| `StreamRoundTrip.CompressAndDecompress` | zip/ZipLib/extlibs/bzip2/bzlib.c:407-464 | For every string of bytes, every block size and either decoder: fed in any pieces, with any output room, compression reaches the end of the stream; what it hands out is the stream of blocks that stand for the string, each packed with runs as long as they can be and each but the last as full as a block gets; decompressing it in any chunks gives the string back |
| `StreamRoundTrip.FinishStream` | zip/ZipLib/extlibs/bzip2/bzlib.c:448-460 | Repeated calls for the end of the stream, with some output room each, reach it; all that was offered has been taken, and of the blocks made only the last may be short |
| `StreamRoundTrip.RoundTrip` | zip/ZipLib/extlibs/bzip2/bzlib.c:407-464 | Any sequence of compress calls, each with any action, bytes and output room: if one of them ends the stream, decompressing what was handed out, in any input chunks, any output room and either decoder, gives exactly the bytes the calls took |
| `StreamRoundTrip.ReadBack` | zip/ZipLib/extlibs/bzip2/bzlib.c:808-858 | A compressor that has ended its stream: its output, cut into chunks anyhow, decompresses to the bytes it took |
| `StreamDecoder.Decompress` | zip/ZipLib/extlibs/bzip2/bzlib.c:808-858 | For any input, in any chunks and through either decoder: terminates, and the result (a sound end, input wanted, no stream, bad data, a write past the end of the selector arrays, a randomised block), the bits left and the bytes of the whole blocks are those that the stream as a function of its bits comes to |
| `StreamDecoder.StreamBack` | zip/ZipLib/extlibs/bzip2/bzlib.c:808-858 | The stream of sealed blocks, with anything behind it, comes to a sound end, to what the blocks stand for, and to what is behind it left unread |
| `StreamIntegrity.WrongBlockRefused` | zip/ZipLib/extlibs/bzip2/bzlib.c:821-831 | For any sealed blocks: if any other word is stored for the checksum of block k, whatever the blocks and the trailer after it are, reading ends there with bad data and exactly the bytes of the blocks before it |
| `StreamIntegrity.WrongTrailerRefused` | zip/ZipLib/extlibs/bzip2/bzlib.c:843-850 | If any other word stands in the trailer, reading ends with bad data and the bytes of all blocks |
| `StreamIntegrity.OnlyCheckedDelivered` | zip/ZipLib/extlibs/bzip2/bzlib.c:808-858 | For arbitrary bits that deliver anything or come to a sound end: they are a header and whole blocks; what is delivered is what the blocks stand for, none longer than the header announces and none without a run count; the 32 bits after the 48-bit mark of each block are those of the remainder of its bytes divided bit by bit, turned over; after a sound end the 48-bit end mark follows, and the combined word of just these blocks |
| `StreamIntegrity.StreamSettled` | zip/ZipLib/extlibs/bzip2/decompress.c:43-65 | For arbitrary bits: more input takes back nothing that was delivered, and changes neither an end that was reached nor a refusal |
| `StreamIntegrity.CutStreamAsks` | zip/ZipLib/extlibs/bzip2/decompress.c:43-65 | A stream of sealed blocks cut off anywhere asks for more input, and has delivered a beginning of what the blocks stand for |
| `StreamIntegrity.WholeBlocksDelivered` | zip/ZipLib/extlibs/bzip2/bzlib.c:818-836 | Blocks that are there in full have been delivered, whatever follows them |
| `StreamSettling.ColumnSettled` | zip/ZipLib/extlibs/bzip2/decompress.c:43-102 | For arbitrary bits of a block up to its last column: more input changes nothing that is decided, and what is left is an end of the bits |
| `StreamSettling.SymbolsSettled` | zip/ZipLib/extlibs/bzip2/decompress.c:74-102 | The symbols that have been read stay, and so does the reason why there are no more |
| `StreamDecoder.StreamOverrunsExactly` | zip/ZipLib/extlibs/bzip2/decompress.c:286-315 | Reading a stream leads past the ends of the selector arrays exactly when, after some number of whole blocks, none of them randomised, a block has a sound head and mapping and announces, and goes on to hold, more readable ranks than the 18002 places of the arrays |
| `StreamDecoder.GuardedStaysInside` | zip/ZipLib/extlibs/bzip2/decompress.c:286-315 | If no block that reading comes to announces more than 18002 selectors, reading stays inside the arrays |
| `StreamDecoder.StreamOverruns` | zip/ZipLib/extlibs/bzip2/decompress.c:286-300 | A stream that fails: header, block mark, zeros for head, one byte in use, two tables, 18003 selectors announced, and 18003 zero bits |
| `StreamDecoder.ReadBlock` | zip/ZipLib/extlibs/bzip2/bzlib.c:818-836 | One block read and delivered through the chosen decoder: accepted exactly when its bits are sound, it is not randomised, no run count is missing and the stored checksum is that of the bytes delivered |
| `StreamDecoder.BlockChecked` | zip/ZipLib/extlibs/bzip2/bzlib.c:821-831 | The bits of a sealed block with any word stored for its checksum, whatever follows: they deliver what the block stands for if the word is the right one, and are bad data if it is any other |
| `StreamDecoder.DeliverFast` | zip/ZipLib/extlibs/bzip2/decompress.c:554-577 | From the column and its class starts, the fast decoder reports corruption exactly when the decoded block lacks a run count, and otherwise delivers its expansion and its checksum, whatever room each call has |
| `StreamDecoder.DeliverSmall` | zip/ZipLib/extlibs/bzip2/decompress.c:525-552 | The memory-saving decoder keeps the very same contract as the fast one |
| `StreamDecoder.ReadHeader` | zip/ZipLib/extlibs/bzip2/decompress.c:202-215 | Another mark, or a level outside 1..9, is no stream; else the level |
| `StreamDecoder.HeaderBack` | zip/ZipLib/extlibs/bzip2/compress.c:622-628 | The header that the compressor writes is read back |
| `StreamDecoder.ReadTrailer` | zip/ZipLib/extlibs/bzip2/decompress.c:583-607 | Another mark, or a stored checksum that is not the combined one, is bad data |
| `StreamDecoder.TrailerChecked` | zip/ZipLib/extlibs/bzip2/bzlib.c:843-850 | A trailer with any word in it is told from a block by its first byte and is accepted if the word is the combined checksum of the blocks, and refused if it is any other |
| `StreamDecoder.SealedColumn` | zip/ZipLib/extlibs/bzip2/compress.c:602-640 | The bits of a sealed block determine a column whose decoding is the block |
| `StreamFormat.BlocksPush` | zip/ZipLib/extlibs/bzip2/compress.c:602-658 | One more block appends exactly its bits to those of the blocks before |
| `StreamFormat.SealOne` | zip/ZipLib/extlibs/bzip2/compress.c:589-593 | One more sealed block extends the text and the combined checksum |
| `BlockCrc.WordBack` | zip/ZipLib/extlibs/bzip2/compress.c:83-89 | The four bytes of a checksum, most significant first, shifted in one after the other give the checksum back |
| `BlockCrc.CrcPush` | zip/ZipLib/extlibs/bzip2/bzlib_private.h:157-172 | One more byte takes the checksum of a string one step further |
| `BlockCrc.CrcDivides` | zip/ZipLib/extlibs/bzip2/bzlib_private.h:157-172 | For every string: the checksum, kept a byte at a time with a table, is the remainder of dividing the bits of the string one at a time, most significant first, by the polynomial 04c11db7, beginning from all ones |
| `BlockCrc.OneByteTold` | zip/ZipLib/extlibs/bzip2/bzlib_private.h:167-172 | Two strings of one length that differ in exactly one byte have different checksums |
| `BlockCrc.CheckValue` | zip/ZipLib/extlibs/bzip2/bzlib_private.h:157-172 | The finished checksum of the nine digits is fc891918 |
| `CrcDivision.EntryDivides` | zip/ZipLib/extlibs/bzip2/bzlib_private.h:167-172 | One look-up with the byte added to the top of the register does eight steps of the division |
| `CrcDivision.EntriesOfBits` | zip/ZipLib/extlibs/bzip2/crctable.c:31-104 | The entries of the eight bytes with one bit set are those that stand in the table |
| `CrcDivision.EntryXor` | zip/ZipLib/extlibs/bzip2/crctable.c:31-104 | The entry of a sum of bytes is the sum of their entries, so the entries of the eight bits give all 256 |
| `BlockCrc.WordWritten` | zip/ZipLib/extlibs/bzip2/compress.c:83-89 | The four bytes written for a word are its 32 bits, the most significant first |
| `BlockCrc.FinaliseBits` | zip/ZipLib/extlibs/bzip2/bzlib_private.h:162-165 | Finishing a checksum turns every bit over |
| `BlockCrc.CombineBits` | zip/ZipLib/extlibs/bzip2/compress.c:607-608 | Combining rotates the bits by one place and turns over those set in the checksum of the block |
| `Compressor.EState.BzCompress` | zip/ZipLib/extlibs/bzip2/bzlib.c:407-464 | Every call, in every state: bytes taken plus bytes left are bytes offered; output only grows; the answer is the one of the source, a plain run succeeding exactly when a byte was taken or handed out; a completed flush or stream has taken all input and its finished blocks stand for exactly what was taken; a block is short only if all input has been taken for a flush or finish; at the end of the stream the output is the header, the blocks and one trailer |
| `Compressor.EState.Ask` | zip/ZipLib/extlibs/bzip2/bzlib.c:427-438 | Asking for a flush or a finish settles how much input it has to take, and nothing is complete yet |
| `Compressor.EState.HandleCompress` | zip/ZipLib/extlibs/bzip2/bzlib.c:361-402 | Stops only when input or output runs out or the flush or stream is complete; progress is reported exactly when something moved; blocks made are full, but for a last one once a flush or finish has taken all input; terminates |
| `Compressor.EState.constructor` | zip/ZipLib/extlibs/bzip2/bzlib.c:148-211 | A fresh compressor satisfies the invariant: nothing taken, nothing handed out, no byte value marked |
| `Compressor.EState.AddCharToBlock` | zip/ZipLib/extlibs/bzip2/bzlib.c:260-284 | One byte more in the block or the pending run; the block stays packed runs with the right checksum and marks, and grows by at most five bytes |
| `Compressor.EState.AddPairToBlock` | zip/ZipLib/extlibs/bzip2/bzlib.c:216-248 | The pending run is appended packed, with its checksum, and marks its byte and its count |
| `Compressor.EState.FlushRL` | zip/ZipLib/extlibs/bzip2/bzlib.c:252-256 | Ends the pending run without changing what has been taken |
| `Compressor.EState.CopyInputUntilStop` | zip/ZipLib/extlibs/bzip2/bzlib.c:289-329 | Takes input until the block is full or none is left; what has been taken is what the finished blocks, the block and the pending run stand for; the block never exceeds its room for the sort |
| `Compressor.EState.CopyOutputUntilStop` | zip/ZipLib/extlibs/bzip2/bzlib.c:334-356 | Hands out bytes in order until the block is out or the room is used up |
| `Compressor.EState.PrepareNewBlock` | zip/ZipLib/extlibs/bzip2/bzlib.c:117-127 | An empty block with a fresh checksum and no byte value marked |
| `Compressor.EState.CompressBlock` | zip/ZipLib/extlibs/bzip2/compress.c:602-668 | Seals the block: the bits written are the header if it is the first, the block unless it is empty, and the trailer if it is the last; bytes taken stay accounted for; block and output together fit into their area |
| `Compressor.OutputFits` | zip/ZipLib/extlibs/bzip2/compress.c:619 | What a block of any bytes is compressed to, with bits waiting, header and trailer, fits behind the block in the area of 4 * (100000 * blockSize100k + 34) bytes |
| `BlockSize.BlockBitsFew` | zip/ZipLib/extlibs/bzip2/compress.c:630-652 | A block takes at most 20 bits for each of its bytes and 170000 bits more, whatever its bytes and tables are |
| `BlockSize.FewSymbols` | zip/ZipLib/extlibs/bzip2/compress.c:120-231 | A block has at most one symbol more than it has bytes |
| `Compressor.EState.WritePieces` | zip/ZipLib/extlibs/bzip2/compress.c:615-668 | The bits that go out for one block, in order, after the bits that were waiting in the buffer |
| `Compressor.EState.WriteTrailer` | zip/ZipLib/extlibs/bzip2/compress.c:656-667 | The end mark, the combined checksum and fewer than eight filling zeros |
| `Compressor.EState.OutputStep` | zip/ZipLib/extlibs/bzip2/bzlib.c:369-380 | After output, a new block is begun exactly when all is out and the stream is not complete |
| `Compressor.EState.InputStep` | zip/ZipLib/extlibs/bzip2/bzlib.c:382-398 | After input, the block is compressed when it is full or the flush or finish has taken all input; only then may it be short |
| `Compressor.EState.Settled` | zip/ZipLib/extlibs/bzip2/bzlib.c:428-460 | With nothing pending, all bytes taken are in finished blocks and all bytes produced are out; with the trailer written, the output is a whole stream |
| `Compressor.PackPending` | zip/ZipLib/extlibs/bzip2/bzlib.c:216-248 | Packing the pending run keeps the block equal to its runs packed and the checksum to that of their bytes |
| `Compressor.NextRun` | zip/ZipLib/extlibs/bzip2/bzlib.c:260-284 | A run may begin after a packed one: only a run of 255 bytes is followed by the same byte |
| `Compressor.MarkRun` | zip/ZipLib/extlibs/bzip2/bzlib.c:216-248 | A packed run brings exactly its byte and its count into the set of marked byte values |
| `Compressor.SealLedger` | zip/ZipLib/extlibs/bzip2/compress.c:602-650 | Sealing moves the bytes of the runs from the block to the finished blocks and loses none |
| `Compressor.SealBits` | zip/ZipLib/extlibs/bzip2/compress.c:615-652 | The bits so far, then the header or none, then the block or none, are the bits of the finished blocks with this one |
| `Compressor.SealBytes` | zip/ZipLib/extlibs/bzip2/compress.c:656-667 | With the trailer and its filling the bytes are the whole stream; without it they are as far as the finished blocks |
| `RunLength.PackedExpands` | zip/ZipLib/extlibs/bzip2/bzlib.c:216-284 | Packed runs have a count after every four equal bytes and expand to the bytes of the runs |
| `RunLength.CutPlain` | zip/ZipLib/extlibs/bzip2/bzlib.c:260-284 | There is just one way to cut a string into runs that are as long as they can be up to 255, so a block is determined by what it stands for |
| `RunLength.PackPush` | zip/ZipLib/extlibs/bzip2/bzlib.c:216-248 | Packing one more run appends its packed form |
| `RunLength.StartShort` | zip/ZipLib/extlibs/bzip2/bzlib.c:640-656 | A run of one to three bytes, followed by another byte or the end, stands for itself |
| `RunLength.StartLong` | zip/ZipLib/extlibs/bzip2/bzlib.c:658-660 | Four equal bytes and a count stand for that many more; without a count the block is not well packed |
| `UnRunLength.FastOutput.UnRle` | zip/ZipLib/extlibs/bzip2/bzlib.c:536-682 | For any column and place, and any room: what is delivered extends what was delivered before; corruption is reported only for a block that lacks a count, and a finished block has delivered exactly its expansion |
| `UnRunLength.SmallOutput.UnRle` | zip/ZipLib/extlibs/bzip2/bzlib.c:706-804 | The memory-saving side keeps the same contract as the fast one |
| `UnRunLength.FastOutput.StartRun` | zip/ZipLib/extlibs/bzip2/bzlib.c:637-661 | Looks at up to five bytes to find the next run, keeping its state resumable |
| `UnRunLength.SmallOutput.StartRun` | zip/ZipLib/extlibs/bzip2/bzlib.c:782-800 | Looks at up to five bytes to find the next run, keeping its state resumable |
| `UnRunLength.Complete` | zip/ZipLib/extlibs/bzip2/bzlib.c:632-638 | Having looked one byte past the block means all is delivered; having looked two past means a count is missing |
| `FallbackSort.Sort` | zip/ZipLib/extlibs/bzip2/blocksort.c:212-329 | fmap lists every rotation of the block once, in non-decreasing order; the block bytes that were overwritten are restored; terminates for every block |
| `FallbackSort.Round` | zip/ZipLib/extlibs/bzip2/blocksort.c:259-313 | One doubling: from buckets ordered by h symbols to buckets ordered by 2h, with headers exactly where the first 2h symbols change |
| `FallbackSort.BucketSorted` | zip/ZipLib/extlibs/bzip2/blocksort.c:295-305 | Sorting a bucket by key and marking key changes orders it by the first 2h symbols |
| `FallbackSort.KeysRank` | zip/ZipLib/extlibs/bzip2/blocksort.c:266-271 | The keys rank rotations by the h symbols after their first h |
| `FallbackSort.SortComplete` | zip/ZipLib/extlibs/bzip2/blocksort.c:311-312 | When all rotations are told apart or as many symbols as the block has are compared, the order is complete |
| `FallbackSort.FirstRefined` | zip/ZipLib/extlibs/bzip2/blocksort.c:229-257 | The bucket sort and its first headers are the state to refine at one symbol |
| `FallbackSort.TallySymbols` | zip/ZipLib/extlibs/bzip2/blocksort.c:231-234 | The tallies become the end of each symbol class |
| `FallbackSort.PlacePositions` | zip/ZipLib/extlibs/bzip2/blocksort.c:236-241 | Every position is placed in the class of its symbol |
| `FallbackSort.BuildKeys` | zip/ZipLib/extlibs/bzip2/blocksort.c:266-271 | Each rotation gets the start of the bucket that holds the rotation h symbols further on |
| `FallbackSort.SetHeaders` | zip/ZipLib/extlibs/bzip2/blocksort.c:299-304 | Headers appear exactly where the key changes within the bucket |
| `FallbackSort.RestoreBlock` | zip/ZipLib/extlibs/bzip2/blocksort.c:322-328 | The block is rewritten from the sorted rotations and the tallies exactly as it was |
| `BitTable.SkipSet` | zip/ZipLib/extlibs/bzip2/blocksort.c:278-283 | The first clear flag at or after a place, although whole words are skipped |
| `BitTable.SkipClear` | zip/ZipLib/extlibs/bzip2/blocksort.c:286-290 | The first set flag at or after a place, although whole words are skipped |
| `KeySort.QSort3` | zip/ZipLib/extlibs/bzip2/blocksort.c:93-180 | Sorts the stretch by key, rearranging only it, with at most 100 pending stretches on the stack; terminates whatever the pivots |
| `KeySort.HalvingDepth` | zip/ZipLib/extlibs/bzip2/blocksort.c:172-178 | Pushing the larger part first at least halves the sizes on the stack, which bounds its depth |
| `KeySort.PendingReplace` | zip/ZipLib/extlibs/bzip2/blocksort.c:109-179 | Replacing the top stretch by its unsorted parts keeps every position outside the stack a cut of the whole |
| `KeySort.SimpleSort` | zip/ZipLib/extlibs/bzip2/blocksort.c:32-60 | Sorts a short stretch by key with gaps of four and one |
| `KeySort.InsertWithGap` | zip/ZipLib/extlibs/bzip2/blocksort.c:44-59 | One insertion keeps the entries and the order of entries a gap apart |
| `KeySort.Partition` | zip/ZipLib/extlibs/bzip2/blocksort.c:126-160 | Splits the stretch into equal, smaller, greater, equal |
| `KeySort.Gather` | zip/ZipLib/extlibs/bzip2/blocksort.c:166-170 | Brings the keys equal to the pivot to the middle |
| `Rotations.CmpSplit` | zip/ZipLib/extlibs/bzip2/blocksort.c:259-313 | Comparing h + g symbols is comparing h symbols and then g more where those agree |
| `Rotations.SortedListingsAgree` | zip/ZipLib/extlibs/bzip2/blocksort.c:1044-1081 | Two sorted listings of the rotations hold rotations that compare equal, place by place |
| `Bwt.FindOrigin` | zip/ZipLib/extlibs/bzip2/blocksort.c:1083-1088 | The place of the unrotated block; it is always found |
| `Bwt.DecodedIsBlock` | zip/ZipLib/extlibs/bzip2/decompress.c:501-574 | For every block, periodic or not: walking the last column from the place of the block gives the block |
| `Bwt.WalkStep` | zip/ZipLib/extlibs/bzip2/bzlib_private.h:444-449 | One step of the walk reaches a rotation that compares equal to the one a symbol later |
| `Bwt.UpOrders` | zip/ZipLib/extlibs/bzip2/decompress.c:556-560 | The counting sort is stable |
| `Counting.SlotsPermute` | zip/ZipLib/extlibs/bzip2/decompress.c:501-504 | The places a counting sort assigns are a permutation |
| `BwtDecoders.BuildCftab` | zip/ZipLib/extlibs/bzip2/decompress.c:495-519 | The class starts are the counts of smaller bytes, and the range checks never fail on counted bytes |
| `BwtDecoders.BuildFast` | zip/ZipLib/extlibs/bzip2/decompress.c:556-560 | Every word keeps its byte and receives, in its upper 24 bits, the place its sorted symbol came from |
| `BwtDecoders.Unpack` | zip/ZipLib/extlibs/bzip2/decompress.c:556-560 | Byte and place share a word without touching each other for blocks of up to 900000 bytes |
| `BwtDecoders.FastWalk.Get` | zip/ZipLib/extlibs/bzip2/bzlib_private.h:444-456 | The t-th call delivers the t-th decoded byte, for every column and every start |
| `BwtDecoders.BuildT` | zip/ZipLib/extlibs/bzip2/decompress.c:530-535 | Each entry becomes the place its byte takes in the sorted column, in 16 plus 4 bits |
| `BwtDecoders.SetLL` | zip/ZipLib/extlibs/bzip2/bzlib_private.h:458-470 | Setting one 20-bit entry changes no other |
| `BwtDecoders.ReverseCycle` | zip/ZipLib/extlibs/bzip2/decompress.c:537-546 | Reversing pointers along the cycle of the start ends, and every place on that cycle then points to its successor |
| `BwtDecoders.IndexIntoF` | zip/ZipLib/extlibs/bzip2/bzlib.c:687-698 | The bisection finds the symbol whose class holds the place |
| `BwtDecoders.SmallWalk.Get` | zip/ZipLib/extlibs/bzip2/bzlib_private.h:475-479 | Delivers the same t-th byte as the fast walk, for every column and start |
| `HuffmanLengths.MakeCodeLengths` | zip/ZipLib/extlibs/bzip2/huffman.c:63-148 | Terminates; lengths are 1..maxLen with a Kraft sum of exactly one, and are optimal for the frequencies halved so many times; each of the halvings was needed, because the tree before it put a symbol deeper than maxLen |
| `HuffmanLengths.BuildTree` | zip/ZipLib/extlibs/bzip2/huffman.c:84-112 | Merging ends with one tree of 2 * alphaSize - 1 nodes whose total weight is that of the leaves |
| `HuffmanLengths.MergeStep` | zip/ZipLib/extlibs/bzip2/huffman.c:101-112 | The two lightest live nodes are merged, and the heap again holds exactly the live nodes |
| `HuffmanLengths.Rescale` | zip/ZipLib/extlibs/bzip2/huffman.c:142-146 | Every weight becomes half of it, rounded down, plus one; this lowers the total weight unless it is already at most twice the number of symbols |
| `HuffmanLengths.TooDeepIsHeavy` | zip/ZipLib/extlibs/bzip2/huffman.c:118-124 | A path longer than 17 takes a total weight for which rescaling makes progress |
| `HuffmanLengths.MeasureLengths` | zip/ZipLib/extlibs/bzip2/huffman.c:117-124 | The lengths are the distances to the root, and tooLong says whether one exceeds maxLen |
| `HuffmanForest.DeepIsHeavy` | zip/ZipLib/extlibs/bzip2/huffman.c:25-31 | A tree with a path of length h weighs at least the Fibonacci number G(h) |
| `HuffmanForest.DepthFits` | zip/ZipLib/extlibs/bzip2/huffman.c:29-31 | The depth kept in the low eight bits of a weight never overflows |
| `HuffmanForest.KraftComplete` | zip/ZipLib/extlibs/bzip2/huffman.c:117-124 | The path lengths of a complete tree have a Kraft sum of exactly one |
| `HuffmanForest.MergeForest` | zip/ZipLib/extlibs/bzip2/huffman.c:101-112 | One merge keeps the forest, its weights, its depths, its total and its greedy history |
| `HuffmanOptimal.NoneCheaper` | zip/ZipLib/extlibs/bzip2/huffman.c:101-112 | No depths that satisfy the Kraft inequality cost less than those in the tree, at any stage of the merging |
| `HuffmanOptimal.GreedyOptimal` | zip/ZipLib/extlibs/bzip2/huffman.c:63-148 | The path lengths of a greedily merged tree are optimal among all code lengths |
| `HuffmanOptimal.OverlongIsHeavy` | zip/ZipLib/extlibs/bzip2/huffman.c:118-128 | Rescaling takes frequencies whose total is at least the Fibonacci number G(maxLen + 1) |
| `HuffmanOptimal.Raise` | zip/ZipLib/extlibs/bzip2/huffman.c:101-112 | If a single node is deepest, the Kraft sum leaves room to raise it |
| `PrefixCodes.KraftInequality` | zip/ZipLib/extlibs/bzip2/huffman.c:63-148 | The code words of any prefix code satisfy the Kraft inequality |
| `PrefixCodes.NoPrefixCodeBetter` | zip/ZipLib/extlibs/bzip2/huffman.c:63-148 | Optimal code lengths take no more bits than any prefix code at all |
| `WeightHeap.PopNode` | zip/ZipLib/extlibs/bzip2/huffman.c:44-57 | Removes a lightest node and keeps the heap |
| `WeightHeap.PushNode` | zip/ZipLib/extlibs/bzip2/huffman.c:33-41 | Adds a node and keeps the heap |
| `WeightHeap.RootLightest` | zip/ZipLib/extlibs/bzip2/huffman.c:33-57 | The root of the heap is lightest |
| `HuffmanCodes.AssignCodes` | zip/ZipLib/extlibs/bzip2/huffman.c:152-166 | Each symbol gets its canonical code |
| `HuffmanCodes.CodeIsShare` | zip/ZipLib/extlibs/bzip2/huffman.c:152-166 | A code, as a fraction of the code space, is the Kraft sum of the symbols ahead of its own, shorter ones first and equally long ones in order |
| `HuffmanCodes.CreateDecodeTables` | zip/ZipLib/extlibs/bzip2/huffman.c:170-203 | The tables hold the last code of each length, the offset to slots, and in each slot its symbol |
| `HuffmanCodes.PrefixFree` | zip/ZipLib/extlibs/bzip2/huffman.c:152-166 | With a Kraft sum of at most one, no code is the beginning of another |
| `HuffmanCodes.CodeFits` | zip/ZipLib/extlibs/bzip2/huffman.c:152-166 | With a Kraft sum of at most one, a code fits its length |
| `HuffmanCodes.DecodeSymbol` | zip/ZipLib/extlibs/bzip2/decompress.c:74-102 | A symbol code followed by any bits decodes to that symbol and takes exactly its length |
| `HuffmanCodes.DecodeByCode` | zip/ZipLib/extlibs/bzip2/decompress.c:74-102 | Decoding by the lengths alone, without tables: a code followed by any bits gives its symbol and takes exactly its length |
| `HuffmanCodes.TablesDecode` | zip/ZipLib/extlibs/bzip2/decompress.c:74-102 | For any lengths, sound or not, and any bits, the tables decode what the lengths alone say: a symbol of the alphabet, unless more input is needed or no 20 bits make a code |
| `BitStream.BitWriter.BsW` | zip/ZipLib/extlibs/bzip2/compress.c:58-78 | Appends exactly the n bits of v, with at most 31 bits in the 32-bit buffer |
| `BitStream.BitWriter.BsFinishWrite` | zip/ZipLib/extlibs/bzip2/compress.c:46-54 | Moves out all bits, the last byte filled up with fewer than eight zeros |
| `BitStream.AppendAligned` | zip/ZipLib/extlibs/bzip2/compress.c:76-77 | The shifted value has no bit in common with the bits above it, so the union is a sum |
| `BitStream.BitReader.GetBits` | zip/ZipLib/extlibs/bzip2/decompress.c:43-65 | Returns the next n bits exactly when there are that many, and otherwise keeps all of them for later |
| `BitStream.ChunkedInput.Get` | zip/ZipLib/extlibs/bzip2/decompress.c:43-65 | Reading across chunk boundaries is reading the concatenation; input is wanted exactly when there are fewer bits |
| `BitStream.ReadBack` | zip/ZipLib/extlibs/bzip2/decompress.c:43-65 | Reading the widths that were written gives back the values, whatever follows |
| `MtfCoding.GenerateMtf` | zip/ZipLib/extlibs/bzip2/compress.c:120-231 | The symbols written are those of the last column in terms of bytes in use, although they overwrite the sort order they are made from |
| `MtfCoding.WriteRun` | zip/ZipLib/extlibs/bzip2/compress.c:174-188 | Appends the digits of a run in bijective base two |
| `MtfCoding.MoveByteToFront` | zip/ZipLib/extlibs/bzip2/compress.c:189-209 | Tells the place of a byte in the list and moves it to the front |
| `MtfCoding.RoundTrip` | zip/ZipLib/extlibs/bzip2/decompress.c:373-487 | For every column: decoding its symbols, with any longer list that begins with the same entries, gives the column |
| `MtfCoding.RecentFirst` | zip/ZipLib/extlibs/bzip2/compress.c:189-209 | For every column so far and any two entries: in the list that is ahead which was used last; entries not used yet stay behind in their first order |
| `MtfCoding.SymbolsFrom` | zip/ZipLib/extlibs/bzip2/compress.c:155-231 | From any place on, the symbols of a column are those told by the list as the entries before have left it |
| `MtfCoding.RunReadBack` | zip/ZipLib/extlibs/bzip2/decompress.c:380-421 | The digits of a run are read back as its length, and no run of a block reaches the bound on the weight |
| `MtfCoding.DecodeColumn` | zip/ZipLib/extlibs/bzip2/decompress.c:352-487 | For any symbols: delivers what the specification decodes; tells symbols that are wrong from symbols whose end is missing; the counts are those of the column |
| `MtfCoding.MakeMapsE` | zip/ZipLib/extlibs/bzip2/compress.c:106-115 | Bytes in use are numbered in order |
| `MtfCoding.MakeMapsD` | zip/ZipLib/extlibs/bzip2/decompress.c:27-36 | Lists the bytes in use in order, the inverse of their numbering |
| `SegmentedMtf.MtfList.constructor` | zip/ZipLib/extlibs/bzip2/decompress.c:359-370 | The list of all byte indices in order |
| `SegmentedMtf.MtfList.Decode` | zip/ZipLib/extlibs/bzip2/decompress.c:424-475 | Returns entry nn of the list and leaves the list with that entry in front, for every nn, through both paths and the rebuild |
| `SegmentedMtf.MtfList.MoveWithinFirst` | zip/ZipLib/extlibs/bzip2/decompress.c:434-452 | The path for the first segment |
| `SegmentedMtf.MtfList.MoveAcross` | zip/ZipLib/extlibs/bzip2/decompress.c:453-467 | The path across segments, each giving its last entry to the next |
| `SegmentedMtf.MtfList.Rebuild` | zip/ZipLib/extlibs/bzip2/decompress.c:464-475 | Copying all segments to the end of the array in place keeps the list |
| `SymbolStream.SendSymbols` | zip/ZipLib/extlibs/bzip2/compress.c:544-594 | Writes the code of every symbol with the table selected for its group of fifty |
| `SymbolStream.SymbolReader.Next` | zip/ZipLib/extlibs/bzip2/decompress.c:74-102 | Resumable anywhere: more input changes nothing but what is still undecided; the result is what the bits decide |
| `SymbolStream.ReadSymbol` | zip/ZipLib/extlibs/bzip2/decompress.c:74-102 | One symbol across chunk boundaries |
| `SymbolStream.ReadSymbols` | zip/ZipLib/extlibs/bzip2/decompress.c:373-487 | For any input in any chunks: the symbols up to end-of-block, or up to where they stop and why, are those that the bits hold by the code lengths |
| `SymbolStream.SymbolsBack` | zip/ZipLib/extlibs/bzip2/decompress.c:373-487 | The bits of symbols that were sent hold exactly these symbols, up to end-of-block and no further |
| `SymbolStream.DecidedByLengths` | zip/ZipLib/extlibs/bzip2/decompress.c:74-102 | A table decodes any bits as its lengths say |
| `SymbolStream.NextSymbol` | zip/ZipLib/extlibs/bzip2/decompress.c:74-102 | With a sent symbol ahead the reader gets that symbol as soon as its code is complete, and no other |
| `BlockTables.SendMapping` | zip/ZipLib/extlibs/bzip2/compress.c:494-511 | Writes the bitmap of rows and the rows in use |
| `BlockTables.ReceiveMapping` | zip/ZipLib/extlibs/bzip2/decompress.c:266-281 | For any input: the set of bytes in use that the bits say; rows that are not flagged have none |
| `BlockTables.MappingBack` | zip/ZipLib/extlibs/bzip2/compress.c:494-511 | The mapping that was sent is read back, whatever follows |
| `BlockTables.RankSelectors` | zip/ZipLib/extlibs/bzip2/compress.c:461-478 | Each selector becomes its place in the list of groups, in an array |
| `BlockTables.UnrankSelectors` | zip/ZipLib/extlibs/bzip2/decompress.c:302-315 | Each rank becomes a group again, in an array |
| `BlockTables.UnrankedRanks` | zip/ZipLib/extlibs/bzip2/decompress.c:302-315 | Undoing the ranks gives the selectors back |
| `BlockTables.SendRanks` | zip/ZipLib/extlibs/bzip2/compress.c:521-524 | Writes the ranks in unary |
| `BlockTables.ReceiveRanks` | zip/ZipLib/extlibs/bzip2/decompress.c:291-300 | For any input: the announced ranks in an array of 18002 places, each below the number of groups, or why there are none; the rank that has no place stops the reading |
| `BlockTables.RanksOverrunExactly` | zip/ZipLib/extlibs/bzip2/decompress.c:291-300 | There is a rank without a place exactly when more than 18002 announced ranks can be read in turn, that is, none of the first 18003 is too large or cut off; never when at most 18002 are announced |
| `BlockTables.RanksBack` | zip/ZipLib/extlibs/bzip2/compress.c:521-524 | Up to 18002 ranks that were sent are read back, whatever follows |
| `BlockTables.SendTable` | zip/ZipLib/extlibs/bzip2/compress.c:531-539 | Writes a table of code lengths as differences |
| `BlockTables.ReceiveTable` | zip/ZipLib/extlibs/bzip2/decompress.c:317-330 | For any input: the lengths that the bits say, each in 1..20, or why there are none |
| `BlockTables.TableBack` | zip/ZipLib/extlibs/bzip2/compress.c:531-539 | A table that was sent is read back, whatever follows |
| `BlockCodec.CompressBlock` | zip/ZipLib/extlibs/bzip2/compress.c:602-652 | Writes bits that describe the block: its sorted rotations, its column coded over the bytes in use, its tables; the block is left as it was |
| `BlockCodec.SortBlock` | zip/ZipLib/extlibs/bzip2/blocksort.c:1044-1088 | The sorted rotations and the place of the unrotated one |
| `BlockCodec.CodeColumn` | zip/ZipLib/extlibs/bzip2/compress.c:120-231 | The symbols of the last column, and tables and selectors that can code them |
| `BlockCodec.ChooseTables` | zip/ZipLib/extlibs/bzip2/compress.c:270-277 | The number of tables that the number of symbols calls for, and a table for every group; the selectors fit the 18002 places of their array |
| `BlockCodec.InfoParts` | zip/ZipLib/extlibs/bzip2/compress.c:455-458 | The assertions on the compressor side hold of every block it sends: two to six tables, one to 18002 selectors, every length in range |
| `BlockCodec.AnyTable` | zip/ZipLib/extlibs/bzip2/compress.c:444-451 | Lengths made from any frequencies fit the code space of both sides |
| `BlockCodec.ReceiveHead` | zip/ZipLib/extlibs/bzip2/decompress.c:233-264 | For any input: checksum and place, or why there are none; a place past the largest block is bad data |
| `BlockCodec.HeadBack` | zip/ZipLib/extlibs/bzip2/compress.c:632-650 | The head that was sent is read back, whatever follows |
| `BlockCodec.ReadColumn` | zip/ZipLib/extlibs/bzip2/decompress.c:230-493 | For any input: the head and the column that the bits say, its bytes counted, with the place inside the column; or the reason there is none, where wrong symbols are told even before they have all come |
| `BlockCodec.ColumnBack` | zip/ZipLib/extlibs/bzip2/decompress.c:230-493 | Of a block that was sent, whatever follows, exactly its head and column |
| `BlockCodec.ReceiveSelectors` | zip/ZipLib/extlibs/bzip2/decompress.c:286-315 | For any input: two to six groups and selectors that name them, in arrays of 18002 places, or why there are none |
| `BlockCodec.SelectorsOverrunExactly` | zip/ZipLib/extlibs/bzip2/decompress.c:286-315 | Reading selectors leads past the ends of the arrays exactly when two to six groups are announced and more than 18002 announced ranks can be read; then more than 18002 are announced |
| `BlockCodec.OverrunExists` | zip/ZipLib/extlibs/bzip2/decompress.c:286-300 | Two groups, 18003 selectors and 18003 zero bits do, whatever follows |
| `BlockCodec.ColumnOverrunsExactly` | zip/ZipLib/extlibs/bzip2/decompress.c:230-315 | Reading a block does exactly when its head and mapping are sound and its selectors do |
| `BlockCodec.ColumnOverruns` | zip/ZipLib/extlibs/bzip2/decompress.c:230-315 | After every sound head and mapping there are selectors that do |
| `BlockCodec.SelectorsBack` | zip/ZipLib/extlibs/bzip2/compress.c:517-525 | Selectors that were sent are read back, whatever follows |
| `BlockCodec.BlockIsBack` | zip/ZipLib/extlibs/bzip2/decompress.c:501-574 | The column and place that the bits describe lead back to the block |
| `BlockCodec.SymbolsDecode` | zip/ZipLib/extlibs/bzip2/decompress.c:373-487 | The symbols of a block decode to the indices of its column |
| `MtSync.RunsKeep` | zip/ZipLib/extlibs/lzma/LzFindMt.c:21-96 | The invariant holds in every state of every interleaved run, for every ring size and any number of starts and stops |
| `MtSync.ReaderKeeps` | zip/ZipLib/extlibs/lzma/LzFindMt.c:21-96 | Every step of the reading thread keeps it: free plus filled plus held blocks are all blocks, and phases, flags, events and counters agree |
| `MtSync.WriterKeeps` | zip/ZipLib/extlibs/lzma/LzFindMt.c:148-216 | Every step of the writing thread keeps it |
| `MtSync.StepKeeps` | zip/ZipLib/extlibs/lzma/LzFindMt.c:21-96 | Every interleaved step keeps the invariant |
| `MtSync.SlotsApart` | zip/ZipLib/extlibs/lzma/LzFindMt.c:148-216 | The slot the writer fills is never the one the reader reads, although the block counters wrap at 32 bits |
| `MtSync.ReadsInOrder` | zip/ZipLib/extlibs/lzma/LzFindMt.c:218-224 | In every run, the k-th block that the reader reads in a cycle, in the slot it works out from its wrapping counter, is the k-th block that the writer put into the ring in that cycle |
| `MtSync.RingKeeps` | zip/ZipLib/extlibs/lzma/LzFindMt.c:181-210 | A step leaves every block that has been made and not given back in its slot |
| `MtSync.SlotOfCounter` | zip/ZipLib/extlibs/lzma/LzFindMt.c:218-232 | Wrapping a counter does not change its slot, since the ring size divides the word |
| `MtSync.NoDeadlock` | zip/ZipLib/extlibs/lzma/LzFindMt.c:21-96 | While a hand-off, a stop or the closing down is pending, some thread can step |
| `MtSync.StoppedClean` | zip/ZipLib/extlibs/lzma/LzFindMt.c:49-70 | When stopping returns, all blocks are free, none is filled, and the writer waits for the next start |
| `MtSync.ClosedEnds` | zip/ZipLib/extlibs/lzma/LzFindMt.c:72-96 | Once closed down, the writing thread has ended |
| `MtSync.ReleasesFit` | zip/ZipLib/extlibs/lzma/LzFindMt.c:100-118 | No semaphore is released past its limit |
| `MtSync.MovesAlone` | zip/ZipLib/extlibs/lzma/LzFindMt.c:163-179 | The window moves only while the reader is not inside its critical section |
| `MtSync.EndsInTime` | zip/ZipLib/extlibs/lzma/LzFindMt.c:49-96 | In every interleaving a stop or closing down is over after at most as many steps as the work left says |
| `MtSync.HandsOverInTime` | zip/ZipLib/extlibs/lzma/LzFindMt.c:21-47 | In every interleaving a hand-off is over after at most as many steps as the work left says, and four more for every time the window is moved |
| `MtSync.WorkBounds` | zip/ZipLib/extlibs/lzma/LzFindMt.c:21-96 | The work left is linear in the size of the ring |
| `Crc32.GenerateTable` | zip/ZipLib/extlibs/lzma/7zCrc.c:39-54 | The first table holds eight polynomial steps of every byte (section 8 of RFC 1952), each later one eight more |
| `Crc32.CrcUpdateT4` | zip/ZipLib/extlibs/lzma/7zCrcOpt.c:10-27 | For every buffer, address and start value the result is the byte-at-a-time fold |
| `Crc32.UpdateFour` | zip/ZipLib/extlibs/lzma/7zCrcOpt.c:15-23 | Four look-ups are four byte updates |
| `Crc32.FourAtOnce` | zip/ZipLib/extlibs/lzma/7zCrcOpt.c:15-23 | Four bytes one after the other are one addition and thirty-two polynomial steps |
| `Crc32.FourSlices` | zip/ZipLib/extlibs/lzma/7zCrcOpt.c:15-23 | Thirty-two steps of a word are the sum of the steps of its four bytes |
| `Crc32.StepsXor` | zip/ZipLib/extlibs/lzma/7zCrc.c:39-54 | Polynomial steps are linear |
| `Crc32.LaterAt` | zip/ZipLib/extlibs/lzma/7zCrc.c:50-54 | An entry of table k is its byte after 8 * (k + 1) steps |
| `Crc32.OneByteTold` | zip/ZipLib/extlibs/lzma/7zCrc.c:39-54 | Two strings of one length that differ in exactly one byte have different checksums |
| `Crc32.CheckValue` | zip/ZipLib/extlibs/lzma/7zCrc.c:9-54 | The checksum of the nine digits, begun from all ones and turned over, is cbf43926 |
| `Hc4.MatchFinder.GetMatches` | zip/ZipLib/extlibs/lzma/LzFind.c:586-633 | Every match reported is true, nearer than the ring is large, within the length limit and longer than the one before. None is missed: every earlier place in reach that agrees in four bytes or more, and is among the first cutValue with its hash, is matched in length by the last match; so is the last place with the hash of the first two bytes, and that of three. Data in memory is in reach from the beginning, so only its end shortens the limit; the position moves on by one and the index stays exact |
| `Hc4.MatchFinder.Skip` | zip/ZipLib/extlibs/lzma/LzFind.c:704-719 | Positions are entered without reporting; the index stays exact |
| `Hc4.MatchFinder.Normalize` | zip/ZipLib/extlibs/lzma/LzFind.c:290-309 | Subtracting from all positions keeps the index exact: what is in reach keeps its name, and what is not stays out |
| `Hc4.MatchFinder.CheckLimits` | zip/ZipLib/extlibs/lzma/LzFind.c:311-320 | At the limit: normalise, read, begin the ring anew, and set limits that keep everything in reach |
| `Hc4.MatchFinder.constructor` | zip/ZipLib/extlibs/lzma/LzFind.c:271-283 | An empty index is exact, whatever the ring holds |
| `Hc4.MatchFinder.ShortMatches` | zip/ZipLib/extlibs/lzma/LzFind.c:586-624 | The two- and three-byte short cuts report true matches, and the last of them goes as far as the last places with the same two and three bytes |
| `Hc4.MatchFinder.ChainMatches` | zip/ZipLib/extlibs/lzma/LzFind.c:322-351 | Following the chain reports true, growing matches, looks at all of the first cutValue places in reach, and puts the position in front of its chain |
| `Hc4.TableMoves` | zip/ZipLib/extlibs/lzma/LzFind.c:597-599 | Entering a place keeps every slot naming the last place with its hash, if that is in reach, and nothing otherwise |
| `Hc4.ChainMoves` | zip/ZipLib/extlibs/lzma/LzFind.c:322-326 | So does the ring: for every place in reach it names the last place before it with the same hash |
| `Hc4.ChainGoesOn` | zip/ZipLib/extlibs/lzma/LzFind.c:327-334 | One step along the chain passes no place that agrees in four bytes |
| `Hc4.MatchFinder.ChainEnds` | zip/ZipLib/extlibs/lzma/LzFind.c:327-331 | When the chain is left, all of the first cutValue places in reach have been looked at |
| `Hc4.TwoIsThree` | zip/ZipLib/extlibs/lzma/LzFind.c:603-615 | If the last place with the same two bytes agrees in a third, a match at another place by the hash of three bytes is ruled out |
| `Hc4.Hash2Same` | zip/ZipLib/extlibs/lzma/LzHash.h:22-26 | With the same first byte, equal two-byte hashes mean equal second bytes |
| `Hc4.Hash3Same` | zip/ZipLib/extlibs/lzma/LzHash.h:22-26 | With the same first byte, equal three-byte hashes mean equal second and third bytes |
| `UploadTask.Task.RunProcess` | src/cpdn_main.cpp:823-988 | For every run of a process, killed anywhere or not, and whatever was handed over before: it hands over nothing that is not owed, but for a second finalization, which hands over one upload more at most; when a finalization of it has succeeded, all that is owed has been handed over. If the start is accepted, no operation outside fails and the model ends, it does finalize, once |
| `UploadTask.Lifetime` | src/cpdn_main.cpp:690-988 | For every sequence of processes, quits, crashes, restarts and losses of the progress file: if no process finalized twice, nothing that is not owed is ever handed over; if some finalization has succeeded, exactly what is owed has been |
| `UploadTask.Task.constructor` | src/control_start.cpp:32-34 | A fresh task satisfies the invariant, with nothing handed over |
| `UploadTask.Task.ProcessScheduledUpload` | src/upload_manager.cpp:200-244 | An upload is made only when due, is one that is owed, and leaves another owed |
| `UploadTask.Task.FinalizeRemainingUploads` | src/upload_manager.cpp:248-303 | On success exactly the uploads from the current number on, up to those owed and at least one, are added to those handed over; so nothing that is not owed gets handed over if and only if the number is below what is owed |
| `UploadTask.Task.FirstFinalization` | src/upload_manager.cpp:248-303 | The first finalization of a process hands over nothing that is not owed and, on success, all of it |
| `UploadTask.Task.SecondFinalization` | src/cpdn_main.cpp:979-987 | A second finalization in the same process can hand over the one upload after those owed, and has done so when it succeeds |
| `UploadTask.FinalizationOverruns` | src/upload_manager.cpp:270-300 | Of the uploads handed over: finalization adds one that is not owed if and only if the number has reached what is owed, and then it is the one of that number |
| `UploadTask.FinalizedTwice` | src/upload_manager.cpp:270-300 | A task that fails: of one step and one upload, finalized twice, upload 1 is handed over and not owed |
| `UploadTask.FinalizationFits` | src/upload_manager.cpp:260-300 | From a covered number it submits only what is owed |
| `UploadTask.InitializeFromRestart` | src/control_start.cpp:8-92 | A start is accepted exactly for a task without progress and without restart, for progress and a restart no more than an interval and two steps past it, and for progress short of the first interval without a restart; then the state is the persisted one or a fresh one |
| `UploadTask.DueCovered` | src/upload_manager.cpp:205-222 | An upload that is due is covered by the step it is made at, whether or not steps went back before |
| `UploadTask.CountBelow` | src/cpdn_control.cpp:734-741 | The number of uploads owed is the number of intervals begun |
| `UploadTask.Task.LoopRound` | src/cpdn_main.cpp:823-912 | One round keeps persisted and current state in order, whatever step is observed; if nothing fails, the upload that is due is made and the file holds the new progress |
| `WrfCalendar.DatetimeToAbsoluteSeconds` | models/wrf/wrf_datetime.cpp:45-64 | The loop over months computes the seconds since the beginning of the calendar |
| `WrfCalendar.AddDays` | models/wrf/wrf_datetime.cpp:113-131 | Ends for every start; from a valid one, with the valid date that many days later |
| `WrfCalendar.AddDurationToDatetime` | models/wrf/wrf_datetime.cpp:85-134 | Ends for every start; from a valid one, with the valid date exactly the duration later |
| `WrfCalendar.DatetimeDurationSeconds` | models/wrf/wrf_datetime.cpp:141-155 | The seconds between, or -1 exactly when a date is invalid or they are out of order |
| `WrfCalendar.SecondsOrdered` | models/wrf/wrf_datetime.cpp:45-64 | Calendar order of valid dates is the order of their seconds, and no two share one |
| `WrfCalendar.YearFollows` | models/wrf/wrf_datetime.cpp:39-42 | Days before a year grow by the length of the year, leap years included |
| `WrfCalendar.MonthsAddUp` | models/wrf/wrf_datetime.cpp:14-24 | From March on, the days before a month are those before March and (153 * (m - 3) + 2) / 5 more, without the table of lengths; January and February have 31 and 28 or 29 |
| `WrfCalendar.DaysByFormula` | models/wrf/wrf_datetime.cpp:45-64 | The day number of every valid date is given by a closed formula that uses neither the table of lengths nor the leap year test |
| `WrfTimestamps.StepRoundTrip` | models/wrf/wrf_control.cpp:800-821 | Step, duration, date, timestamp, parsed date, seconds, step: the identity for every start, timestep and step up to year 9999 |
| `WrfTimestamps.ParseFormatted` | models/wrf/wrf_control.cpp:83-96 | Parsing a written timestamp gives the date back |
| `WrfTimestamps.OutputTimestamp` | models/wrf/wrf_control.cpp:800-821 | From a valid start, the timestamp of a step is that of a valid date the right number of seconds later, when there is one; there is none for negative steps or texts that do not fit |
| `WrfTimestamps.FormatValid` | models/wrf/wrf_control.cpp:813-819 | Formatting a valid date gives its fields in fixed places; a text of another length, so a year of five digits, is refused |
| `WrfTimestamps.CurrentStep` | models/wrf/wrf_control.cpp:733-788 | A step is found exactly when the time since the start is a whole number of timesteps within the run |
| `WrfTimestamps.LexIsFieldwise` | models/wrf/wrf_control.cpp:50-75 | Comparing timestamps as strings is comparing their fields in order |
| `WrfTimestamps.LexIsChronological` | models/wrf/wrf_control.cpp:494-521 | For valid dates it is comparing their seconds |
| `WrfRestarts.ScanRestarts` | models/wrf/wrf_control.cpp:1112-1180 | The sets record, for each time and domain, exactly whether a non-empty restart file is in the directory |
| `WrfRestarts.FindLatestValidRestartSet` | models/wrf/wrf_control.cpp:494-521 | A complete set no complete set of which is later, or none when there is none |
| `WrfRestarts.LatestRestart` | models/wrf/wrf_control.cpp:1112-1180 | Of any directory, the latest time with a restart file for every domain |
| `WrfRestarts.LatestIsChronological` | models/wrf/wrf_control.cpp:494-521 | No complete restart at a valid date is later in time |
| `WrfRestarts.CollectStamps` | models/wrf/wrf_control.cpp:1314-1345 | All restart times in order, and the time of each restart file |
| `WrfRestarts.PruneRestarts` | models/wrf/wrf_control.cpp:1290-1375 | Deletes exactly the restart files older than two different other times, as far as they can be deleted: the two latest times keep all their files |
| `WrfRestarts.OldIsChronological` | models/wrf/wrf_control.cpp:1347-1357 | Where all restart files are of valid dates, older as strings is earlier in time: the files to delete are those that two different times come after |

## Left out

- SortBlock: `mainSort`, its work budget and the threshold of 10000 bytes are not modelled; blocks of every size go through the fallback sort, which has the same specification, and any order that meets it will do for the round trip.
- Sort: the keys share memory with the block in the source; here they are two arrays and the sharing is modelled by overwriting the block before the keys are built, so what the bytes of a half-written key look like as block bytes is not modelled. The header words are rows of 32 flags rather than integers.
- ChooseTables: the rounds that refine the coding tables by cost are not modelled; the frequencies each table is made from and the table each group selects are arbitrary, so the results hold whatever the rounds would choose.
- GenerateMtf: the tallies of symbols it keeps for choosing tables are left out.
- SendSymbols: the unrolled loop for full groups does the same as the plain one and is not modelled separately.
- WriteBlock: the sort works on an array of exactly the block's length, so the block is copied out of the larger buffer first.
- ReadBlock: a randomised block, which this compressor never writes, is read in full, but undoing the randomisation is not modelled: it is a result of its own, and reading ends there, so nothing is said about what follows such a block.
- ReceiveHead: the 24-bit place is read in one go.
- ReadColumn: the symbols are read before the column is decoded, up to end-of-block or to where they stop; what is returned is what decoding them one by one as they come would return. A failure of memory is not modelled.
- Decompress: of a block that is found bad or incomplete, the bytes already delivered are dropped; the source has handed them out by then.
- DeliverSmall: the column is copied into the 16-bit table; the source decodes into it directly, as it does into the 32-bit one.
- BzCompress: counters of bytes in and out, allocation failures and null pointers are not modelled.
- Bits combined by a bitwise or are combined by addition under a proof that they have no bit in common.
- The standard-input wrappers of bzip2, the archive classes around it, deflate and the other LZMA coders are not part of this model.
- RunsKeep: the lock of the other synchronisation object that the hash thread takes while moving the window, and the chain of three threads, are not modelled: one producer and one consumer are.
- EndsInTime: the bound supposes that the threads keep taking steps; what the scheduler owes them is not modelled.
- GetMatches: the window's buffer is the whole data, with more of it coming into reach at arbitrary times, instead of a buffer that is refilled and moved; hash tables for two, three and four bytes are three arrays instead of one.
- CrcUpdateT4: for little-endian machines; the variants for big-endian ones and for eight tables are not modelled.
- AddDurationToDatetime: from a start that is no valid date only its termination is stated; the start that the program uses has been checked before (`models/wrf/wrf_control.cpp:1086-1089`).
- Lifetime: tasks with uploads disabled or without steps are not modelled.
- RunProcess: archiving, polling, sleeping, the client's answers and whether a progress write succeeds are arbitrary outcomes; a progress write happens as a whole or not at all. Trickles, CPU time, the fraction done and the payload of the archives are not modelled. What each round of the main loop sees of the model, and so the number of rounds, is a parameter.
- CurrentStep: finding the last timing line in the log is left out; its timestamp is a parameter, which may be any text.
- PruneRestarts: the directory is a list of entries that nothing else changes; the result says what became of each.
- The rewriting of namelists, the separators used on Windows and conversions that overflow 32 bits are not part of this model.
