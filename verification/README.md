# Verified models of auxv6's codecs, matcher, hashes and focus handling

This project models five parts of the auxv6 C sources in Dafny and proves what they are for. Code that updates arrays
and fields is modelled as methods and classes over arrays and fields, and each is proved against a specification
written without reference to the code.

- **bzip2** (`libc/blocksort.c`, `compress.c`, `huffman.c`, `decompress.c`, `bzlib.c`, `bzlib_private.h`). Every stage
  of the encoder and of the decoder, with the optimality of its Huffman codes (`HuffmanLengths.MakeCodeLengths`), joined
  into `RoundTrip.Transfer`: input in any pieces, flushes anywhere, any positive amount of output room in each call, then
  decompression in FAST or SMALL mode through input and output buffers of any sizes, always ends and gives back the
  input. `RoundTrip.Session` says the same of every sequence of calls, sensible or not, that reaches the stream end. The
  decoder is specified on all inputs: `Decompressor.Decompress` equals a parser of the format (`Stream.ParseStream`), on
  valid, randomised, corrupt and truncated streams alike. The tables of every block written are optimal for the symbols
  coded with them, and the checksum is shown to be CRC-32, which no change within 32 neighbouring bits escapes
  (`CrcRegister.BurstSeen`).
- **gzip** (`libc/gzip.c`). `GzipFiles.Inflate` equals a specification (`GzipMembers.Gunzip`) on every input, with stored,
  fixed and dynamic blocks and with whatever the window held before, and `GzipFiles.Restore` shows that the writer is its
  inverse. `GzipEncoding.FileBack` says that whatever a compressor writes by RFC 1951 and RFC 1952 (any header fields,
  any mix of blocks, any prefix codes, any literals and matches) inflates to what it was made from. The two standards are
  also a separate specification (`GzipStandard.Standard`), and `GzipRfc.FileMeetsRfc` says exactly when the code does what
  they ask for.
- **Regular expression matching** (`libc/regex.c`). The matcher against the language of the syntax tree: the list it
  returns on every string, and the exact string length up to which it reports the leftmost longest match.
- **Streaming hashes** (`libc/checksum.c`). Buffering and padding of MD5, SHA-1, SHA-256 and SHA-512 around an arbitrary
  compression function.
- **Window focus** (`6wm/focus.c`, `stack.c`, `client.c`, `6wm.c`). The client list, focus, modality and keyboard grab as
  a state machine over arbitrary events and arbitrary answers of the X server. `WmFocus.Wm.Handle` says what each event
  does, and `WmFocus.Wm.Run` which windows are managed after any run of events.

## Layout

| files | part |
|---|---|
| `Words`, `Counting`, `Endian` | arithmetic, sequences, counting sort, byte orders |
| `FallbackQSort`, `Rotations`, `BlockSort` | sorting the rotations of a block |
| `InverseBwt`, `SmallVector` | inverting the transform, FAST and SMALL |
| `MoveToFront`, `MtfCoding`, `MtfEncoder` | move-to-front and run coding |
| `HuffmanHeap`, `HuffmanTree`, `HuffmanOptimal`, `HuffmanLengths` | length-limited Huffman codes |
| `BitStream`, `CanonicalCode`, `CodeTables` | bits, canonical codes, decoding tables |
| `BlockFormat`, `BlockData`, `SendValues`, `TableChoice`, `SendBlock` | the sections of a block, written |
| `ReceiveHeader`, `ReceiveData`, `ReceiveBlock` | the sections of a block, read |
| `RunLength`, `Crc`, `CrcRegister`, `BlockBuilder`, `BlockOutput` | the first run-length stage, checksums |
| `Randomise`, `Stream`, `CompressBlock`, `Compressor`, `Decompressor`, `RoundTrip` | streams, calls, and the round trip |
| `GzipBits`, `GzipTree`, `GzipInflate`, `GzipTables`, `GzipMembers`, `GzipFiles` | gzip |
| `GzipHistory`, `GzipStandard`, `GzipRfc`, `GzipOddCodes` | RFC 1951 and RFC 1952, and when gzip keeps to them |
| `GzipHeader`, `GzipEncoding` | what a compressor may write by the two standards, and that it is read back |
| `Regex`, `RegexCase` | matching, characters |
| `StreamingHash` | hashes |
| `WmClients`, `WmEvents`, `WmStack`, `WmChoice`, `WmFocus` | the window manager |

Reading results are datatypes: `Got`, `Short` and `Bad` for bzip2 (a value, input that ends early, a data error), `Ok`
and `Failed`, or `Done` and `Error`, for gzip. Ghost parameters carry the specification values through the
methods.

## Where a promise does not hold

- regexec does not report the leftmost longest match of every pattern on strings of 256 bytes or more, because its
  result arrays hold 256 entries. `Regex.ExactlyShort` is the exact condition, for all strings: every pattern is matched
  correctly if and only if the string has fewer than 256 bytes. `Regex.LongIsWrong` gives the pattern that fails on every
  longer string. What is reported is a match in any case (`Regex.Reported`).
- gzip inflates files that RFC 1951 and RFC 1952 forbid. `GzipStandard.StandardIs` is exact, for all files and all window
  contents: what the standards make of a file is what the code makes of it if the file is `Lawful`, and an error if it is
  not. `Lawful` is a matter of the bits of the file alone, and is the list of what the code leaves unchecked: nothing
  before, between or after the members, no reserved flag, no code word that begins another, no repetition of code lengths
  past their end, and no distance that reaches back before the member. For each of these a file is given that breaks it
  and is accepted: `GzipRfc.PaddedFile`, `GzipRfc.FlaggedFile`, `GzipOddCodes.OverfullFile`, `GzipOddCodes.CutFile` and
  `GzipRfc.StaleFile`. Section 3.2.1 of RFC 1951 can be read to ask for codes without unused words as well, apart from a
  lone distance code. Everything is proved for both readings, and `GzipOddCodes.SparseFile` is where they differ.
- Setting the focus can leave it with a client that a modal blocks. `WmChoice.FreeExactly` is the exact condition on
  roles, frames, owners, scopes and applications, for all client lists: it leaves the focus free whichever client is asked
  for if and only if nobody stands over a modal that is chosen in place of another client. In every state between events
  only a modal can be focused and blocked; this is part of the invariant of `WmFocus`. `WmFocus.TwoModals` reaches such a
  state with two map requests.

- Destroying a window can leave it managed. `WmFocus.Wm.OnDestroy` has the exact condition: this happens if and only if
  the window is managed and the first client that its identifier names has it as a frame. X gives frames identifiers of
  their own, and then it never happens (`WmEvents.GoneUntilMapped`); `WmFocus.FrameClash` is a run in which it does.
- Matching without regard to case does not reach into character classes. `RegexCase.ClassKeepsCase` is the exact
  condition for a class, and `RegexCase.SearchRecased` says that classes are the only exception.

## Model

| member | source | states |
|---|---|---|
| `FallbackQSort.SimpleSort` | libc/blocksort.c:32-65 | The range ends in class order, is a rearrangement of what it held, and nothing outside it changes. |
| `FallbackQSort.Sweep` | libc/blocksort.c:132-160 | The four pointers end with the range split into equal, smaller, larger and equal entries, in this order, as a rearrangement. |
| `FallbackQSort.Partition` | libc/blocksort.c:126-170 | After the two block swaps the range is smaller, equal, larger around the pivot class; the early exit is taken only when all entries are equal. |
| `FallbackQSort.StackStaysShort` | libc/blocksort.c:106-178 | Because the smaller part is popped first, size times 2^depth stays within the range length: fewer than 34 entries for any 32-bit range, so the limit of 100 is never near. |
| `FallbackQSort.QSort3` | libc/blocksort.c:93-180 | Terminates, sorts the range by class as a permutation, and assertion 1004 never fires. |
| `Rotations.KeyIsLex` | libc/blocksort.c:191-202 | The order used for rotations is exactly lexicographic order of the cyclic rotations, and equal keys are equal rotations. |
| `BlockSort.NextBit` | libc/blocksort.c:278-291 | The bit-word-bit scan stops exactly at the next header bit of the other kind, before the sentinels end. |
| `BlockSort.FindBucket` | libc/blocksort.c:277-292 | The next bucket found is the next maximal one with more than one entry; every entry skipped is alone in its bucket. |
| `BlockSort.AssignClasses` | libc/blocksort.c:266-271 | Every rotation gets the head of the bucket of the rotation H bytes later as its class. |
| `BlockSort.SortBucket` | libc/blocksort.c:294-305 | A bucket ordered by H bytes ends ordered by 2H bytes, with a header bit exactly where the first 2H bytes differ. |
| `BlockSort.DoublePass` | libc/blocksort.c:266-306 | From sorted and bucketed by H bytes to sorted and bucketed by 2H; zero left to do means all rotations differ within H bytes. |
| `BlockSort.Doubling` | libc/blocksort.c:259-313 | From the radix sort to a permutation that sorts all rotations; the loop ends. |
| `BlockSort.Rebuild` | libc/blocksort.c:315-328 | The block, overwritten by the classes, is rebuilt byte for byte from the sorted order and the byte counts. |
| `BlockSort.FallbackSort` | libc/blocksort.c:212-329 | For every nonempty block: fmap is a permutation sorting all cyclic rotations, and the block is as it was. |
| `BlockSort.SortBlock` | libc/blocksort.c:1031-1090 | On the fallback path, origPtr is the row of the unrotated block, which always exists (assertion 1003). |
| `InverseBwt.NextRow` | libc/decompress.c:559-567 | One step of the inverse vector moves from a rotation to the one starting a byte later, also for periodic blocks with ties in any order. |
| `InverseBwt.InverseTransform` | libc/decompress.c:559-580 | For every block and every order that sorts its rotations, walking the vector from origPtr reads the block off the last column. |
| `InverseBwt.BuildFast` | libc/decompress.c:559-565 | The upper 24 bits of tt become the inverse of the stable sort of the column, its low bytes stay. |
| `InverseBwt.FetchFast` | libc/bzlib_private.h:444-456 | A fetch yields the column byte and the next position of the walk. |
| `SmallVector.NibbleRoundTrip` | libc/bzlib_private.h:458-465 | Setting one nibble keeps the neighbour that shares its byte. |
| `SmallVector.LL.Set` | libc/bzlib_private.h:467-473 | A 20-bit cell takes its value and every other cell keeps its own. |
| `SmallVector.BuildSmall` | libc/decompress.c:530-540 | The column in ll16 is replaced in place by the stable-sort vector of the column. |
| `SmallVector.ReverseCycle` | libc/decompress.c:542-553 | Pointer reversal terminates and leaves the inverse vector on the whole cycle of origPtr. |
| `SmallVector.IndexIntoF` | libc/bzlib.c:687-698 | The binary search finds the bucket that holds the position. |
| `SmallVector.FetchSmall` | libc/bzlib_private.h:475-479 | Fetch after fetch, the byte and the position are those of the FAST walk, for every column and every origPtr. |
| `Stream.RestoresSorted` | libc/decompress.c:525-580 | Decoding the last column of any sorted block with its origPtr restores the block. |
| `MoveToFront.RotateToFront` | libc/compress.c:193-205 | The loop finds the position of the entry and leaves the list with that entry moved to the front. |
| `MoveToFront.MtfTable.Decode` | libc/decompress.c:429-481 | The 16-bucket table refines a plain 256-entry move-to-front list on every symbol; buckets never overlap. |
| `MoveToFront.MtfTable.Recopy` | libc/decompress.c:469-478 | Sliding all buckets back to the top changes no entry of the list: nothing unread is overwritten. |
| `MtfCoding.SymbolsRoundTrip` | libc/compress.c:170-228 | The decoder reading of the run digits and positions gives back every column, with any pending run. |
| `MtfCoding.SymbolsFit` | libc/compress.c:136-165 | There are at most as many symbols as column entries, plus the end symbol, all within the alphabet. |
| `MtfEncoder.MakeMapsE` | libc/compress.c:104-115 | The bytes in use are numbered in order, without gaps. |
| `MtfEncoder.MakeMapsD` | libc/decompress.c:26-36 | The decoder lists the same bytes in the same order. |
| `MtfEncoder.GenerateMTFValues` | libc/compress.c:118-231 | With the 16-bit symbols written over the pointer cells being read, the symbols are those of the last column, and no unread cell is overwritten. |
| `HuffmanHeap.UpHeap` | libc/huffman.c:33-43 | Restores the heap order as a rearrangement. |
| `HuffmanHeap.DownHeap` | libc/huffman.c:45-60 | Restores the heap order as a rearrangement. |
| `HuffmanLengths.BuildTree` | libc/huffman.c:84-112 | The merge loop ends with one tree over all symbols; the packed depth field of every tree on the way is the depth of its deepest leaf. |
| `HuffmanOptimal.Levelled` | libc/huffman.c:93-112 | The exchange argument: for every prefix code there is one that costs no more and has the two rarest symbols at the same, greatest length. |
| `HuffmanOptimal.MergeBound` | libc/huffman.c:93-112 | Merging the two lightest weights lowers the least cost over all prefix codes by at most their sum. |
| `HuffmanOptimal.GreedyEnds` | libc/huffman.c:93-112 | The depths of the tree that is left cost no more than any lengths that satisfy the Kraft inequality. |
| `HuffmanLengths.DeepIsHeavy` | libc/huffman.c:114-147 | A code word of d bits needs a sum of weights of at least the d-th Fibonacci number, so lighter tables are never scaled. |
| `HuffmanTree.DepthFits` | libc/huffman.c:25-31 | By the Fibonacci bound no admissible tree is deeper than 32, so the 8-bit depth field cannot overflow into the weight. |
| `HuffmanLengths.SmallIsShort` | libc/huffman.c:114-147 | With all leaf weights 1 or 2, a tree over 258 symbols has depth at most 15, so the retry loop stops. |
| `HuffmanLengths.Halve` | libc/huffman.c:142-146 | Scaling turns every leaf weight w into 1 + w / 2, packed with depth zero. |
| `HuffmanLengths.Shrinks` | libc/huffman.c:140-146 | That lowers the sum of the leaf weights whenever some weight exceeds 2, so the retry loop ends. |
| `HuffmanLengths.MakeCodeLengths` | libc/huffman.c:63-148 | Terminates for every frequency table, with lengths from 1 to the limit that satisfy the Kraft equality. No prefix code at all costs less for the frequencies as far as they were scaled; they are scaled only if their sum allows a word longer than the limit. |
| `BitStream.BitWriter.Put` | libc/compress.c:58-78 | bsW appends exactly the n bits of v to the stream. |
| `BitStream.BitWriter.Finish` | libc/compress.c:45-54 | The bytes are the stream, filled up with zero bits. |
| `BitStream.BitReader.Get` | libc/decompress.c:43-65 | GET_BITS takes the next n bits, across as many input buffers as it takes, or leaves the input as it is when all of them together hold fewer. |
| `BitStream.BitReader.Supply` | libc/decompress.c:43-65 | A further buffer continues the stream. |
| `BitStream.BitReader.NextBuffer` | libc/decompress.c:54 | Running out of input in the middle of a read and coming back with the next buffer loses nothing. |
| `CanonicalCode.KraftIsPast` | libc/huffman.c:160-165 | Counting code words level by level ends exactly at the Kraft sum. |
| `CanonicalCode.PrefixFree` | libc/huffman.c:152-166 | For every length vector within the Kraft bound no assigned code word is a prefix of another. |
| `CanonicalCode.DecodeCode` | libc/decompress.c:74-102 | Decoding the code word of s followed by any bits yields s and leaves exactly those bits. |
| `CodeTables.AssignCodes` | libc/huffman.c:152-166 | Every symbol gets its canonical code word. |
| `CodeTables.CreateDecodeTables` | libc/huffman.c:170-200 | limit, base and perm describe the canonical code of any lengths, a prefix code or not. |
| `CodeTables.ReadSymbol` | libc/decompress.c:74-102 | Reading through limit, base and perm is the reference decoder on every stream; the range test on perm never fires. |
| `BlockFormat.MapRoundTrip` | libc/compress.c:494-515 | The two-level symbol map is parsed back, whatever follows. |
| `BlockFormat.UnariesRoundTrip` | libc/compress.c:517-524 | The unary selector positions are parsed back. |
| `BlockFormat.SelectorRoundTrip` | libc/compress.c:461-478 | Undoing move-to-front on the positions gives the selectors. |
| `BlockFormat.TablesRoundTrip` | libc/compress.c:528-540 | The delta-coded length tables are parsed back. |
| `BlockData.DataRoundTrip` | libc/decompress.c:357-490 | The grouped Huffman codes of any symbol sequence decode to what the sequence stands for. |
| `BlockData.BodyRoundTrip` | libc/decompress.c:240-492 | A whole written block, with whatever tables and selectors, is parsed to the same checksum, origPtr and column, without a data error, and the bits behind it are left. |
| `SendValues.SelectorsToFront` | libc/compress.c:461-478 | The positions are those of move-to-front from the identity list. |
| `SendValues.SendMap` | libc/compress.c:494-515 | Writes the map section. |
| `SendValues.SendSelectors` | libc/compress.c:517-524 | Writes each position in unary. |
| `SendValues.SendTables` | libc/compress.c:528-540 | Writes the delta-coded tables. |
| `SendValues.SendCodes` | libc/compress.c:544-592 | Writes each symbol with the code of its group of 50. |
| `TableChoice.InitialTables` | libc/compress.c:279-317 | Each initial table prefers one range of symbols, beginning where the range of the next table ends and ending at the first symbol with which it has its even share of what is left; every other table in between gives one symbol back. |
| `TableChoice.PackedCost` | libc/compress.c:330-385 | The six costs summed in packed 16-bit halves are the true bit counts; no half ever carries into the other. |
| `TableChoice.BestTable` | libc/compress.c:352-405 | The table chosen codes the group in the fewest bits, the first such one. |
| `TableChoice.SelectTables` | libc/compress.c:342-435 | Every group gets the first of its cheapest tables, and the counters of each table hold the tally of the groups coded with it. |
| `TableChoice.TalliedOnce` | libc/compress.c:406-435 | Over all tables, whatever the selectors, every occurrence of every symbol is tallied exactly once. |
| `TableChoice.ChooseTables` | libc/compress.c:266-458 | For every symbol sequence: at most 18002 selectors, each naming one of the tables, and every table a complete code with lengths 1 to 17. There are four rounds, from the initial tables on: in each, every selector is the cheapest for the tables before, and every table after is optimal for the tally of exactly the symbols that the selectors give it. The result is that of the last. |
| `SendBlock.CompleteIsPrefixCode` | libc/compress.c:480-492 | The lengths made are within the bounds the decoder accepts, with Kraft sum one. |
| `SendBlock.SectionFits` | libc/compress.c:461-594 | A bound on the bits of map, selectors, tables and data, for all inputs. |
| `SendBlock.SendMTFValues` | libc/compress.c:239-594 | Writes a section that the decoder can read back, within that bound, with tables that are optimal for the symbols coded with them. |
| `ReceiveHeader.ReceiveMap` | libc/decompress.c:266-281 | Refines the map parser on every stream, including input that ends early. |
| `ReceiveHeader.ReceiveSelectors` | libc/decompress.c:291-306 | Refines the parser; positions past 18002 are read and dropped. |
| `ReceiveHeader.UndoSelectors` | libc/decompress.c:308-320 | Undoes move-to-front on the positions. |
| `ReceiveHeader.ReceiveTables` | libc/decompress.c:322-335 | Refines the table parser, with its data errors. |
| `ReceiveData.DecodeRun` | libc/decompress.c:385-423 | A run is stored as that many copies of the front byte, or is refused exactly when the reference refuses it. |
| `ReceiveData.DecodeOther` | libc/decompress.c:425-487 | One symbol moves its entry to the front and stores its byte. |
| `ReceiveData.DecodeColumn` | libc/decompress.c:355-492 | On every stream the column in memory and the byte counts are those of the reference decoder, or the status is. |
| `ReceiveBlock.ReceiveBody` | libc/decompress.c:240-498 | From checksum to column: exactly the reference parser on every stream. |
| `ReceiveBlock.MakeCftab` | libc/decompress.c:500-523 | cftab holds the bucket starts, and none of the three checks can fail. |
| `ReceiveBlock.Receive` | libc/decompress.c:240-580 | The block is parsed and the FAST vector built. |
| `RunLength.PairDecodes` | libc/bzlib.c:216-247 | A coded run of 1 to 255 decodes to the run, and leaves the decoder ready for what may follow. |
| `RunLength.AppendPair` | libc/bzlib.c:216-247 | Appending a coded run to a block appends the run to what the block stands for. |
| `BlockOutput.Source.Fetch` | libc/bzlib_private.h:444-479 | Either way of fetching yields the next byte of the same block, with the mask taken off if the block is randomised. |
| `Randomise.NextMask` | libc/bzlib_private.h:141-149 | The countdown is at one exactly on the bytes that the mask changes: the last but one of each stretch, the stretches having the lengths of the table, over and over. |
| `Randomise.FlippedWithin` | libc/bzlib_private.h:141-149 | In each stretch exactly one byte is changed. |
| `Randomise.MaskedTwice` | libc/bzlib_private.h:131-149 | Taking the mask off is putting it on again. |
| `BlockOutput.Output.WriteFast` | libc/bzlib.c:591-682 | A call writes exactly the next bytes that fit; a block that ends inside a run code is reported as corrupt exactly when all its bytes are out. |
| `BlockOutput.Output.WriteSmall` | libc/bzlib.c:706-804 | The same bytes, for SMALL blocks and for all randomised ones; corruption is reported exactly when a further byte would fit. |
| `BlockOutput.Output.Call` | libc/bzlib.c:817-835 | However the output is sliced, the finished output is the run-length expansion of the block, and each call makes progress. |
| `Stream.StreamRoundTrip` | libc/decompress.c:190-262 | Every stream of coded blocks is parsed to the joined data of the blocks, with all checksums accepted. |
| `BlockBuilder.Builder.AddPair` | libc/bzlib.c:216-247 | The run joins what the block stands for and its checksum; at most five bytes are used. |
| `BlockBuilder.Builder.FlushRun` | libc/bzlib.c:252-256 | What has been taken does not change; no run is pending. |
| `BlockBuilder.Builder.AddChar` | libc/bzlib.c:260-284 | Block and pending run together stand for the bytes taken, plus this one. |
| `CompressBlock.SortAndRank` | libc/compress.c:616-655 | The symbols are those of the last column of a sorted block; at most one more than the bytes. |
| `CompressBlock.EncodeBlock` | libc/compress.c:630-653 | The bits written are a coding of the block that can be read back, within the bound, and its tables are optimal for the symbols coded with them. |
| `Compressor.RoomSuffices` | libc/compress.c:619 | Left-over bits, header, the largest block and the trailer always fit in the rest of arr2. |
| `Compressor.EState.WriteBlock` | libc/compress.c:602-664 | The open block becomes a coded block of the stream; the last call ends the stream. |
| `Compressor.EState.CopyOutput` | libc/bzlib.c:334-356 | Output leaves in order, as much as fits. |
| `Compressor.EState.CopyInput` | libc/bzlib.c:289-330 | Input is taken in order until it ends or the block is full; the block never overflows. |
| `Compressor.EState.HandleCompress` | libc/bzlib.c:361-402 | Emitted blocks, open block and pending run stand for exactly the bytes consumed. It leaves output waiting only when there is no room, otherwise stops only for lack of input or of work, and whenever it delivers output and more is left it is nearer to the end. |
| `Compressor.EState.DeliverAndPrepare` | libc/bzlib.c:369-380 | The output half: it stops exactly for lack of room, at the end of the stream, or when everything to be flushed is out. |
| `Compressor.EState.FillAndCompress` | libc/bzlib.c:382-398 | The input half: a block is written exactly when it is full or the input to be flushed or finished is at its end. |
| `Compressor.EState.FlushCall` | libc/bzlib.c:442-450 | A completed flush holds nothing back; one that is not complete has filled the room it was given. Refused exactly when the input was changed. |
| `Compressor.EState.FinishCall` | libc/bzlib.c:452-461 | At the stream end all input is consumed and the output parses to it; before it, a call has filled the room it was given and is nearer to the end. With room and unchanged input it is never refused. |
| `Compressor.EState.BzCompress` | libc/bzlib.c:407-464 | For any sequence of calls and buffer sizes the invariant holds, sequence errors are reported, and at the stream end the output parses to the input. A call with room for output takes all input or comes nearer to the end. |
| `Decompressor.ReceiveSmall` | libc/decompress.c:530-557 | The block is parsed into ll16, turned into the vector and reversed in place, ready for SMALL fetching. |
| `Decompressor.DecodeBlock` | libc/bzlib.c:808-853 | A block, randomised or not, is delivered exactly when the format gives it contents with a matching checksum, in both memory modes. |
| `Decompressor.ReadTrailer` | libc/decompress.c:588-612 | The stream ends exactly when the trailer and the combined checksum are right. |
| `Decompressor.Decompress` | libc/bzlib.c:808-853 | In either memory mode, for any splitting of the input into buffers and any output room in each call, the result is what the format says, on every input, valid or not: data, data error or early end; the error is a wrong magic exactly when the header is wrong. |
| `RoundTrip.Recover` | libc/bzlib.c:808-853 | Whatever has reached the stream end is decompressed to all bytes consumed, whatever the sizes of the buffers. |
| `RoundTrip.Session` | libc/bzlib.c:407-464 | For every sequence of calls that reaches the stream end, decompressing the output in either mode gives back exactly the bytes given to those calls. |
| `RoundTrip.RunAll` | libc/bzlib.c:420-427 | Repeated BZ_RUN takes all input, for every sequence of positive output rooms. |
| `RoundTrip.FlushAll` | libc/bzlib.c:442-450 | Repeated BZ_FLUSH completes, for every sequence of positive output rooms, and holds nothing back. |
| `RoundTrip.FinishAll` | libc/bzlib.c:452-461 | Repeated BZ_FINISH reaches the stream end, for every sequence of positive output rooms. |
| `RoundTrip.Transfer` | libc/bzlib.c:407-464 | Unconditionally: input in any pieces, with flushes anywhere, compressed and decompressed in either mode through buffers of any sizes, is given back. |
| `GzipBits.Source.ReadBit` | libc/gzip.c:165-182 | Takes the next bit of the stream, lowest bit of each byte first. |
| `GzipBits.Source.Read` | libc/gzip.c:184-200 | Takes n bits as a number, the first bit lowest. |
| `GzipBits.Source.Align` | libc/gzip.c:202-207 | Drops the rest of a partly read byte. |
| `GzipTree.HuffTree.Child` | libc/gzip.c:278-301 | Child nodes stand for extended bit paths, and a new one gets a new path. |
| `GzipTree.HuffTree.Insert` | libc/gzip.c:266-306 | A symbol is entered at the end of its code word; refused exactly when an earlier symbol has the same word. |
| `GzipTree.Build` | libc/gzip.c:238-309 | Succeeds exactly when no length exceeds 15 and no two symbols get the same canonical word (section 3.2.2 of RFC 1951); the labelled nodes are then exactly the code, and the node table never fills up. |
| `GzipTree.KraftDistinct` | libc/gzip.c:238-309 | All length vectors within the Kraft bound are accepted. |
| `GzipTree.FollowLookup` | libc/gzip.c:311-338 | Walking the tree finds exactly the shortest code word the stream starts with, or fails exactly when there is none. |
| `GzipTree.CanonicalDecode` | libc/gzip.c:311-338 | Within the Kraft bound, the word of s followed by any bits is decoded to s and leaves those bits. |
| `GzipTree.Decode` | libc/gzip.c:311-338 | Refines looking up code words, on every stream. |
| `GzipInflate.Member.Put` | libc/gzip.c:453-462 | A byte joins output, window, checksum and size together. |
| `GzipInflate.Member.CopyBack` | libc/gzip.c:498-509 | A copy of any length from the circular window, overlapping itself or not, is the copy over unbounded history, that is over what the window held at the start of the member followed by the output. |
| `GzipInflate.InflateCodes` | libc/gzip.c:437-512 | On every stream the output is exactly the LZ77 expansion over that history, an error is reported exactly for bad codes, and checksum and size describe the output. |
| `GzipTables.FixedUsable` | libc/gzip.c:529-541 | The two fixed codes have Kraft sum at most one, so building them never fails. |
| `GzipTables.InflateFixed` | libc/gzip.c:514-544 | A block with the fixed codes of section 3.2.6 of RFC 1951, expanded over that history, with trees built once and kept. |
| `GzipTables.ReadCodeLengths` | libc/gzip.c:602-643 | Refines the run-length coding of code lengths of section 3.2.7 of RFC 1951; runs past the end are cut. |
| `GzipTables.ReadTables` | libc/gzip.c:577-648 | The two codes of a dynamic block, or failure, exactly as specified. |
| `GzipTables.InflateDynamic` | libc/gzip.c:546-651 | A block with the codes it begins with, expanded over that history, or failure. |
| `GzipMembers.StoredRead` | libc/gzip.c:398-435 | A stored block is read back byte for byte, behind any output and before any bits. |
| `GzipMembers.MemberRead` | libc/gzip.c:710-787 | A written member is read back whole, checksum and size accepted. |
| `GzipMembers.FileRead` | libc/gzip.c:686-797 | Any concatenation of written members, zero bytes between them, inflates to the joined inputs. |
| `GzipFiles.PassHeader` | libc/gzip.c:354-396 | Refines the header rules, optional fields included; `GzipHeader.HeaderIs` says which headers these are. |
| `GzipFiles.InflateStored` | libc/gzip.c:398-435 | Refines section 3.2.4 of RFC 1951, errors included. |
| `GzipFiles.InflateBlocks` | libc/gzip.c:717-758 | Blocks up to the last one, of all three kinds, exactly as specified on every stream. |
| `GzipFiles.CheckTrailer` | libc/gzip.c:760-788 | The member is accepted exactly when checksum and size modulo 2^32 are right. |
| `GzipFiles.Inflate` | libc/gzip.c:654-797 | On every input and every window content, the outcome and the output are exactly those specified, the window passing from member to member. |
| `GzipFiles.Store` | libc/gzip.c:847-936 | Writes the member for the joined reads: one stored block per read, the last one marked by looking one read ahead. |
| `GzipFiles.Restore` | libc/gzip.c:847-936 | Storing any inputs, however their reads fall, with zero bytes around, and inflating the whole gives the inputs, joined. |
| `GzipHistory.WindowMatters` | libc/gzip.c:498-509 | A stream that is accepted although a distance reaches back before the member gives another output for some other window content. |
| `GzipHistory.OnlyTheStream` | libc/gzip.c:437-512 | The output of compressed data is the same for all window contents if and only if the data is bad or no distance reaches back before the member. |
| `GzipHistory.PlainIs` | libc/gzip.c:437-512 | Expansion over the output of the member alone, as RFC 1951 has it, is what the code gives, whatever the window held, as long as no distance reaches too far, and an error otherwise. |
| `GzipStandard.StdTablesIs` | libc/gzip.c:546-648 | The codes of a dynamic block as RFC 1951 reads them are those the code reads if they are prefix codes and no repetition is cut, and none otherwise. |
| `GzipStandard.StandardIs` | libc/gzip.c:654-797 | For every file and every window content: what RFC 1951 and RFC 1952 make of it is what the code makes of it if the file keeps the rules that the code leaves unchecked, and an error if it does not. |
| `GzipRfc.FileMeetsRfc` | libc/gzip.c:654-797 | A file that the code accepts is inflated as the standards say if and only if it keeps those rules; and every file that the standards allow is accepted. |
| `GzipRfc.LawfulAlone` | libc/gzip.c:654-797 | A file that keeps the rules gives the same output whatever the window held. |
| `GzipRfc.PaddedFile` | libc/gzip.c:690-708 | Of the files of written members with zero bytes around them, all of which the code accepts, exactly those without zero bytes keep the rules. |
| `GzipRfc.FlaggedFile` | libc/gzip.c:354-396 | A member with reserved flags is refused by RFC 1952, and inflated by the code like one without. |
| `GzipOddCodes.OverfullFile` | libc/gzip.c:238-309 | A file whose distance code has a word that begins another is refused by RFC 1951 and accepted by the code. |
| `GzipOddCodes.CutFile` | libc/gzip.c:602-643 | A file whose last run of code lengths is too long is refused by RFC 1951 and accepted by the code. |
| `GzipOddCodes.SparseFile` | libc/gzip.c:238-309 | A file whose literal code has an unused word is accepted by the code, and allowed by one reading of RFC 1951 but not by the other. |
| `GzipRfc.StaleFile` | libc/gzip.c:498-509 | A file with a distance that reaches back before its member is refused by RFC 1951; the code accepts it, and puts out the last byte of the old window three times. |
| `Regex.OutAdd` | libc/regex.c:452-464 | No position twice, none beyond the capacity. |
| `Regex.MatchStar` | libc/regex.c:476-526 | On every string the results are the positions in the order of the search, cut at the capacity. |
| `Regex.StarIs` | libc/regex.c:476-526 | A star matches exactly what the closure reaches. |
| `Regex.MatchAll` | libc/regex.c:528-668 | On every string the list is the one specified by `Regex.Ends`: every end returned is an end of a match, none twice, and below 256 bytes of string all ends are returned. |
| `Regex.Exec` | libc/regex.c:709-746 | On every string regexec reports what `Regex.Search` specifies; below 256 bytes that is the leftmost longest match. |
| `Regex.ReachedResult` | libc/regex.c:476-526 | The search reaches exactly the reflexive and transitive closure of the child, if the string is shorter than the capacity. |
| `Regex.EndsResult` | libc/regex.c:528-668 | The lists specified hold only ends of matches, none twice, and all of them on strings shorter than the capacity. |
| `Regex.Reported` | libc/regex.c:709-746 | What is reported is a match, however long the string. |
| `Regex.ShortIsRight` | libc/regex.c:709-746 | Below 256 bytes a match is reported whenever there is one, the leftmost, and the longest of those. |
| `Regex.LongIsWrong` | libc/regex.c:452-464 | On every string of 256 bytes or more the pattern for any run of bytes is reported to end after 255 bytes, although the whole string matches. |
| `Regex.ExactlyShort` | libc/regex.c:709-746 | For all strings: every pattern gets its leftmost longest match if and only if the string has fewer than 256 bytes. |
| `StreamingHash.PaddedOnce` | libc/checksum.c:186-204 | Section 5.1 of FIPS 180-4 and sections 3.1 and 3.2 of RFC 1321 leave exactly one padding. |
| `StreamingHash.Buffer.Absorb` | libc/checksum.c:161-184 | However much the buffer holds, the message grows by exactly the bytes given, and all whole blocks have gone through compression in order. |
| `StreamingHash.Buffer.Finish` | libc/checksum.c:186-204 | The blocks compressed are those of the padded message, an extra block included when the length field does not fit. |
| `StreamingHash.ShortContext.Final` | libc/checksum.c:325-342 | The length field is eight times the message length modulo 2^64, in the byte order of the hash. |
| `StreamingHash.HashShort` | libc/checksum.c:450-493 | For every splitting of a message into updates of at most 2^31 - 65 bytes the result is the fold over the blocks of the padded message. |
| `StreamingHash.Carry` | libc/checksum.c:583-590 | The two-word count stays the message length modulo 2^128; the carry is seen from the wrap of the low word. |
| `StreamingHash.LongBits` | libc/checksum.c:667-674 | The two shifted words are eight times that count modulo 2^128. |
| `StreamingHash.LongContext.Final` | libc/checksum.c:666-690 | SHA-512 padding with the 128-bit length. |
| `StreamingHash.HashLong` | libc/checksum.c:641-690 | The same for SHA-512 and updates of at most 2^31 - 129 bytes. |
| `WmClients.ModalConstraint` | 6wm/focus.c:58-99 | The first client with the strongest claim on the focus: a modal for that window only, then one owned by it, then one of its application; none exactly when nobody blocks. |
| `WmClients.ClaimsOnce` | 6wm/focus.c:50-57 | There is only one such client. |
| `WmStack.RaisedShape` | 6wm/stack.c:116-155 | The list after raising a family: its modals, its utility windows, the client, then all others in their old order. |
| `WmStack.RaisedOnTop` | 6wm/stack.c:116-155 | A raised document window is the topmost of all document windows. |
| `WmStack.Restack` | 6wm/stack.c:21-80 | The stacking request lists whole layers from the bottom, the head of the list topmost in each, and never overflows its array. |
| `WmStack.AllStacked` | 6wm/stack.c:45-72 | With at most 256 frames every frame is stacked. |
| `WmFocus.Wm.Raise` | 6wm/stack.c:88-114 | The client moves to the front, the others keep their order. |
| `WmFocus.Wm.RaiseFamily` | 6wm/stack.c:116-155 | A rearrangement: the same clients, each once. |
| `WmFocus.Wm.FocusSet` | 6wm/focus.c:122-167 | The focus goes to the client, or to the one with the strongest claim on it exactly when it is blocked, and that client is then blocked exactly when both were; active iff focused, grabbed iff nothing is focused. |
| `WmFocus.Wm.FocusRevert` | 6wm/focus.c:175-230 | The focus goes to the preferred client, or to its owner in another application, or to who blocks these; to nobody exactly when no client is left. |
| `WmFocus.Wm.ChooseHeir` | 6wm/focus.c:181-217 | The first modal, else the first utility, else the first document window; a modal whose owner belongs to another application gives way to the owner. |
| `WmChoice.FreeExactly` | 6wm/focus.c:122-167 | Setting the focus leaves it with a client that nobody blocks, whichever is asked for, if and only if nobody stands over a modal that roles, owners and scopes make the choice in place of another client. |
| `WmChoice.PeacefulSettled` | 6wm/focus.c:58-99 | If no modal blocks another, nobody who can be sent the focus in place of another is blocked in turn. |
| `WmFocus.Wm.Find` | 6wm/client.c:368-379 | The first client in the list with that window or frame, or none. |
| `WmFocus.Wm.Manage` | 6wm/client.c:284-346 | A new client goes in front of the list, inactive and unframed, with the role, owner and scope of the answer, and with its owner's leader if the owner is a client that has one, else its own. |
| `WmFocus.Wm.Unmanage` | 6wm/client.c:348-366 | The client leaves the list, and the focus if it had it. |
| `WmFocus.Wm.OnMapRequest` | 6wm/6wm.c:274-322 | Keeps the invariant; a client is made exactly for a new window that can be managed and framed, with the fields of the answer, and gets the focus unless it is blocked; for a window that has a client, that client does. The focused client comes to the front with its family. |
| `WmFocus.Wm.OnUnmap` | 6wm/6wm.c:362-387 | Keeps the invariant; the client of the window is removed exactly when it has withdrawn the window itself, and the focus reverts. |
| `WmFocus.Wm.OnDestroy` | 6wm/6wm.c:392-406 | Keeps the invariant; the client of the window is removed if there is one, and the focus reverts. Afterwards the window is managed if and only if it was, and the first client that it named had it as its frame. |
| `WmFocus.Wm.OnButton` | 6wm/6wm.c:411-439 | Keeps the invariant and the set of clients; a click outside the menu bar gives the focus to the client clicked, or to who blocks it. |
| `WmFocus.Wm.OnCycle` | 6wm/6wm.c:513-551 | Keeps the invariant and the set of clients; the focus goes to the neighbour in the cycling order, or to who blocks it. |
| `WmFocus.Wm.OnProperty` | 6wm/6wm.c:636-735 | Keeps the invariant; role, layer, owner, leader and modal scope are those of the new properties, and the focus stays unless its holder is now blocked. |
| `WmFocus.CycleTarget` | 6wm/6wm.c:51-107 | The neighbour in the order of layers, or the first client for one outside it. |
| `WmFocus.NeighbourBack` | 6wm/6wm.c:104-106 | A step on and a step back in one order cancel out. |
| `WmFocus.Wm.FocusedFree` | 6wm/focus.c:122-167 | Whenever no framed modal blocks another, the focused client is blocked by none. |
| `WmFocus.Wm.Start` | 6wm/6wm.c:803-857 | The invariant holds after startup; the windows that are viewable and can be managed are the clients, the last first, and the first document window among them is focused, or who blocks it, or nobody if there is none. |
| `WmFocus.Session` | 6wm/6wm.c:862-977 | In every run from startup, between events: no client and no window listed twice, a client active iff focused, the grab held iff nothing is focused, and a focused client blocked only if it is a modal itself. If every frame has an identifier of its own, the managed windows and their frames are exactly those that the events say. |
| `WmFocus.TwoModals` | 6wm/focus.c:58-99 | The exception is reachable: two modals of one application leave the first focused and blocked by the second. |
| `CodeTables.Extremes` | libc/decompress.c:339-344 | Finds the least and the greatest length. |
| `TableChoice.RemakeTables` | libc/compress.c:444-451 | Every table becomes a complete code with lengths 1 to 17, optimal for its own tallies as far as these were scaled. |
| `SendBlock.SendCoding` | libc/compress.c:517-592 | Writes counts, selectors, tables and data as one section. |
| `ReceiveBlock.ReceiveCoding` | libc/decompress.c:286-492 | Refines the parser of selectors, tables and data on every stream. |
| `MoveToFront.MtfTable.constructor` | libc/decompress.c:364-376 | The fresh table stands for the identity list. |
| `GzipTree.HuffTree.Descend` | libc/gzip.c:275-301 | Walking down the bits of a code word ends at its node; at most one new node per bit. |
| `GzipTree.CountUsed` | libc/gzip.c:248-257 | Counts the symbols of each length; refuses exactly when some length exceeds 15. |
| `GzipTree.FirstCodes` | libc/gzip.c:259-264 | The first code word of each length. |
| `GzipTables.FixedTrees.Prepare` | libc/gzip.c:529-541 | The trees are those of the fixed codes, built at most once. |
| `GzipTables.ReadCodeLengthLens` | libc/gzip.c:589-597 | Refines reading the lengths of the code length code in their permuted order. |
| `GzipFiles.InflateMember` | libc/gzip.c:710-787 | Header, blocks and trailer of one member. |
| `GzipFiles.SkipPadding` | libc/gzip.c:690-708 | Zero bytes are skipped; the byte behind them is put back. |
| `Regex.AddAll` | libc/regex.c:452-464 | Positions join the list in order, each once, as long as there is room. |
| `Regex.Expand` | libc/regex.c:509-520 | New positions join the queue once, and the results. |
| `StreamingHash.ShortContext.Update` | libc/checksum.c:161-184 | The message grows by the bytes given and the count stays its length modulo 2^64. |
| `StreamingHash.LongContext.AddLen` | libc/checksum.c:583-590 | The two-word count advances by the bytes given. |
| `StreamingHash.LongContext.Update` | libc/checksum.c:641-664 | The message grows by the bytes given. |
| `StreamingHash.FieldBytes` | libc/checksum.c:200-202 | The bytes shifted out are those of the count, in either order. |
| `WmFocus.Wm.Candidate` | 6wm/focus.c:181-212 | The first modal, else the first utility, else the first document window; none exactly when there is no client. |
| `WmFocus.Wm.Adopt` | 6wm/6wm.c:819-839 | A window found at startup becomes the first client exactly when it is viewable and can be managed and framed. |
| `WmFocus.Wm.Handle` | 6wm/6wm.c:868-973 | Every event keeps the invariant and has the effect of its handler: who is added or removed, who is focused, what is left alone. If every frame has an identifier of its own, the managed windows change by exactly one step of `WmEvents.Step`. |
| `WmFocus.Wm.Run` | 6wm/6wm.c:862-977 | Every sequence of events keeps the invariant. If every frame has an identifier of its own, the managed windows are those of `WmEvents.After`, and a window that is destroyed is managed by nobody until it asks to be mapped again. |
| `CrcRegister.XorBits` | libc/bzlib_private.h:166-171 | Exclusive or, bit by bit. |
| `CrcRegister.UpdateIs` | libc/bzlib_private.h:166-171 | With the table of the polynomial 0x04c11db7, one update is eight steps of the bit-serial division register, the byte entering from its highest bit. |
| `CrcRegister.SumIsRegister` | libc/bzlib_private.h:153-171 | The checksum loop over any bytes from any start is the register fed all their bits. |
| `CrcRegister.BurstSeen` | libc/bzlib_private.h:153-171 | Two blocks that differ only within 32 neighbouring bits always have different checksums. |
| `CrcRegister.ByteSeen` | libc/bzlib_private.h:153-171 | Two blocks of one length that differ in one byte have different checksums. |
| `CrcRegister.StartInverts` | libc/bzlib_private.h:156-159 | Starting from all ones is inverting the first 32 bits. |
| `CrcRegister.Residue` | libc/bzlib_private.h:161-164 | A block followed by its own checksum leaves the same register, whatever the block. |
| `CrcRegister.MakeTable` | libc/checksum.c:30-47 | The table built at startup is that of the reflected polynomial: entry i is eight steps of i. |
| `CrcRegister.UpdateLowIs` | libc/checksum.c:49-53 | One update is eight steps of the register, the byte entering from its lowest bit. |
| `CrcRegister.SumLowIsRegister` | libc/checksum.c:55-63 | The checksum of a member is the register fed its bits in file order. |
| `CrcRegister.BurstSeenLow` | libc/checksum.c:49-69 | Two members that differ only within 32 neighbouring bits have different checksums. |
| `CrcRegister.ByteSeenLow` | libc/checksum.c:49-69 | Two members of one length that differ in one byte have different checksums. |
| `CrcRegister.StartInvertsLow` | libc/gzip.c:867 | Starting from all ones is inverting the first 32 bits. |
| `CrcRegister.ResidueLow` | libc/checksum.c:65-69 | A member followed by its checksum as the trailer holds it leaves the same register, whatever the data. |
| `CrcRegister.Mirrored` | libc/checksum.c:42 | The constants of the two checksums are one polynomial, written from either end. |
| `CrcRegister.CombineIs` | libc/compress.c:607-608 | Combining moves the top bit of the 32 to the bottom and adds the block checksum bit by bit. |
| `CrcRegister.CombineInjective` | libc/compress.c:607-608 | Two equal combined checksums come from equal histories exactly if from equal last blocks: one changed block checksum always shows. |
| `GzipHeader.FlagsTell` | libc/gzip.c:17-21 | Which bit of the flags announces which field. |
| `GzipHeader.HeaderSkipped` | libc/gzip.c:354-396 | A header with any extra field, name, comment and header checksum, each there or not, is passed over whole. |
| `GzipHeader.HeaderIs` | libc/gzip.c:354-396 | The bits accepted as a header are exactly the headers of section 2.3 of RFC 1952, with any reserved flags. |
| `GzipEncoding.LengthLaw` | libc/gzip.c:62-74 | The length table is the one of section 3.2.5 of RFC 1951: from 3 on, each symbol starting one above the longest of the one before, one extra bit more for every four symbols, and 258 alone at the end. |
| `GzipEncoding.DistanceLaw` | libc/gzip.c:76-86 | The same for the distances from 1 to 32768. |
| `GzipEncoding.MatchBack` | libc/gzip.c:467-497 | Any length from 3 to 258 at any distance up to 32768, in any two prefix codes with symbols for them, is read back as exactly that match. |
| `GzipEncoding.TokensBack` | libc/gzip.c:437-512 | Any sequence of literals and matches, in any two prefix codes, inflates to what it stands for, whatever the window held before. |
| `GzipEncoding.OrderLaw` | libc/gzip.c:555-557 | The order of the code length code: 16, 17, 18, 0, then 8 and outwards from it. |
| `GzipEncoding.CodebookBack` | libc/gzip.c:546-651 | Any two prefix codes, their lengths in any runs under any code for them, are read back from the start of a dynamic block. |
| `GzipEncoding.FixedWords` | libc/gzip.c:529-533 | The fixed code words are those of the table in section 3.2.6 of RFC 1951. |
| `GzipEncoding.FixedDistances` | libc/gzip.c:534 | The fixed distance codes are the numbers 0 to 31 in five bits. |
| `GzipEncoding.BlocksBack` | libc/gzip.c:722-757 | Any blocks, stored, fixed and dynamic in any order, inflate to what they stand for. |
| `GzipEncoding.EntryBack` | libc/gzip.c:686-797 | Any member with any header is read back as its data, its checksum and size accepted. |
| `GzipEncoding.FileBack` | libc/gzip.c:653-797 | Every file of members made by the rules of RFC 1951 and RFC 1952 inflates to what it was made from. |
| `RegexCase.CaseIgnored` | libc/regex.c:47-58 | Without regard to case two characters are the same exactly if they are equal or the two cases of one ASCII letter. |
| `RegexCase.SearchRecased` | libc/regex.c:709-746 | Without regard to case, changing the case of any letters of the string changes nothing that is reported, for every pattern whose classes hold both cases of a letter or neither. |
| `RegexCase.ClassKeepsCase` | libc/regex.c:466-470 | A search for a class ignores case if and only if the class holds both cases of every letter or neither. |
| `RegexCase.WordChars` | libc/regex.c:36-45 | Words are made of ASCII letters, digits and the underscore. |
| `RegexCase.ClassAdd` | libc/regex.c:130-137 | A class gains exactly the character added; anything that is no byte is refused and changes nothing. |
| `WmEvents.CleanAfter` | 6wm/6wm.c:862-977 | As long as new frames have identifiers of their own, all windows and frames stay different. |
| `WmEvents.GoneUntilMapped` | 6wm/6wm.c:362-406 | A window that is destroyed, or withdrawn by its client, is not managed until it asks to be mapped again. |
| `WmEvents.StaysUntilTaken` | 6wm/6wm.c:862-977 | A managed window stays managed, in its frame, until it is destroyed or withdrawn or its frame is destroyed. |
| `WmEvents.CameByRequest` | 6wm/6wm.c:274-322 | Nothing is managed that was not there at startup or asked to be mapped. |
| `WmFocus.Wm.UpdateIdentity` | 6wm/client.c:158-202 | An owner's leader counts more than the window's own. |
| `WmFocus.Wm.ReadAgain` | 6wm/6wm.c:690-700 | Role, layer, owner, leader and scope of a client are read again; a window once managed stays so. |
| `WmFocus.Wm.AdoptAll` | 6wm/6wm.c:819-839 | The viewable windows that can be managed become clients in turn, the last one first in the list. |
| `WmFocus.FrameClash` | 6wm/client.c:368-379 | A frame with the identifier of a window: destroying that window takes the client of the frame away and leaves the other. |
| `WmStack.RelatedExactly` | 6wm/stack.c:116-155 | The family of a client in a layer: the other framed clients of that layer with the same leader, if it has one. |
| `WmStack.StackedByRole` | 6wm/stack.c:21-80 | With at most 256 frames, modals are stacked above utility windows, and those above documents and dialogs. |
| `MtfCoding.RunLaw` | libc/compress.c:172-188 | Run lengths are written in bijective base 2: every length has exactly one sequence of digits. |
| `Randomise.FlipIs` | libc/bzlib_private.h:138-149 | The mask changes the lowest bit and no other. |
| `Stream.Magics` | libc/compress.c:624-662 | The stream starts with BZh, blocks with twelve digits of pi, and the end with those of its square root. |

## Left out

- mainSort, mainQSort3, mainGtU and the work budget of BZ2_blockSort: `BlockSort.SortBlock` always takes the fallback path, which gives the same order up to the choice among equal rotations.
- The contents of BZ2_rNums: all results hold for any table of 512 numbers of at least 2.
- BlockSort.NextBit: the header bits are an array of booleans; the word tests are modelled as tests of 32 of them.
- The save area of BZ2_decompress: a decoder that returns for want of input and is entered again where it left off is modelled as one run whose reader goes on to the next buffer (`BitStream.BitReader.NextBuffer`).
- The FILE-based layer (BZ2_bzRead, BZ2_bzWrite, BZ2_bzopen and the buffer-to-buffer calls), verbosity output and allocation failure.
- Storage sharing of arr1 and arr2, except for the symbols written over the pointers (`MtfEncoder.GenerateMTFValues`) and the space left for the bit stream (`Compressor.RoomSuffices`). Data that a function only reads is passed as a sequence.
- HuffmanLengths.MakeCodeLengths: limits from 15 to 63 only and a sum of frequencies below 2^23, which all callers keep; the packed weights overflow beyond it.
- TableChoice.ChooseTables: no claim that no other assignment of groups to tables is better; each selector is cheapest for the tables of the round before, and each table is optimal for the groups it is used for.
- CompressBlock.SortAndRank: symbol frequencies are counted after the symbols are made, not along with them; they only steer the choice of tables.
- Unrolled loops (groups of 50 symbols, moves of four entries, output fast paths) are modelled as loops with the same effect.
- The 256 words of BZ2_crc32Table as they are written in libc/crctable.c: what depends on them is proved for the table of the polynomial 0x04c11db7 (`CrcRegister.Divides`), everything else for any table of 256 words. The table of gzip is built (`CrcRegister.MakeTable`).
- The header checksum of a gzip member and the subfields of its extra field: section 2.3.1.2 of RFC 1952 lets a decompressor pass over them, and the code does.
- File descriptors, short writes and the small input and output buffers of gzip: files are byte sequences, and the writer's reads may return any nonempty part of at most 4096 bytes.
- The scratch tables of dynamic gzip blocks are allocated per block instead of being reused; every use rebuilds them.
- Parsing of regular expressions, character class syntax apart from adding a character, submatch reporting, and fnmatch and glob.
- The round functions and constants of the hashes and the final byte order of their digests.
- StreamingHash.ShortContext.Update: updates of at most 2^31 - 65 bytes; beyond that the test for another whole block overflows an int.
- StreamingHash.LongContext.Update: updates of at most 2^31 - 129 bytes, for the same reason.
- Classifying a window by its properties (client_classify_role): the role is an arbitrary answer, as are transient owner, leader and modal scope.
- Drawing, menus, key grabs, geometry, dragging and closing of windows, and events that only concern these.
- WmFocus.Wm.Start: the children that XQueryTree lists are taken to be distinct windows.
- The kernel, libm, and the rest of the C library.
