# Compression kernels of fuse-7z

A Dafny model of the self-contained coding and data-structure kernels that fuse-7z carries in its
copy of p7zip 9.20.1, and of its own archive path tree. Each C++ class whose methods update its
fields is a Dafny class with those fields; its methods are proved against specification functions on
sequences and unbounded numbers, and the properties of those functions are lemmas.

| files | what they model |
|---|---|
| `Words`, `ByteStreams`, `MsbBits`, `LsbBits` | shifts, masks and bitwise operators on natural numbers; byte streams, and the two orders of reading bits from them |
| `RangeIntervals`, `RangeEncoder`, `RangeDecoder`, `RangeCoderRuns` | the range coder with its deferred carry: an interval in unbounded arithmetic, the two coders that refine it, and whole runs |
| `RangeCoderBit`, `OneModelRuns`, `AdaptiveRuns` | adaptive bit models on top of it: one coded bit, the ranges a run can reach, and whole runs |
| `QuantumBits`, `QuantumRange`, `QuantumTables`, `QuantumModel`, `QuantumRuns` | the Quantum bit reader, arithmetic decoder, self-adjusting frequency tables, and whole runs on arbitrary streams |
| `HuffmanCodes`, `HuffmanDecoder`, `HuffmanRuns`, `HuffmanLsbRuns` | canonical codes after section 3.2.2 of RFC 1951, the table-driven decoder, and whole messages in both bit orders |
| `Mtf8` | move-to-front, on a byte array and on packed machine words of 4 or 8 bytes |
| `BitlCoders`, `BitlRuns`, `BitmCoders`, `BitmRuns` | the LSB-first and MSB-first bit writers and readers |
| `Lz77`, `Rar3Window`, `LzOutWindow` | LZ77 copying over an unbounded history, and the two ring windows that refine it |
| `MyVector` | heapsort, binary search and sorted insertion |
| `PathNames`, `NodeTree` | path components and the archive tree |

How the parts are tied together:

- **Range coder.** `RangeIntervals` says what an item does to an interval (low end, width, number of
  digits) with no carry, cache or truncation. The encoder's fields denote such an interval: the emitted
  bytes, the cached byte, the 0xFF run and `Low` read as one number. The decoder's ghost `state` is the
  interval its own answers have narrowed to, and `Code` is the stream's distance above it modulo 2^32,
  on every stream. The round trips follow because intervals are nested.
- **Quantum.** The repository has no Quantum encoder. Instead every message is given the interval it
  narrows to; the decoder is proved to return the one message whose interval holds its stream, and
  every message is proved to have a stream.
- **Packed tables, windows, bit registers** each have a ghost function or predicate that unpacks them
  into a plain sequence, a history or a bit string, and every method is stated on that.
- Where something the code seems to promise does not hold for every input, the exact condition is
  proved, and a member shows an input that fails: `RangeDecoder.BranchlessStepExact` and
  `BranchlessFails`, `OneModelRuns.IfReplacesWhileExact` and `RunThatNeedsTwoShifts`,
  `LzOutWindow.GetByteExact` and `GetByteFails`, `NodeTree.FindInserted`, `FindFullname`,
  `TrailingSlash` and `LongName`. The last four: a path that ends in a slash makes `insert` create a
  node with an empty name, which `find` never returns, and a component of 255 characters or more
  overruns the buffer of `find`, where the model ends the run.

Loops are split into methods of one pass where that keeps a proof short (`ShiftEight`, `MovePair`,
`PopLargest`, `Double`, `LoadByte`, `StoreByte` and the like). Inherited and template classes are
flattened; template parameters are fields that do not change.

## Model

| member | source | states |
|---|---|---|
| `RangeCoderRuns.RoundTrip` | p7zip_9.20.1/CPP/7zip/Compress/RangeCoder.h:47-198 | Any interleaving of Encode, EncodeBit and EncodeDirectBits, flushed and followed by any other bytes, is undone by the mirrored decoder calls; the decoder reads exactly the flushed bytes, of which there are at least five and the first is 0 |
| `RangeCoderRuns.EncodeAll` | p7zip_9.20.1/CPP/7zip/Compress/RangeCoder.h:27-104 | The flushed bytes denote the low end of the interval that the items narrow to in unbounded arithmetic, and their number is that interval's digit count plus four |
| `RangeCoderRuns.DecodeAll` | p7zip_9.20.1/CPP/7zip/Compress/RangeCoder.h:117-198 | On every stream inside the final interval each item is answered rightly (a threshold in [start, start + size), the bit, the low bits of the value) and one byte per digit is consumed |
| `RangeCoderRuns.DecodeItem` | p7zip_9.20.1/CPP/7zip/Compress/RangeCoder.h:138-198 | One mirrored call answers the item, narrows the interval exactly as the encoder did, and leaves Code < Range |
| `RangeCoderRuns.FlushedHolds` | p7zip_9.20.1/CPP/7zip/Compress/RangeCoder.h:36-41 | Whatever follows the flushed bytes, the stream stays inside the final interval |
| `RangeEncoder.Encoder.ShiftLow` | p7zip_9.20.1/CPP/7zip/Compress/RangeCoder.h:58-73 | The number denoted by emitted bytes, cache, 0xFF run and Low is multiplied by exactly 256; no emitted byte changes; room for Range above Low is kept, so no carry can leave the cached byte; Low is its low 24 bits shifted up, and one byte is owed more |
| `RangeEncoder.Encoder.WriteCached` | p7zip_9.20.1/CPP/7zip/Compress/RangeCoder.h:62-68 | The inner loop writes the cached byte and the whole 0xFF run with the carry added to each |
| `RangeEncoder.Encoder.CarriedNum` | p7zip_9.20.1/CPP/7zip/Compress/RangeCoder.h:60-68 | Writing the run with the carry adds exactly the carry to the number it denotes |
| `RangeEncoder.Encoder.PendingValue` | p7zip_9.20.1/CPP/7zip/Compress/RangeCoder.h:60-72 | Joining the 0xFF run instead of writing keeps the denoted number in step as well |
| `RangeEncoder.Encoder.RoomAfterShift` | p7zip_9.20.1/CPP/7zip/Compress/RangeCoder.h:58-73 | Low + Range <= 2^33, and <= 2^32 when the cached byte is 0xFF, is kept by a shift |
| `RangeEncoder.Encoder.Encode` | p7zip_9.20.1/CPP/7zip/Compress/RangeCoder.h:47-56 | The part of the range that begins at start times Range / total and is size times that wide, in the fewest more digits that make it 2^24 wide; emitted bytes stay |
| `RangeIntervals.NormalizeExact` | p7zip_9.20.1/CPP/7zip/Compress/RangeCoder.h:51-55 | Renormalising multiplies low end and width by 256 as often as needed for a width of 2^24, and no oftener |
| `RangeEncoder.Encoder.EncodeBit` | p7zip_9.20.1/CPP/7zip/Compress/RangeCoder.h:89-104 | For every numTotalBits n up to 24: with b = Range / 2^n * size0, the part from 0 to b for symbol 0 and the rest for any other, renormalised; b * 2^n is at most Range * size0 and less than size0 * 2^n below it; emitted bytes stay |
| `RangeEncoder.Encoder.EncodeDirectBits` | p7zip_9.20.1/CPP/7zip/Compress/RangeCoder.h:75-87 | For any value v of numBits bits, up to 32: the interval begins at about the v-th of 2^numBits equal pieces (never below v of its own widths, never above v true pieces) and is no wider than a piece; emitted bytes stay |
| `RangeEncoder.Encoder.EncodeDirectBit` | p7zip_9.20.1/CPP/7zip/Compress/RangeCoder.h:79-85 | The lower half of the range for 0, the upper for 1, renormalised |
| `RangeEncoder.Encoder.NormalizeOnce` | p7zip_9.20.1/CPP/7zip/Compress/RangeCoder.h:81-85 | Where one shift suffices, the single `if` does what the `while` loop would do |
| `RangeEncoder.Encoder.FlushData` | p7zip_9.20.1/CPP/7zip/Compress/RangeCoder.h:36-41 | The emitted bytes then denote exactly the number denoted before, and there are exactly GetProcessedSize of them |
| `RangeDecoder.Decoder.Init` | p7zip_9.20.1/CPP/7zip/Compress/RangeCoder.h:127-134 | Five bytes are read, Range is 0xFFFFFFFF, and Code is the number of the bytes modulo 2^32 |
| `RangeDecoder.Decoder.Normalize` | p7zip_9.20.1/CPP/7zip/Compress/RangeCoder.h:117-124 | Code stays the stream's distance above the interval's low end, in 32-bit arithmetic, on every stream, while the interval is renormalised |
| `RangeDecoder.Decoder.GetThreshold` | p7zip_9.20.1/CPP/7zip/Compress/RangeCoder.h:138-141 | The quotient of Code by Range / total, which Range becomes; for every part of the total: if the stream lies in that part, the threshold does |
| `RangeDecoder.Decoder.Decode` | p7zip_9.20.1/CPP/7zip/Compress/RangeCoder.h:143-148 | After the threshold call, the part from start units on, size units wide, renormalised as Encode does |
| `RangeDecoder.Decoder.DecodeBit` | p7zip_9.20.1/CPP/7zip/Compress/RangeCoder.h:181-198 | On every stream and for every numTotalBits n: the answer is 0 exactly when Code is below Range / 2^n * size0, and the interval narrows to the part of the answer as EncodeBit narrows it |
| `RangeDecoder.Decoder.BitDecodes` | p7zip_9.20.1/CPP/7zip/Compress/RangeCoder.h:89-104 | If the stream was narrowed for symbol s, Code lies below the bound exactly when s is 0 |
| `RangeDecoder.Decoder.DecodeDirectBit` | p7zip_9.20.1/CPP/7zip/Compress/RangeCoder.h:155-175 | On every stream the branchless step narrows by its answer, and no other bit can have been encoded there; the answer is that of the compare-and-subtract loop if and only if Code is less than 2^31 above the halved range, hence whenever Code < Range |
| `RangeDecoder.Decoder.DecodeDirectBits` | p7zip_9.20.1/CPP/7zip/Compress/RangeCoder.h:150-179 | The result narrows the interval as its encoding would; if the stream was narrowed for any v, the result is the low bits of v |
| `RangeDecoder.Decoder.CodeBelowRange` | p7zip_9.20.1/CPP/7zip/Compress/RangeCoder.h:117-148 | On a stream inside the interval Code is the exact distance and below Range |
| `RangeDecoder.BranchlessStepExact` | p7zip_9.20.1/CPP/7zip/Compress/RangeCoder.h:157-168 | The branchless step and the compare-and-subtract loop in its comment take the same branch if and only if the code is less than 2^31 above the halved range, as it is whenever it is below the range |
| `RangeDecoder.LoopsAgree` | p7zip_9.20.1/CPP/7zip/Compress/RangeCoder.h:150-179 | On a stream narrowed for any v, the loop in the comment reads the low bits of v, which is what DecodeDirectBits reads |
| `RangeDecoder.BranchlessFails` | p7zip_9.20.1/CPP/7zip/Compress/RangeCoder.h:155-168 | On the stream 00 FF FF FF FF the decoder reads a 0 |
| `RangeDecoder.PlainBitThere` | p7zip_9.20.1/CPP/7zip/Compress/RangeCoder.h:158-165 | There the loop in the comment reads a 1 |
| `RangeIntervals.NestedIntervals` | p7zip_9.20.1/CPP/7zip/Compress/RangeCoder.h:47-104 | A stream inside the interval after all items is inside the interval after any of their beginnings |
| `RangeIntervals.FreqHolds` | p7zip_9.20.1/CPP/7zip/Compress/RangeCoder.h:47-56 | A stream narrowed for [start, start + size) was in the wide interval, and its quotient by the unit lies in [start, start + size) |
| `RangeIntervals.BitHolds` | p7zip_9.20.1/CPP/7zip/Compress/RangeCoder.h:89-104 | A stream narrowed for a symbol was in the wide interval, below the bound exactly for symbol 0 |
| `RangeIntervals.DirectPrefixHolds` | p7zip_9.20.1/CPP/7zip/Compress/RangeCoder.h:75-87 | A stream narrowed for all bits was in the interval after any leading bits |
| `RangeIntervals.RunBelowOne` | p7zip_9.20.1/CPP/7zip/Compress/RangeCoder.h:27-73 | No run ever denotes a number of one or more before the first digit: nothing carries out of the leading zero byte |
| `AdaptiveRuns.AdaptiveRoundTrip` | p7zip_9.20.1/CPP/7zip/Compress/RangeCoderBit.h:46-109 | For every sequence of symbols (nonzero ones count as 1), every moveBits, and every rule that picks the model from the bits so far (in the decoder: from those it has decoded itself), as long as no symbol meets an empty part: the decoder returns the bits and reads exactly the flushed bytes, and the models of either side end at the probabilities that the bits lead to |
| `AdaptiveRuns.Scheme.AlwaysWide` | p7zip_9.20.1/CPP/7zip/Compress/RangeCoderBit.h:46-109 | With moveBits of at least 4, in every run with any number of models no part is empty, Range ends at 2^24 or more, and every step is that of EncodeBit |
| `AdaptiveRuns.Scheme.Nested` | p7zip_9.20.1/CPP/7zip/Compress/RangeCoderBit.h:46-109 | A stream in the interval after a history was in the intervals after all its beginnings |
| `AdaptiveRuns.EncodeAdaptive` | p7zip_9.20.1/CPP/7zip/Compress/RangeCoderBit.h:46-69 | The flushed bytes denote the low end of the interval of the run, one byte per digit plus four, and all models are those after the whole history |
| `AdaptiveRuns.DecodeAdaptive` | p7zip_9.20.1/CPP/7zip/Compress/RangeCoderBit.h:83-109 | On every stream in that interval all bits come back and the decoder's models are those after that history |
| `AdaptiveRuns.DecodeNext` | p7zip_9.20.1/CPP/7zip/Compress/RangeCoderBit.h:83-109 | One step of it: right bit, models after the longer history, Code < Range |
| `RangeCoderBit.BitEncoder.Encode` | p7zip_9.20.1/CPP/7zip/Compress/RangeCoderBit.h:46-69 | For every moveBits, Prob and Range whose part for the symbol is not empty: the part has the width Range / 2048 * Prob for 0 and the rest otherwise, times 256 if below 2^24, as has the denoted number; after 0, Prob rises by the whole 2^moveBits parts of its distance to 2048, otherwise it falls by those of itself; emitted bytes stay |
| `RangeCoderBit.OneShiftStepExact` | p7zip_9.20.1/CPP/7zip/Compress/RangeCoderBit.h:48-68 | One step does what its comment says, EncodeBit with Prob, if and only if the part is at least 2^16 wide |
| `RangeCoderBit.StepHolds` | p7zip_9.20.1/CPP/7zip/Compress/RangeCoderBit.h:46-69 | A stream narrowed by one step was in the wide interval, below the bound exactly for symbol 0 |
| `RangeCoderBit.BitDecoder.Decode` | p7zip_9.20.1/CPP/7zip/Compress/RangeCoderBit.h:83-109 | On every stream, from every state and for every moveBits: the answer is 0 exactly when Code is below Range / 2048 * Prob; Range and Prob change by the same amounts as in the encoder for that answer |
| `RangeCoderBit.BandKept` | p7zip_9.20.1/CPP/7zip/Compress/RangeCoderBit.h:27-37 | Prob never leaves [2^m - 1, 2048 - (2^m - 1)], m being moveBits or 10 if that is less, whatever the symbol |
| `RangeCoderBit.BandLimits` | p7zip_9.20.1/CPP/7zip/Compress/Bcj2Coder.h:15 | With moveBits 5, Prob stays in [31, 2017]; from 4 on, in [15, 2033] |
| `RangeCoderBit.OneShiftExact` | p7zip_9.20.1/CPP/7zip/Compress/RangeCoderBit.h:64-68 | One conditional shift restores Range >= 2^24 for every Range and symbol if and only if 8 <= Prob <= 2040 |
| `OneModelRuns.IfReplacesWhileExact` | p7zip_9.20.1/CPP/7zip/Compress/RangeCoderBit.h:46-109 | At every step of every run with one model, from Range 0xFFFFFFFF and Prob 1024, one shift suffices if and only if moveBits is at least 4 |
| `OneModelRuns.RunThatNeedsTwoShifts` | p7zip_9.20.1/CPP/7zip/Compress/RangeCoderBit.h:46-69 | For each moveBits below 4, a run after which the next symbol leaves less than 2^16 of Range |
| `AdaptiveRuns.OneModelRun` | p7zip_9.20.1/CPP/7zip/Compress/RangeCoderBit.h:46-109 | The range and probability of such a run are those that the coders reach |
| `OneModelRuns.After` | p7zip_9.20.1/CPP/7zip/Compress/RangeCoderBit.h:27-39 | The probability after any history is in the band |
| `OneModelRuns.EqualSymbols` | p7zip_9.20.1/CPP/7zip/Compress/RangeCoderBit.h:33-36 | For moveBits up to 10, after any history enough equal symbols bring Prob to exactly 2^moveBits - 1 or 2048 less that, and more leave it there |
| `OneModelRuns.FiveMoveBits` | p7zip_9.20.1/CPP/7zip/Compress/Bcj2Coder.h:15 | With moveBits 5 these are 31 and 2017 |
| `QuantumRuns.DecodeRun` | p7zip_9.20.1/CPP/7zip/Compress/QuantumDecoder.h:146-192 | On every bit stream, with the model of each symbol picked from the symbols before it: the symbols returned are the one message of that length whose interval holds the stream, and every model is the one that message leads to |
| `QuantumRuns.MessageHasStream` | p7zip_9.20.1/CPP/7zip/Compress/QuantumDecoder.h:99-119 | Every message over the alphabets narrows to an interval that some byte stream lies in, so the decoder returns it on that stream |
| `QuantumRuns.Decompress` | p7zip_9.20.1/CPP/7zip/Compress/QuantumDecoder.h:134-192 | From freshly initialised models and range decoder, a stream of a message gives exactly that message |
| `QuantumRuns.Scheme.OneMessage` | p7zip_9.20.1/CPP/7zip/Compress/QuantumDecoder.h:94-103 | No stream lies in the intervals of two different messages of one length |
| `QuantumRuns.DecodeNext` | p7zip_9.20.1/CPP/7zip/Compress/QuantumDecoder.h:146-152 | One symbol keeps range decoder and all models in step with the message so far |
| `QuantumRuns.MessageInUnit` | p7zip_9.20.1/CPP/7zip/Compress/QuantumDecoder.h:99-119 | No interval ever leaves the numbers that the bits read can denote |
| `QuantumModel.ModelDecoder.Decode` | p7zip_9.20.1/CPP/7zip/Compress/QuantumDecoder.h:146-192 | The symbol is the one whose share of the interval holds the stream and no other share does; the interval narrows to that share with 0 <= Code < Range; if the old sum plus 8 is at most 3800, exactly its own frequency is 8 larger and all else is as before; otherwise the table is halved or sorted as Adapt says |
| `QuantumModel.ModelDecoder.DecodeIndex` | p7zip_9.20.1/CPP/7zip/Compress/QuantumDecoder.h:148-151 | The linear search finds a nonempty share that holds the stream, and the range decoder narrows to it |
| `QuantumModel.ModelDecoder.Adapt` | p7zip_9.20.1/CPP/7zip/Compress/QuantumDecoder.h:153-190 | On the arrays, for the symbol at place k: its own frequency grows by 8 and no other changes; or, when the sum would exceed 3800, the table becomes the least strictly decreasing one that is at least half of the grown one, with the reorder count one less; or, when that count was 1, own frequencies are halved, rounding up, and sorted with their letters, and the count is 50 |
| `QuantumTables.NextIs` | p7zip_9.20.1/CPP/7zip/Compress/QuantumDecoder.h:153-190 | The same of the value that the next model is computed to be |
| `QuantumModel.ModelDecoder.Init` | p7zip_9.20.1/CPP/7zip/Compress/QuantumDecoder.h:134-144 | On the arrays: frequencies n down to 0, letters 0 to n - 1, reorder count 4 |
| `QuantumModel.ModelDecoder.Halve` | p7zip_9.20.1/CPP/7zip/Compress/QuantumDecoder.h:181-188 | The in-place pass from the right computes the halved table |
| `QuantumModel.ModelDecoder.Sort` | p7zip_9.20.1/CPP/7zip/Compress/QuantumDecoder.h:164-174 | The nested exchange loops, values moving along, compute the exchange sort, ties included |
| `QuantumModel.ModelDecoder.Reorder` | p7zip_9.20.1/CPP/7zip/Compress/QuantumDecoder.h:162-177 | De-accumulate, sort, re-accumulate in place is the reordered table with its letters |
| `QuantumModel.EveryShare` | p7zip_9.20.1/CPP/7zip/Compress/QuantumDecoder.h:101-103 | In a settled interval every symbol of every valid model has a nonempty share |
| `QuantumModel.ThresholdFindsShare` | p7zip_9.20.1/CPP/7zip/Compress/QuantumDecoder.h:148-151 | Frequencies around the threshold select a nonempty share, and a stream narrowed to any share was narrowed to this one |
| `QuantumTables.NextOk` | p7zip_9.20.1/CPP/7zip/Compress/QuantumDecoder.h:146-190 | The invariant over all runs: frequencies strictly decreasing to 0, first one at most 3800, alphabet a permutation of 0..n-1, reorder count positive |
| `QuantumTables.HalvedIsLeastTable` | p7zip_9.20.1/CPP/7zip/Compress/QuantumDecoder.h:181-188 | Halving gives the pointwise least strictly decreasing table that is nowhere below half the old one |
| `QuantumTables.ReorderedIsTable` | p7zip_9.20.1/CPP/7zip/Compress/QuantumDecoder.h:162-177 | After the sort the table is strictly decreasing, own frequencies are non-increasing, each symbol has half its share rounded up, twice the new sum is at most the old one plus n, and the letters are permuted |
| `QuantumTables.SortedIsSorted` | p7zip_9.20.1/CPP/7zip/Compress/QuantumDecoder.h:164-174 | The exchange sort yields a non-increasing permutation of symbol and frequency pairs |
| `QuantumTables.PassExact` | p7zip_9.20.1/CPP/7zip/Compress/QuantumDecoder.h:165-174 | Among equal frequencies: a pass moves the first of the largest to the front, and each earlier leader to where it was overtaken |
| `QuantumTables.TotalOfPermutation` | p7zip_9.20.1/CPP/7zip/Compress/QuantumDecoder.h:164-177 | Reordering does not change the sum of the frequencies |
| `QuantumRange.Decoder.Decode` | p7zip_9.20.1/CPP/7zip/Compress/QuantumDecoder.h:99-119 | For a threshold inside [start, end): Code lies in the part from start * Range / total to end * Range / total; that part, with its low end, is doubled bit by bit until the 16-bit registers straddle the middle and reach an outer quarter; 0 <= Code < Range, and Range ends at 0x4002 or more |
| `QuantumRange.Decoder.GetThreshold` | p7zip_9.20.1/CPP/7zip/Compress/QuantumDecoder.h:94-97 | The quotient of (Code + 1) * total - 1 by Range |
| `QuantumRange.SettleExact` | p7zip_9.20.1/CPP/7zip/Compress/QuantumDecoder.h:105-118 | Settling multiplies low end and width by the same power of two, one bit read for each factor |
| `QuantumRange.Decoder.Double` | p7zip_9.20.1/CPP/7zip/Compress/QuantumDecoder.h:105-117 | One pass of the loop stops exactly on a settled interval and otherwise takes in one bit and doubles it |
| `QuantumRange.RegisterStep` | p7zip_9.20.1/CPP/7zip/Compress/QuantumDecoder.h:107-115 | The masks and shifts on Low and high: they stop exactly on a settled interval, and otherwise high - Low + 1 doubles exactly, underflow included |
| `QuantumRange.Settle` | p7zip_9.20.1/CPP/7zip/Compress/QuantumDecoder.h:105-118 | Renormalising ends on an interval of at least 0x4002 |
| `QuantumRange.ThresholdExact` | p7zip_9.20.1/CPP/7zip/Compress/QuantumDecoder.h:94-97 | cum <= threshold if and only if cum * Range / total <= Code |
| `QuantumRange.ThresholdPicks` | p7zip_9.20.1/CPP/7zip/Compress/QuantumDecoder.h:94-103 | The threshold lies in [start, end) if and only if Code lies in the part that Decode keeps for it |
| `QuantumRange.ThresholdBelowTotal` | p7zip_9.20.1/CPP/7zip/Compress/QuantumDecoder.h:94-97 | With Code < Range the threshold is below the total |
| `QuantumRange.NarrowHolds` | p7zip_9.20.1/CPP/7zip/Compress/QuantumDecoder.h:94-119 | A stream in the narrowed and settled interval was in the wide one, with its threshold in the symbol's frequencies |
| `QuantumRange.Decoder.Finish` | p7zip_9.20.1/CPP/7zip/Compress/QuantumDecoder.h:84-90 | Two further bits are taken and the rest of the byte is dropped |
| `QuantumBits.StreamBitDecoder.ReadBit` | p7zip_9.20.1/CPP/7zip/Compress/QuantumDecoder.h:37-44 | Each call delivers the next bit, most significant of each byte first; the sentinel refills exactly every eight bits |
| `QuantumBits.StreamBitDecoder.ReadBits` | p7zip_9.20.1/CPP/7zip/Compress/QuantumDecoder.h:46-53 | The next bits as one number |
| `HuffmanDecoder.Decoder.SetCodeLengths` | p7zip_9.20.1/CPP/7zip/Compress/HuffmanDecoder.h:23-66 | Accepts if and only if every length fits kNumBitsMax and every symbol with a length has a codeword of RFC 1951 below 2^length; equivalently the Kraft sum is at most 2^kNumBitsMax; then limits, positions, symbols and the fast table describe the canonical code |
| `HuffmanDecoder.Decoder.DecodeSymbol` | p7zip_9.20.1/CPP/7zip/Compress/HuffmanDecoder.h:69-84 | On every stream: a window that starts with a symbol's canonical codeword gives that symbol and advances by its length; a window that starts with none gives 0xFFFFFFFF and advances by kNumBitsMax |
| `HuffmanDecoder.Decoder.NoSymbolExact` | p7zip_9.20.1/CPP/7zip/Compress/HuffmanDecoder.h:78-83 | 0xFFFFFFFF is returned if and only if no codeword is a prefix of the window |
| `HuffmanDecoder.Decoder.FindLength` | p7zip_9.20.1/CPP/7zip/Compress/HuffmanDecoder.h:71-76 | Fast table and linear search find the least length whose limit lies above the value, and the search stops by kNumBitsMax |
| `HuffmanDecoder.Decoder.FastExact` | p7zip_9.20.1/CPP/7zip/Compress/HuffmanDecoder.h:52-57 | For lengths up to 9, comparing the top 9 bits with the scaled limit is the same as comparing the value with the limit |
| `HuffmanDecoder.Decoder.FastLookup` | p7zip_9.20.1/CPP/7zip/Compress/HuffmanDecoder.h:73-74 | The table entry of the top 9 bits is the length that the full search defines |
| `HuffmanDecoder.Decoder.FoundUnique` | p7zip_9.20.1/CPP/7zip/Compress/HuffmanDecoder.h:73-76 | There is only one such length |
| `HuffmanDecoder.Decoder.CodewordFound` | p7zip_9.20.1/CPP/7zip/Compress/HuffmanDecoder.h:73-83 | A value starting with the codeword of s is found at the length of s, at the rank of s among that length |
| `HuffmanDecoder.Decoder.FoundIsCodeword` | p7zip_9.20.1/CPP/7zip/Compress/HuffmanDecoder.h:73-83 | A found rank below the number of codes of its length is some symbol's codeword |
| `HuffmanDecoder.Decoder.NoCodewordMeansLongest` | p7zip_9.20.1/CPP/7zip/Compress/HuffmanDecoder.h:49 | Values that start with no codeword are found at the longest length only, beyond all its codes |
| `HuffmanDecoder.Decoder.SlotFree` | p7zip_9.20.1/CPP/7zip/Compress/HuffmanDecoder.h:59-64 | Every coded symbol has its own place in m_Symbols, inside the array |
| `HuffmanDecoder.Decoder.StaysInWord` | p7zip_9.20.1/CPP/7zip/Compress/HuffmanDecoder.h:46-48 | startPos cannot wrap 32 bits before it is compared |
| `HuffmanCodes.TakenIsKraft` | p7zip_9.20.1/CPP/7zip/Compress/HuffmanDecoder.h:44-48 | The running sum of the length loop is the Kraft sum over the symbols |
| `HuffmanCodes.FirstCodeTaken` | p7zip_9.20.1/CPP/7zip/Compress/HuffmanDecoder.h:46-49 | The first code of a length, by section 3.2.2 of RFC 1951, is the limit of the shorter lengths |
| `HuffmanCodes.StartsWithExact` | p7zip_9.20.1/CPP/7zip/Compress/HuffmanDecoder.h:78-83 | A window starts with the codeword of s if and only if it lies in the slice of the length of s at the rank of s |
| `HuffmanCodes.FeasibleExact` | p7zip_9.20.1/CPP/7zip/Compress/HuffmanDecoder.h:44-48 | All lengths fit and the Kraft sum is at most one if and only if all lengths and all codewords fit |
| `HuffmanCodes.CodewordExact` | p7zip_9.20.1/CPP/7zip/Compress/HuffmanDecoder.h:46-50 | A codeword begins in the code space exactly where the symbols before it end: the shorter ones, and those of its length with a lower number |
| `HuffmanCodes.CodewordFits` | p7zip_9.20.1/CPP/7zip/Compress/HuffmanDecoder.h:44-48 | Under an accepted set of lengths every codeword fits its length |
| `HuffmanRuns.RoundTrip` | p7zip_9.20.1/CPP/7zip/Compress/HuffmanDecoder.h:23-84 | A whole message written with the canonical codewords through the MSB-first writer is decoded back symbol by symbol, using exactly the bytes written |
| `HuffmanLsbRuns.RoundTrip` | p7zip_9.20.1/CPP/7zip/Compress/HuffmanDecoder.h:69-84 | The same through the LSB-first writer and reader with reversed codewords, the packing of section 3.1.1 of RFC 1951; no bits past the end are used |
| `HuffmanDecoder.Decoder.DecodeSymbolLsb` | p7zip_9.20.1/CPP/7zip/Compress/HuffmanDecoder.h:69-84 | The template on the LSB-first reader: the reversed view of the next bits decodes as the MSB-first window does |
| `LsbBits.ReversedField` | p7zip_9.20.1/CPP/7zip/Compress/BitlDecoder.h:97-101 | The reversed view of a longer window starts with the reversed view of a shorter one |
| `Mtf8.RoundTrip` | p7zip_9.20.1/CPP/7zip/Compress/Mtf8.h:12-114 | From equal tables, for every byte sequence over the table, in both word sizes: the positions are those of each byte in the table of that moment, decoding them returns the bytes, and the encoder's array and the decoder's words end as the first table with all bytes moved, a permutation of it |
| `Mtf8.Encoder.FindAndMove` | p7zip_9.20.1/CPP/7zip/Compress/Mtf8.h:16-36 | The position is the first of the byte, and the unrolled shift is move-to-front of the whole list |
| `Mtf8.TableAfter` | p7zip_9.20.1/CPP/7zip/Compress/Mtf8.h:16-36 | The table after any bytes is a permutation of the first one |
| `Mtf8.Decoder.HoldsExact` | p7zip_9.20.1/CPP/7zip/Compress/Mtf8.h:81-84 | Every buffer of words below the word size holds a table, and no other |
| `Mtf8.Decoder.GetHead` | p7zip_9.20.1/CPP/7zip/Compress/Mtf8.h:85 | The first entry of the table |
| `Mtf8.Decoder.GetAndMove` | p7zip_9.20.1/CPP/7zip/Compress/Mtf8.h:86-113 | On every buffer, for both word sizes and either parity of lim: the whole unpacked table becomes move-to-front of the old one, and the byte is returned |
| `Mtf8.Decoder.MoveWords` | p7zip_9.20.1/CPP/7zip/Compress/Mtf8.h:92-109 | The words before the found one, one at first if odd in number and then two by two, each move up one byte with the carry handed on |
| `Mtf8.Decoder.MoveLast` | p7zip_9.20.1/CPP/7zip/Compress/Mtf8.h:109-112 | In the last word only the bytes up to the found one move |
| `Mtf8.Decoder.Add` | p7zip_9.20.1/CPP/7zip/Compress/Mtf8.h:84 | On every buffer: the entry is or-ed with the value (so a zero entry becomes the value), and no other entry changes |
| `Mtf8.Decoder.StartInit` | p7zip_9.20.1/CPP/7zip/Compress/Mtf8.h:83 | All entries zero |
| `Mtf8.Decoder.MaskIs` | p7zip_9.20.1/CPP/7zip/Compress/Mtf8.h:110 | The mask arithmetic, wrapping for the last byte of a word, gives all ones below byte k + 1 |
| `Mtf8.PushedBytes` | p7zip_9.20.1/CPP/7zip/Compress/Mtf8.h:95-107 | A shifted word with p in its low byte in a word moves every byte up by one and puts p below |
| `Mtf8.BlendedBytes` | p7zip_9.20.1/CPP/7zip/Compress/Mtf8.h:111 | The masked blend takes the low bytes from one word and the others from the other |
| `Words.OrBit` | p7zip_9.20.1/CPP/7zip/Compress/Mtf8.h:84-111 | A bit of the bitwise or of x and y is set exactly when that of x or that of y is |
| `Words.AndBit` | p7zip_9.20.1/CPP/7zip/Compress/Mtf8.h:110-111 | A bit of the bitwise and of x and y is set exactly when those of x and y are |
| `Mtf8.MoveToFrontPermutes` | p7zip_9.20.1/CPP/7zip/Compress/Mtf8.h:16-36 | Moving to the front permutes the table |
| `BitlRuns.RoundTrip` | p7zip_9.20.1/CPP/7zip/Compress/BitlEncoder.h:30-54 | Any mix of bit fields (any value, widths up to 25) and byte-aligned bytes, written and flushed, is read back by ReadBits and AlignToByte with ReadByte; exactly the bytes written are processed and no extra bits are reported |
| `BitlRuns.RoundTripBase` | p7zip_9.20.1/CPP/7zip/Compress/BitlDecoder.h:39-67 | The plain reader reads every run of bit fields back |
| `BitlCoders.Encoder.WriteBits` | p7zip_9.20.1/CPP/7zip/Compress/BitlEncoder.h:37-53 | Appends the low numBits bits of any value, least significant first, with the 32-bit shift and byte truncation of the source |
| `BitlCoders.Encoder.FlushByte` | p7zip_9.20.1/CPP/7zip/Compress/BitlEncoder.h:30-36 | Completes the last byte with zero bits; the size is the processed size announced before |
| `BitlCoders.Encoder.WriteByte` | p7zip_9.20.1/CPP/7zip/Compress/BitlEncoder.h:54 | Puts a byte before any pending bits, hence in order exactly where none are pending |
| `BitlCoders.BaseDecoder.ReadBits` | p7zip_9.20.1/CPP/7zip/Compress/BitlDecoder.h:53-60 | On every stream, bit k of the result is that of the bytes at the position plus k, least significant bit of each byte first, and 1 past their end; wholly past the end the result is 2^numBits - 1 |
| `BitlCoders.Decoder.GetValue` | p7zip_9.20.1/CPP/7zip/Compress/BitlDecoder.h:97-101 | Those bits with the first one most significant: always the reversal of the next bits, and of the low bits of m_NormalValue |
| `BitlCoders.Decoder.LoadByte` | p7zip_9.20.1/CPP/7zip/Compress/BitlDecoder.h:84-94 | One byte goes above m_NormalValue and its reversal below m_Value, keeping both views of the waiting bits |
| `BitlCoders.Decoder.ReadBits` | p7zip_9.20.1/CPP/7zip/Compress/BitlDecoder.h:109-115 | The same for the reader with two registers |
| `BitlCoders.Decoder.MovePos` | p7zip_9.20.1/CPP/7zip/Compress/BitlDecoder.h:103-107 | Moves both views past waiting bits; the reader stays valid if and only if that many wait |
| `BitlCoders.Decoder.AlignToByte` | p7zip_9.20.1/CPP/7zip/Compress/BitlDecoder.h:117 | Moves to the next byte boundary, where ReadByte may follow |
| `BitlCoders.Decoder.ReadByte` | p7zip_9.20.1/CPP/7zip/Compress/BitlDecoder.h:119-136 | The next eight bits, from the register or directly from the stream when the register is empty, and 0xFF past the end; with one to seven bits waiting, those bits and zeros, and the reader is no longer valid (if and only if) |
| `BitlCoders.Cursor.ExtraBitsWereRead` | p7zip_9.20.1/CPP/7zip/Compress/BitlDecoder.h:62-67 | True if and only if more bits were consumed than the stream holds |
| `BitlCoders.Cursor.GetProcessedSize` | p7zip_9.20.1/CPP/7zip/Compress/BitlDecoder.h:37 | The consumed bits divided by eight, rounded up |
| `BitlCoders.Cursor.NextByte` | p7zip_9.20.1/CPP/7zip/Compress/BitlDecoder.h:43-48 | The next byte, or 0xFF past the end, counted |
| `LsbBits.FieldByte` | p7zip_9.20.1/CPP/7zip/Compress/BitlDecoder.h:49-58 | Eight bits from a byte boundary are the byte |
| `LsbBits.UnpackedAt` | p7zip_9.20.1/CPP/7zip/Compress/BitlEncoder.h:37-53 | The bits of written bytes are those that a reader finds, one by one |
| `LsbBits.MirrorField` | p7zip_9.20.1/CPP/7zip/Compress/BitlDecoder.h:93-100 | Reading the byte-reversed stream most significant bit first gives the reversed fields |
| `LsbBits.ReversedTwice` | p7zip_9.20.1/CPP/7zip/Compress/BitlDecoder.h:97-101 | Reversing twice gives the bits back |
| `BitmRuns.SameBytes` | p7zip_9.20.1/CPP/7zip/Compress/BZip2Encoder.h:49-69 | The stream writer and the in-memory writer, given the same calls, produce the same bytes, as many as the bits need, even for values wider than their widths |
| `BitmRuns.WriteAndTakeBack` | p7zip_9.20.1/CPP/7zip/Compress/BZip2Encoder.h:71-83 | The position and byte register of a moment, given back by SetPos and SetCurState after any writes, bring back the bits of that moment |
| `BitmRuns.RoundTrip` | p7zip_9.20.1/CPP/7zip/Compress/BitmDecoder.h:27-59 | Reading the widths back (up to 24) gives the values, whatever the register held at first, and the processed size is the number of bytes written |
| `BitmCoders.Encoder.WriteBits` | p7zip_9.20.1/CPP/7zip/Compress/BitmEncoder.h:31-47 | For every value: appends its low numBits bits, most significant first, and or-s what the value has above them into the bits still pending |
| `BitmCoders.WrittenFits` | p7zip_9.20.1/CPP/7zip/Compress/BitmEncoder.h:31-47 | A value below 2^numBits leaves the pending bits alone |
| `BitmCoders.Encoder.Flush` | p7zip_9.20.1/CPP/7zip/Compress/BitmEncoder.h:25-30 | Completes the last byte with zero bits; the size is the processed size announced before |
| `BitmCoders.TempEncoder.WriteBits` | p7zip_9.20.1/CPP/7zip/Compress/BZip2Encoder.h:49-69 | The same, for every value, for the in-memory writer, whose byte register keeps leftovers above the pending bits; stored bytes stay |
| `BitmCoders.TempEncoder.Flush` | p7zip_9.20.1/CPP/7zip/Compress/BZip2Encoder.h:43-47 | Completes the last byte with zero bits |
| `BitmCoders.TempEncoder.SetPos` | p7zip_9.20.1/CPP/7zip/Compress/BZip2Encoder.h:74-78 | GetPos then is that bit position, and the byte register stays |
| `BitmCoders.TempEncoder.SetCurState` | p7zip_9.20.1/CPP/7zip/Compress/BZip2Encoder.h:79-83 | The position in the byte and the byte register are those given |
| `BitmCoders.Decoder.GetValue` | p7zip_9.20.1/CPP/7zip/Compress/BitmDecoder.h:42-46 | The next numBits bits of the stream as a number |
| `MsbBits.PrefixBytes` | p7zip_9.20.1/CPP/7zip/Compress/BitmDecoder.h:36-46 | The bits of the first n bytes, as one number, are those bytes, most significant first |
| `MsbBits.UnpackedAt` | p7zip_9.20.1/CPP/7zip/Compress/BitmEncoder.h:31-47 | The bits of written bytes are those that a reader finds, one by one |
| `BitmCoders.Decoder.Init` | p7zip_9.20.1/CPP/7zip/Compress/BitmDecoder.h:27-32 | Four bytes push the uninitialised register value out |
| `BitmCoders.Decoder.ReadBits` | p7zip_9.20.1/CPP/7zip/Compress/BitmDecoder.h:54-59 | The next bits, and the position moves past them |
| `BitmCoders.Decoder.AlignToByte` | p7zip_9.20.1/CPP/7zip/Compress/BitmDecoder.h:61 | Moves to the next byte boundary |
| `BitmCoders.Decoder.GetProcessedSize` | p7zip_9.20.1/CPP/7zip/Compress/BitmDecoder.h:34 | The consumed bits divided by eight, rounded up |
| `Rar3Window.Window.CopyBlock` | p7zip_9.20.1/CPP/7zip/Compress/Rar3Decoder.h:229-253 | Fast and wrapping path alike append len times the byte distance + 1 back in the unbounded history (for distances below 2^22, and modulo that for others), overlaps included, and the window holds the latest bytes |
| `Rar3Window.Window.PutByte` | p7zip_9.20.1/CPP/7zip/Compress/Rar3Decoder.h:255-260 | Appends one byte to the history |
| `Rar3Window.Window.CopyStraight` | p7zip_9.20.1/CPP/7zip/Compress/Rar3Decoder.h:235-244 | The fast loop where neither end wraps |
| `Rar3Window.Window.CopyWrapping` | p7zip_9.20.1/CPP/7zip/Compress/Rar3Decoder.h:245-252 | The masked loop |
| `Rar3Window.SourceSlot` | p7zip_9.20.1/CPP/7zip/Compress/Rar3Decoder.h:232 | The masked 32-bit difference is the slot of the byte distance + 1 back |
| `Lz77.CopiedIsPeriodic` | p7zip_9.20.1/CPP/7zip/Compress/Rar3Decoder.h:229-253 | A copy repeats the last distance + 1 bytes periodically, even when source and destination overlap |
| `LzOutWindow.OutWindow.CopyBlock` | p7zip_9.20.1/CPP/7zip/Compress/LzOutWindow.h:20-48 | Fails if and only if the distance reaches before the first byte or beyond the buffer, and then changes nothing; otherwise appends the LZ77 copy, through any number of flushes |
| `LzOutWindow.OutWindow.PutByte` | p7zip_9.20.1/CPP/7zip/Compress/LzOutWindow.h:50-55 | Appends one byte; what was written out stays |
| `LzOutWindow.OutWindow.GetByte` | p7zip_9.20.1/CPP/7zip/Compress/LzOutWindow.h:57-63 | For every distance inside history and buffer: the byte distance + 1 back, or, as the index wraps in 32 bits, the one at the smaller distance that ReachedDistance gives |
| `LzOutWindow.GetByteExact` | p7zip_9.20.1/CPP/7zip/Compress/LzOutWindow.h:57-63 | The distance reached is the one asked for if and only if it is below _pos or the wrapped difference is at least the buffer size; with buffers up to 2^31 it always is |
| `LzOutWindow.GetByteFails` | p7zip_9.20.1/CPP/7zip/Compress/LzOutWindow.h:57-63 | A full window of 3 * 2^30 bytes: asked for the byte 2^31 + 1 back, it gives the one 2^30 + 1 back |
| `MyVector.RecordVector.Sort` | p7zip_9.20.1/CPP/Common/MyVector.h:150-170 | For every total preorder, an ordered permutation |
| `MyVector.RecordVector.SortRefDown` | p7zip_9.20.1/CPP/Common/MyVector.h:132-148 | From a heap with one violation at k, a heap, permuting the first size elements only |
| `MyVector.RecordVector.PopLargest` | p7zip_9.20.1/CPP/Common/MyVector.h:162-169 | One pass puts the largest behind the heap and restores the heap |
| `MyVector.RootIsLargest` | p7zip_9.20.1/CPP/Common/MyVector.h:150-170 | The root of a heap is a largest element |
| `MyVector.PopDone` | p7zip_9.20.1/CPP/Common/MyVector.h:162-169 | Any sifting after the exchange at the root keeps the sorted tail above the rest |
| `MyVector.SiftStep` | p7zip_9.20.1/CPP/Common/MyVector.h:134-147 | Moving the larger child up keeps a heap with one hole, now at the child |
| `MyVector.SiftDone` | p7zip_9.20.1/CPP/Common/MyVector.h:142-147 | The element in the hole, no child being larger, makes it a heap |
| `MyVector.RecordVector.FindInSorted` | p7zip_9.20.1/CPP/Common/MyVector.h:97-112 | An index of the item, or -1 if and only if it is not there |
| `MyVector.RecordVector.FindInSortedRange` | p7zip_9.20.1/CPP/Common/MyVector.h:81-95 | The same in a range |
| `MyVector.RecordVector.AddToUniqueSorted` | p7zip_9.20.1/CPP/Common/MyVector.h:114-130 | Stays strictly increasing; inserts exactly when the item is not there; the result is its index |
| `MyVector.RecordVector.AddToSorted` | p7zip_9.20.1/CPP/Common/MyVector.h:237-256 | Inserts at the result and stays sorted |
| `NodeTree.Node.Insert` | fuse-7z-node.cpp:29-63 | Creates exactly the nodes of the path's component prefixes that were missing, directories except for the last, keeps all others, returns the path's node, and cuts the buffer at its slashes |
| `NodeTree.InsertAll` | fuse-7z-node.cpp:29-63 | After any inserts the tree holds the root and exactly the component prefixes of the paths, one node each |
| `NodeTree.FindInserted` | fuse-7z-node.cpp:75-114 | find returns the node that insert returned if and only if the path does not end in an empty component and its components before the last fit the buffer; it overruns if and only if they do not |
| `NodeTree.FindAny` | fuse-7z-node.cpp:75-114 | Unless it overruns its buffer, find is NULL if and only if the path's names are no component prefix of an inserted path; it is the root exactly for the empty path |
| `NodeTree.FindFullname` | fuse-7z-node.cpp:65-73 | root.find(n.fullname()) is n if and only if n's own name is not empty and the names above it are shorter than the buffer, for every node but the root |
| `NodeTree.TrailingSlash` | fuse-7z-node.cpp:29-114 | Inserting the path a/ makes a nameless node below a, and find returns a instead, for the path and for that node's full name |
| `NodeTree.OverrunOfNode` | fuse-7z-node.cpp:88-94 | For the path of a node in the tree, find overruns its buffer if and only if a component before the last has 255 characters or more |
| `NodeTree.FittingPath` | fuse-7z-node.cpp:88-94 | A path without such a component never overruns it, whatever the tree |
| `NodeTree.ShortNames` | fuse-7z-node.cpp:88-94 | Components of up to 254 characters never overrun it |
| `NodeTree.FitsBufferExact` | fuse-7z-node.cpp:88-94 | The check along the path and the check on its components are the same |
| `NodeTree.LongName` | fuse-7z-node.cpp:75-114 | A name of 255 characters before a slash overruns the buffer, but not behind a missing component |
| `NodeTree.DifferentNodes` | fuse-7z-node.cpp:29-63 | Different paths have different nodes |
| `NodeTree.NamesInjective` | fuse-7z-node.cpp:15-63 | No two nodes of the tree have the same names from the root |
| `NodeTree.Ancestor` | fuse-7z-node.cpp:15-63 | With a node, all nodes on the way to it are in the tree |
| `NodeTree.NothingBelow` | fuse-7z-node.cpp:92-113 | A node without a child s has nothing below s |
| `NodeTree.Node.Find` | fuse-7z-node.cpp:75-114 | For every path: the node reached by its names, or NULL when there is none, or an overrun of the 255-byte buffer, exactly when a component too long is met on the way down existing children |
| `NodeTree.Node.Fullname` | fuse-7z-node.cpp:65-73 | The names from the root joined by slashes; the root gives its own name |
| `NodeTree.Node.CutAtSlash` | fuse-7z-node.cpp:31-39 | The scan cuts the string at its first slash and leaves the position behind it |
| `NodeTree.Node.AllCut` | fuse-7z-node.cpp:29-39 | After all of insert's cuts every slash of the path string is a NUL, and nothing else in the buffer has changed |
| `NodeTree.Node.CutString` | fuse-7z-node.cpp:31-39 | The two strings in the cut buffer are what stood before and behind the slash |
| `PathNames.FindNamesExact` | fuse-7z-node.cpp:75-114 | find and insert split paths alike but for a trailing empty component |
| `PathNames.ComponentsOfJoin` | fuse-7z-node.cpp:65-73 | Splitting undoes joining |
| `PathNames.JoinOfComponents` | fuse-7z-node.cpp:65-73 | Joining undoes splitting |
| `PathNames.ComponentsInjective` | fuse-7z-node.cpp:29-63 | Different paths have different components |

## Left out

- Stream refill and flush (`CInBuffer`, `COutBuffer` and their .cpp files are not part of this model): an input stream is a byte sequence followed by an unchanging pad byte, an output stream a growing byte sequence.
- LzOutWindow.OutWindow.FlushWithCheck: its body is not part of the headers, so its contract is assumed to be drain, start over and set `_overDict` at the buffer's end, and set some new limit; the body given here is one that meets it.
- RangeEncoder.Encoder.ShiftLow: `_cacheSize` is unbounded here, a UInt32 in the source, so runs of 2^32 pending 0xFF bytes are not modelled. `Low` is an unbounded number, proved to stay at or below 2^33.
- RangeDecoder.Decoder.Decode: takes the total and the interval before GetThreshold as ghost arguments, and `start` and `size` from the caller, whose frequency table is not part of RangeCoder.h.
- RangeCoderBit.BitEncoder.Encode: requires the symbol's part of Range not to be empty; with an empty part, which AlwaysWide excludes for moveBits of at least 4, Range becomes 0 and the coder's later output is not modelled.
- AdaptiveRuns.AdaptiveRoundTrip: the same condition, for every step of the run.
- `GetPrice`, `GetPrice0`, `GetPrice1` and the `ProbPrices` table.
- QuantumModel.ModelDecoder.Init: requires 1 to 64 symbols, which the fixed arrays demand; the LZ layer that calls the Quantum models is not in the headers.
- HuffmanDecoder.Decoder.SetCodeLengths: the template parameters are bounded as the bit readers demand (kNumBitsMax from 9 to 24, and m_NumSymbols << (kNumBitsMax - 1) below 2^31); the temporary arrays of the source are heap arrays here.
- HuffmanDecoder.Decoder.DecodeSymbol: the template is instantiated twice, for the MSB-first reader and, as DecodeSymbolLsb, for the LSB-first one.
- HuffmanRuns.RoundTrip: the encoding side, which is not in the headers, is one WriteBits call per codeword; so it is in HuffmanLsbRuns.RoundTrip.
- Mtf8.Encoder.FindAndMove: requires the byte to be in the table, as the source's unbounded search does.
- BitlCoders.Decoder.GetValue: `kInvertTable` is defined in a .cpp file that is not part of this model and is taken to hold the reversed bytes.
- BitlCoders.Cursor.NextByte: NumExtraBytes does not wrap.
- BitmCoders.Encoder.WriteBits: shifts by 32 or more yield zero here and are undefined in C++.
- BitmRuns.RoundTrip: values below 2^width, as widths are for; what wider ones do is stated by WriteBits.
- BitmCoders.TempEncoder.WriteBits: requires room in the buffer, whose size the source does not know.
- Rar3Window.Window.CopyBlock: requires len >= 1, as the do-while loops do; `_lzSize` does not wrap.
- LzOutWindow.OutWindow.CopyBlock: the `solid` initialisation that keeps an old window is not modelled.
- The carryless range coder, filters, virtual machine and PPM parts of `Rar3Decoder.h`, whose surrounding operations are not in the header.
- MyVector.RecordVector.Sort: the elements are a sequence; capacity, allocation and the one-based view of the array are not modelled, and `compare` is a pure function without its `param`.
- MyVector.RecordVector.AddToSorted: CObjectVector's elements are values here, not heap objects that the vector owns.
- NodeTree.Node.Find: an overrun of the 255-byte buffer, undefined in C++, is an outcome of its own here.
- BitlCoders.Decoder.MovePos: past the waiting bits the source shifts by a negative count; only that the reader is no longer valid is modelled.
- NodeTree.Node.Insert: allocation, the inode counter, `stat` and `open_count` are left out, and so is the destructor; `is_dir` is what insert itself sets.
- The FUSE callbacks, option parsing, logging, plugin loading and archive engine of the repository, and the headers of p7zip that only declare functions.
