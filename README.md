# file-sorter in Dafny

A model of the core of file-sorter, a C# external sorter for text files whose lines read
`<number>. <payload>` followed by CRLF. Lines are ordered by payload bytes, then by number.

The sorter works in two stages.

- **Chunk pass.** It maps a chunk of the input into memory. `ReadLines` scans the chunk
  byte by byte. Each line gets a compact key (`FileItem`: the number, a packed prefix of
  payload bytes 1 to 4, and the position of payload byte 5, counting payload bytes from 0). The key goes into one of 256
  buckets, chosen by the first payload byte. `OffsetComparer` sorts each bucket.
  `WriteSortedLists` writes the buckets back out as lines of a run file.
- **Merge pass.** `ExternalMerge` merges two sorted run files into a new temporary file.
  It streams them line by line and compares payloads with `BufferCmp`.

The model follows the C# code as written. Where the code departs from the order the
merge relies on, the model says so in a lemma (see "Findings"). It also gives a corrected
chunk comparer and writer, and proves what they achieve.

Modules:

- `Bytes`: the C# `int`/`uint` widths, written out with explicit wrap-around. Also
  decimal text and big-endian packing.
- `Lines`: the line format and its encoding.
- `Streams`: the byte streams and `List<byte>` the merge uses, as classes that are
  updated in place.
- `ExternalMerge`: `BufferCmp`, `ReadLine`, `WriteLine`, `InternalSort` and `Sort`.
  Each method is proved against a specification function (`ReadLineFrom`, `MergeOutput`).
- `MergeCorrectness`: the merge of sorted runs is the sorted union of their lines.
- `FileSorter`: the chunk pass as written. `ReadLines` and `WriteSortedLists` are methods
  over a bucket `array`. Each is proved against a specification function (`ScanFrom`,
  `RunFrom`). `Compare` is the comparer.
- `ChunkKeys`: what `ReadLines` files for a window of well-formed lines, and its stop rule.
- `ComparatorOrder`: the comparer as written, set against the merge order.
- `RunText`: what the writer gives back for each key, as written.
- `CorrectedChunk` and `CorrectedRun`: the corrected key, comparer and writer. A run
  built with them from a chunk is the encoding of the chunk's lines, sorted in the merge's
  order, each line as often as in the chunk.

The memory-mapped view is a `seq<byte>`. Its `Capacity` is the sequence's length.
Output files are the byte sequences written. A cancellation token is a function from the
poll count to `bool`.

## Model

| member | source | states |
|---|---|---|
| Bytes.Wrap32 | FileSorter/FileSorter.cs:331 | the result is the C# `int` congruent to x modulo 2^32, and equals x inside the `int` range |
| Bytes.AsInt32 | FileSorter/FileSorter.cs:331 | the `(int)` cast of a `uint` keeps values below 2^31 and subtracts 2^32 from larger ones |
| Bytes.Sign | FileSorter/FileSorter.cs:377 | the result is -1, 0 or 1, with the sign of x |
| Bytes.ParsedDigitsWrap | FileSorter/FileSorter.cs:148-152 | accumulating the decimal digits of any n gives n wrapped to a C# `int` |
| Bytes.DigitsRoundTrip | FileSorter/ExternalMerge.cs:150-154 | the digits of a number below 2^31 parse back to that number |
| Bytes.NumberOverflowWraps | FileSorter/FileSorter.cs:148-152 | the line number 2147483648 is read as -2147483648 |
| Bytes.FoldDigitsSnoc | FileSorter/FileSorter.cs:148-152 | accumulating one more digit is one more `number * 10 + digit` step |
| Bytes.AccumulateDigit | FileSorter/FileSorter.cs:150-151 | one `number * 10 + digit` step on a C# `int`; ParsedDigitsWrap and DigitsRoundTrip state what a run of them gives |
| Bytes.Decimal | FileSorter/ExternalMerge.cs:127 | `Int32.ToString()`: a minus sign for negatives, then the digits; DigitsRoundTrip parses them back |
| Bytes.BigEndianSmall | FileSorter/FileSorter.cs:203-204 | the big-endian value of one to four explicit bytes |
| Lines.EncodeLine | FileSorter/ExternalMerge.cs:125-133 | the number's text, ". ", the payload and CRLF; WriteThenReadLine reads it back |
| Lines.EncodeLinesAppend | FileSorter/ExternalMerge.cs:125-133 | the encoding of two line lists in a row is the concatenation of their encodings |
| Streams.Reader.ReadByte | FileSorter/ExternalMerge.cs:143-148 | returns the next byte and advances, or returns -1 at the end and stays put |
| Streams.Reader.CopyTo | FileSorter/ExternalMerge.cs:70 | appends every unread byte to the output and leaves the reader at the end |
| Streams.Writer.WriteByte | FileSorter/ExternalMerge.cs:128-129 | appends one byte to what was written |
| Streams.Writer.Write | FileSorter/ExternalMerge.cs:127-131 | appends the bytes to what was written |
| Streams.ByteList.Add | FileSorter/ExternalMerge.cs:175 | appends one byte to the list |
| Streams.ByteList.Clear | FileSorter/ExternalMerge.cs:132 | empties the list |
| ExternalMerge.BufferCmp | FileSorter/ExternalMerge.cs:180-203 | the result is -1, 0 or 1 |
| ExternalMerge.CmpFrom | FileSorter/ExternalMerge.cs:184-202 | the loop of BufferCmp from index i returns -1, 0 or 1; its order is CmpFromIsLexicographic |
| ExternalMerge.TakeFirst | FileSorter/ExternalMerge.cs:84-86 | the tie rule: side 1 when its payload is smaller, or equal with a number not larger; total, antisymmetric and transitive by the MergeCorrectness.LineLe lemmas |
| ExternalMerge.MergeFrom | FileSorter/ExternalMerge.cs:57-97 | the merge loop's output from a state of the two inputs; InternalSort is proved to write it, and MergeFromDecoded gives it as the list merge |
| ExternalMerge.MergeOutput | FileSorter/ExternalMerge.cs:54-97 | both first lines read, then the loop; InternalSortMergesSortedRuns gives it as the sorted permutation of both runs |
| ExternalMerge.MergeSucceeds | FileSorter/ExternalMerge.cs:20-28 | the merge completes when both inputs exist, differ and no I/O error occurs; Sort keeps the temporary file exactly then |
| ExternalMerge.CmpFromIsLexicographic | FileSorter/ExternalMerge.cs:184-202 | from any index below which x and y agree, the loop returns a negative value iff x sorts lexicographically before y, zero iff x = y, and a positive value iff y sorts before x |
| ExternalMerge.BufferCmpIsLexicographic | FileSorter/ExternalMerge.cs:180-203 | BufferCmp is negative iff x is lexicographically less than y, zero iff x = y, and positive iff y is less than x |
| ExternalMerge.BufferCmpAntisymmetric | FileSorter/ExternalMerge.cs:180-203 | swapping the arguments negates the result |
| ExternalMerge.BufferCmpProperPrefix | FileSorter/ExternalMerge.cs:197-200 | a proper prefix compares -1 against the longer buffer |
| ExternalMerge.FirstDifferenceDecides | FileSorter/ExternalMerge.cs:186-188 | buffers equal before index i with a smaller byte at i in x: x is less than y and not the reverse |
| ExternalMerge.SharedPrefixDecides | FileSorter/ExternalMerge.cs:192-202 | when one buffer is exhausted, the shorter one is the lesser and equal lengths mean equal buffers |
| ExternalMerge.LexLessTransitive | FileSorter/ExternalMerge.cs:180-203 | the lexicographic order BufferCmp decides is transitive |
| ExternalMerge.BufferCmpTransitive | FileSorter/ExternalMerge.cs:180-203 | x < y and y < z under BufferCmp give x < z |
| ExternalMerge.CmpFromSharedPrefix | FileSorter/ExternalMerge.cs:184-190 | a common leading part does not change the loop's result |
| ExternalMerge.BufferCmpSharedPrefix | FileSorter/ExternalMerge.cs:184-190 | buffers with a common head compare as their tails do |
| ExternalMerge.Skip | FileSorter/ExternalMerge.cs:159 | skipping k bytes with `ReadByte` never moves past the end of the stream |
| ExternalMerge.ReadLineFrom | FileSorter/ExternalMerge.cs:135-178 | the decoder never moves backwards or past the end; it returns without reading only at the end; it only appends to the buffer |
| ExternalMerge.ReadLine | FileSorter/ExternalMerge.cs:135-178 | the number, the buffer and the stream position after the call are those ReadLineFrom gives for the old position and buffer |
| ExternalMerge.WriteLine | FileSorter/ExternalMerge.cs:125-133 | the output grows by the encoding of the number and the old buffer, and the buffer is emptied |
| ExternalMerge.ReadDigits | FileSorter/ExternalMerge.cs:150-154 | reading a run of digits accumulates them into the number |
| ExternalMerge.ReadPayload | FileSorter/ExternalMerge.cs:173-176 | payload bytes without CR are appended to the buffer one by one |
| ExternalMerge.ReadAfterNumber | FileSorter/ExternalMerge.cs:155-171 | from the dot, the decoder skips the space, appends the payload to what the buffer already holds and returns after the terminator |
| ExternalMerge.ReadNumberedLine | FileSorter/ExternalMerge.cs:135-178 | a digit string, ". ", a payload and CRLF decode to that number and payload, ending after the terminator |
| ExternalMerge.ReadSignedLine | FileSorter/ExternalMerge.cs:135-178 | a minus sign, digits, ". ", a payload and CRLF decode to the digits' number, with the minus sign as the first payload byte |
| ExternalMerge.NegativeNumberReadsMinusAsPayload | FileSorter/ExternalMerge.cs:150-176 | a line the writer gives a negative number reads back with the number's magnitude and a payload that starts with the minus sign |
| ExternalMerge.ReadEncodedLine | FileSorter/ExternalMerge.cs:135-178 | a well-formed line encoded at pos decodes to its number and payload, ending right after its terminator |
| ExternalMerge.WriteThenReadLine | FileSorter/ExternalMerge.cs:125-178 | round trip: ReadLine of what WriteLine wrote gives back the line |
| ExternalMerge.InternalSort | FileSorter/ExternalMerge.cs:38-101 | the output file is MergeOutput of the two inputs under the token, and the returned size is its length |
| ExternalMerge.MergeDrain | FileSorter/ExternalMerge.cs:64-79 | when exactly one side is exhausted, the text written plus the merge still to come is unchanged (the other side's pending line and the rest of its file are written), and the loop variant decreases |
| ExternalMerge.MergeAdvance | FileSorter/ExternalMerge.cs:80-96 | with both sides pending, the text written plus the merge still to come is unchanged, the line the tie rule picks is written and that side re-read, and the loop variant decreases |
| ExternalMerge.WriteThenRead | FileSorter/ExternalMerge.cs:88-89 | writes the pending line and reads that side's next line as ReadLineFrom says |
| ExternalMerge.FileSystem.constructor | FileSorter/ExternalMerge.cs:11-36 | the directory starts with the given files |
| ExternalMerge.Sort | FileSorter/ExternalMerge.cs:11-36 | both inputs are deleted in every case; the temporary file holds the merge if it succeeds and is deleted otherwise; its name is returned either way; no other file changes |
| MergeCorrectness.LineLeTotal | FileSorter/ExternalMerge.cs:82-86 | any two lines are ordered one way or the other by payload, then number |
| MergeCorrectness.LineLeAntisymmetric | FileSorter/ExternalMerge.cs:82-86 | lines ordered both ways are equal |
| MergeCorrectness.LineLeTransitive | FileSorter/ExternalMerge.cs:82-86 | the line order is transitive |
| MergeCorrectness.MergePermutation | FileSorter/ExternalMerge.cs:57-97 | the merged lines are a permutation of the two inputs together |
| MergeCorrectness.SortedCons | FileSorter/ExternalMerge.cs:82-95 | a line no greater than every line of a sorted list can be put in front of it |
| MergeCorrectness.HeadIsLeast | FileSorter/ExternalMerge.cs:82-95 | the head of a sorted list is no greater than any of its lines |
| MergeCorrectness.MergeSorted | FileSorter/ExternalMerge.cs:57-97 | merging two sorted lists gives a sorted list |
| MergeCorrectness.ReadNext | FileSorter/ExternalMerge.cs:54-55 | ReadLine at the start of encoded mergeable lines yields the first of them, with the rest left unread |
| MergeCorrectness.EncodeMergeStep | FileSorter/ExternalMerge.cs:84-95 | the merged text starts with the encoding of the line the tie rule chooses |
| MergeCorrectness.DrainDecoded | FileSorter/ExternalMerge.cs:64-79 | a pending line and the rest of its file are the encoding of the remaining lines |
| MergeCorrectness.TakeFirstStep | FileSorter/ExternalMerge.cs:84-90 | taking the first side's line is one step of the list merge |
| MergeCorrectness.TakeSecondStep | FileSorter/ExternalMerge.cs:91-95 | taking the second side's line is one step of the list merge |
| MergeCorrectness.MergeFromDecoded | FileSorter/ExternalMerge.cs:57-97 | without cancellation, the merge loop writes the encoding of the list merge of the remaining lines |
| MergeCorrectness.InternalSortMergesSortedRuns | FileSorter/ExternalMerge.cs:38-101 | for two sorted runs of lines with non-empty payloads, the merged file is the encoding of their merge, which is sorted and a permutation of both runs |
| MergeCorrectness.CancelledMergeFromIsPrefix | FileSorter/ExternalMerge.cs:59-62 | from any state, the output under any token is a prefix of the output without cancellation |
| MergeCorrectness.CancelledMergeIsPrefix | FileSorter/ExternalMerge.cs:59-62 | a cancelled merge writes a prefix of the uncancelled one |
| MergeCorrectness.EmptyPayloadEndsRun | FileSorter/ExternalMerge.cs:57 | when run 1 starts with a line with an empty payload, that line reads as the end of the run: the rest of run 1 is dropped and the output is run 2 |
| MergeCorrectness.EmptyLineEndsRun1 | FileSorter/ExternalMerge.cs:57-79 | wherever the loop reads run 1's next line, an empty payload there ends run 1: the output from that point is the rest of run 2, whatever run 1 holds after it |
| MergeCorrectness.EmptyLineEndsRun2 | FileSorter/ExternalMerge.cs:57-79 | wherever the loop reads run 2's next line, an empty payload there ends run 2: the output from that point is the rest of run 1 |
| FileSorter.ShiftIn | FileSorter/FileSorter.cs:203-204 | `prefix << 8` plus the byte, modulo 2^32 |
| FileSorter.ScanFrom | FileSorter/FileSorter.cs:144-207 | the scan's stop offset lies between where it started and one past the window |
| FileSorter.ScanWindow | FileSorter/FileSorter.cs:129-210 | the whole scan of a window from the reset state; ReadLines is proved to compute it and ScanWindowOfLines gives it for a window of lines |
| FileSorter.Distribute | FileSorter/FileSorter.cs:174 | the entries filed one by one, each appended to its bucket's list, the lists staying 256; DistributeContents gives each list |
| FileSorter.ScanOutcome | FileSorter/FileSorter.cs:144-207 | every scan ends at the window's end, or right after a terminator that filed a key; every stored offset is -1 or a window position of at least 4 |
| FileSorter.ScanOutcomeAtTerminator | FileSorter/FileSorter.cs:161-192 | at a terminator the scan files a key whose offset is -1 or lies in the window, and the outcome is as ScanOutcome says |
| FileSorter.ConsEntryEnds | FileSorter/FileSorter.cs:174 | adding a key with a valid offset in front of a scan result keeps ScanOutcome's property |
| FileSorter.DistributeAppend | FileSorter/FileSorter.cs:174 | filing two runs of keys one after the other is the same as filing both together |
| FileSorter.DistributeContents | FileSorter/FileSorter.cs:174 | each bucket's list grows by exactly the keys filed under it, in file order |
| FileSorter.DistributeWritable | FileSorter/FileSorter.cs:174 | filing keys with no offset from 1 to 3 keeps every list writable |
| FileSorter.ScanKeysWritable | FileSorter/FileSorter.cs:165-174 | no key ReadLines files has an offset the writer would read before the window with |
| FileSorter.ReadLines | FileSorter/FileSorter.cs:129-210 | the returned offset and line count are ScanFrom's stop offset and key count, and the bucket array is the old lists with those keys filed in order |
| FileSorter.ScanStep | FileSorter/FileSorter.cs:146-206 | one loop pass files at most one key, and the scan from the old state is that key followed by the scan from the new state |
| FileSorter.EndOfLine | FileSorter/FileSorter.cs:161-192 | the terminator branch files the line's key under its bucket, resets the line state, and says whether the scan stops |
| FileSorter.Compare | FileSorter/FileSorter.cs:327-381 | the comparer fails only when the prefixes are equal, the first key has an offset and one side's offset is negative; a first key with an offset in the window against a second key without one (-1) always fails; prefixes below 2^31 that differ compare with the sign of their unsigned order |
| FileSorter.CompareFrom | FileSorter/FileSorter.cs:349-380 | a result other than the number difference is 1, -1, or comes from a byte read inside the window |
| FileSorter.LittleEndianBytes | FileSorter/FileSorter.cs:262 | `BitConverter.GetBytes(uint)`: four bytes, least significant first |
| FileSorter.ShortPayload | FileSorter/FileSorter.cs:256-271 | the bucket byte, then the non-zero prefix bytes least significant first when the prefix is non-zero; RunText states what it gives back |
| FileSorter.CopyRemainder | FileSorter/FileSorter.cs:278-291 | the window bytes from a position up to a byte 13, written as the terminator, or to the window's end |
| FileSorter.PayloadText | FileSorter/FileSorter.cs:253-291 | rebuilt from bucket and prefix when the stored offset is not positive, copied from the window five bytes before it otherwise |
| FileSorter.ItemText | FileSorter/FileSorter.cs:242-291 | the number's text, ". " and the payload text of one key |
| FileSorter.RunFrom | FileSorter/FileSorter.cs:231-294 | the buckets from i up in ascending order, each list in order, the token polled before each bucket; WriteSortedLists is proved to write it |
| FileSorter.WriteSortedLists | FileSorter/FileSorter.cs:215-299 | the run file written is RunFrom: the buckets in ascending order, each list in order, with the token polled before each bucket |
| FileSorter.WriteBucket | FileSorter/FileSorter.cs:240-291 | the output grows by the texts of the bucket's keys, in list order |
| FileSorter.WriteNextItem | FileSorter/FileSorter.cs:240-291 | one inner-loop pass extends the bucket's text by key j |
| FileSorter.WriteItem | FileSorter/FileSorter.cs:242-291 | the output grows by the key's number, ". " and its payload text |
| FileSorter.WritePayload | FileSorter/FileSorter.cs:253-291 | a key without an offset is rebuilt from bucket and prefix; otherwise the payload is copied from the window |
| FileSorter.WriteNumber | FileSorter/FileSorter.cs:243-248 | the output grows by the decimal text of the number |
| FileSorter.WriteShortPayload | FileSorter/FileSorter.cs:256-275 | the output grows by the bucket byte and the non-zero bytes of the prefix, least significant first |
| FileSorter.CopyRemainderTo | FileSorter/FileSorter.cs:278-291 | the output grows by the window bytes from the start up to the first CR, which is written as the whole terminator |
| ChunkKeys.PackIsBigEndian | FileSorter/FileSorter.cs:203-204 | up to four bytes shifted into a `uint` give their big-endian value, with nothing lost |
| ChunkKeys.ShiftInExact | FileSorter/FileSorter.cs:203-204 | below 2^24 the shift does not wrap |
| ChunkKeys.RightAlignedPrefixes | FileSorter/FileSorter.cs:193-205 | payload "AZ" packs to 0x5A and "ABC" to 0x4243: prefixes are right-aligned |
| ChunkKeys.StoredOffsetIsRemainder | FileSorter/FileSorter.cs:165-172 | for a payload of five or more bytes, the stored offset points at its sixth byte; the rest of the payload and the terminator follow it |
| ChunkKeys.ScanDigits | FileSorter/FileSorter.cs:148-152 | the number's digits accumulate into the key's number |
| ChunkKeys.Pack | FileSorter/FileSorter.cs:203-204 | the bytes shifted into a `uint` one after the other; PackIsBigEndian gives its value |
| ChunkKeys.PrefixBytesStep | FileSorter/FileSorter.cs:193-205 | payload byte 0 sets the bucket, bytes 1 to 4 are shifted into the prefix, and later bytes change nothing |
| ChunkKeys.ScanPayload | FileSorter/FileSorter.cs:193-206 | across a payload, the scan's bucket and prefix become the payload's bucket and packed prefix |
| ChunkKeys.ScanNumberPart | FileSorter/FileSorter.cs:148-160 | from a line's first byte, the scan reaches its first payload byte holding the line's number |
| ChunkKeys.ScanNumber | FileSorter/FileSorter.cs:148-160 | the same, for any digit string that is followed by the dot |
| ChunkKeys.PayloadAt | FileSorter/FileSorter.cs:153-161 | where a line's payload and terminator sit in the window |
| ChunkKeys.ScanToTerminator | FileSorter/FileSorter.cs:144-206 | from a line's first byte, the scan reaches its terminator holding the line's number, bucket and prefix |
| ChunkKeys.ScanEncodedLine | FileSorter/FileSorter.cs:161-192 | one encoded line files exactly its key, then the scan stops or goes on after the terminator |
| ChunkKeys.ScanEncodedLines | FileSorter/FileSorter.cs:144-207 | over encoded well-formed lines, ReadLines files one key per line in order, and stops where the stop rule says |
| ChunkKeys.ScanWindowOfLines | FileSorter/FileSorter.cs:129-210 | the same for a whole window |
| ChunkKeys.UnterminatedTailFilesNothing | FileSorter/FileSorter.cs:161-181 | bytes without a terminator file no key: a final line with no CRLF is not read |
| ChunkKeys.LargeChunkReadsAll | FileSorter/FileSorter.cs:144-191 | with a chunk size past the last terminator and no cancellation, every line's key is filed and the scan ends at the window's end |
| ChunkKeys.TwoLineWindow | FileSorter/FileSorter.cs:129-210 | a window of two lines files exactly their two keys |
| ChunkKeys.EncodeFirstLines | FileSorter/FileSorter.cs:180 | the first k + 1 lines take the first line's length plus that of the next k |
| ChunkKeys.SumFirstLengths | FileSorter/FileSorter.cs:180 | the same, stated on the lengths |
| ChunkKeys.EncodeLinesLength | FileSorter/FileSorter.cs:180 | the first k lines take as many bytes as their lengths add up to |
| ChunkKeys.LengthsStep | FileSorter/FileSorter.cs:180 | the lengths of a list are its head's length followed by its tail's lengths |
| ChunkKeys.ExpectedScanStep | FileSorter/FileSorter.cs:180-191 | the scan reads the first line, and reads the rest unless it stops there |
| ChunkKeys.ScanExtentStep | FileSorter/FileSorter.cs:180-191 | the same on lengths |
| ChunkKeys.ExpectedScanExtent | FileSorter/FileSorter.cs:180-191 | how many keys are filed, and where the scan stops, depend only on the lines' lengths |
| ChunkKeys.ExtentAtCrossingLine | FileSorter/FileSorter.cs:180-186 | on lengths: the scan stops at the first line whose terminator ends at or past chunkSize |
| ChunkKeys.ChunkStopsAtCrossingLine | FileSorter/FileSorter.cs:180-186 | without cancellation, the scan files the lines up to and including the first whose terminator ends at or past chunkSize, and stops at that terminator's last byte |
| ComparatorOrder.LineCmp | FileSorter/ExternalMerge.cs:82-86 | the merge's line order as a three-way comparison: -1, 0 or 1, and at most 0 iff the first line sorts no later |
| ComparatorOrder.RemainderByte | FileSorter/FileSorter.cs:353-354 | inside a remainder the comparer reads the remainder's bytes, and at its end it reads CR |
| ComparatorOrder.CompareFromRemainders | FileSorter/FileSorter.cs:349-380 | equal remainders fall through to the number difference; a remainder that is a proper prefix of the other compares +1, and the longer one -1; otherwise the sign is BufferCmp's |
| ComparatorOrder.KeyRemainder | FileSorter/FileSorter.cs:165-172 | the stored offset of a long payload is at least 7 and starts its remainder |
| ComparatorOrder.CompareEncodedKeys | FileSorter/FileSorter.cs:327-381 | on keys of encoded lines, the comparer fails (reads position -1) exactly when the prefixes are equal, the first payload has five or more bytes and the second fewer |
| ComparatorOrder.ShorterRemainderComparesGreater | FileSorter/FileSorter.cs:361-369 | a long payload that is a proper prefix of another compares +1 against it, while the merge puts it first |
| ComparatorOrder.SignedPrefixMisorders | FileSorter/FileSorter.cs:329-332 | "AAAAA" compares greater than "A" 0xC3 "AAA" because the prefix turns negative, while the merge puts it first |
| ComparatorOrder.RightAlignedPrefixMisorders | FileSorter/FileSorter.cs:193-205 | "AZ" compares less than "ABC", while the merge puts it after |
| ComparatorOrder.LongKeyAgainstShortKeyThrows | FileSorter/FileSorter.cs:344-347 | ReadLines files payloads "A" 0 "BCD" and "ABCD" under bucket 'A' with equal prefixes, and comparing the first key with the second reads position -1 |
| RunText.NonZeroAppend | FileSorter/FileSorter.cs:264-270 | dropping zero bytes from a concatenation drops them from each part |
| RunText.NonZeroOfNulFree | FileSorter/FileSorter.cs:264-270 | without zero bytes, nothing is dropped |
| RunText.NonZeroZeros | FileSorter/FileSorter.cs:264-270 | zero bytes are all dropped |
| RunText.NonZeroPadded | FileSorter/FileSorter.cs:264-270 | bytes without zeros, followed by zero padding, come back unchanged |
| RunText.ReverseSmall | FileSorter/FileSorter.cs:262-270 | the reversal of one to three explicit bytes |
| RunText.LittleEndianOfThree | FileSorter/FileSorter.cs:262 | a value below 2^24 is given back least significant byte first |
| RunText.WrittenReversed | FileSorter/FileSorter.cs:262-270 | the prefix bytes are written back in reverse order of packing |
| RunText.CopyRemainderOfPayload | FileSorter/FileSorter.cs:278-291 | the copy from any payload byte reproduces the rest of the payload and the terminator |
| RunText.PayloadWithTerminator | FileSorter/FileSorter.cs:278-291 | where a line's payload and terminator sit, from its first payload byte |
| RunText.WriterRestoresLongLine | FileSorter/FileSorter.cs:242-291 | a line with a payload of five or more bytes is written back exactly as read |
| RunText.ShortPayloadReversed | FileSorter/FileSorter.cs:256-271 | a payload of one to four non-zero bytes comes back as its first byte followed by the others in reverse |
| RunText.TwoBytePayload | FileSorter/FileSorter.cs:256-271 | the two-byte case |
| RunText.ThreeBytePayload | FileSorter/FileSorter.cs:256-271 | the three-byte case |
| RunText.FourBytePayload | FileSorter/FileSorter.cs:256-271 | the four-byte case |
| RunText.ThreeBytePayloadComesBackSwapped | FileSorter/FileSorter.cs:262-270 | the line "1. ABC" is written back as "1. ACB" |
| RunText.EmptyPayloadGainsNul | FileSorter/FileSorter.cs:256-258 | a line with an empty payload is written back with the single payload byte 0 |
| CorrectedChunk.CmpFromSelf | FileSorter/ExternalMerge.cs:184-202 | a buffer compares equal to itself from any index |
| CorrectedChunk.CmpFromSnoc | FileSorter/ExternalMerge.cs:184-202 | appending one byte to a buffer's compared part |
| CorrectedChunk.BigEndianOrder | FileSorter/FileSorter.cs:203-204 | equal-length byte strings compare as BufferCmp says, by their big-endian values |
| CorrectedChunk.CmpFromPadded | FileSorter/ExternalMerge.cs:184-202 | zero padding on non-zero bytes keeps BufferCmp's order |
| CorrectedChunk.PaddedOrder | FileSorter/FileSorter.cs:193-205 | zero-padded prefixes of non-zero bytes order as the prefixes do |
| CorrectedChunk.CmpFromTake | FileSorter/ExternalMerge.cs:184-202 | comparing the first n bytes agrees with the whole comparison when they differ |
| CorrectedChunk.BigEndianBytes | FileSorter/FileSorter.cs:262 | four bytes, most significant first |
| CorrectedChunk.DivMod256 | FileSorter/FileSorter.cs:262 | one byte shifted in comes back by division and remainder |
| CorrectedChunk.BigEndianBytesInverse | FileSorter/FileSorter.cs:262 | four bytes packed and split again are unchanged |
| CorrectedChunk.FixedPrefix | FileSorter/FileSorter.cs:193-205 | the left-aligned prefix splits back into payload bytes 1 to 4, zero-padded |
| CorrectedChunk.FixedPrefixIsShiftedPrefix | FileSorter/FileSorter.cs:193-205 | the left-aligned prefix is ReadLines' prefix shifted left by the bytes a short payload lacks |
| CorrectedChunk.BigEndianZeros | FileSorter/FileSorter.cs:203-204 | appending zero bytes multiplies the packed value by powers of 256 |
| CorrectedChunk.CompareFixedFromRemainders | FileSorter/FileSorter.cs:349-380 | the corrected loop over two remainders orders them as BufferCmp does, with equal remainders deciding by number |
| CorrectedChunk.PrefixBytesIsTake | FileSorter/FileSorter.cs:193-205 | the prefix bytes are payload bytes 1 to 4 |
| CorrectedChunk.NulFreeSlice | FileSorter/FileSorter.cs:193-205 | slices of a payload without zero bytes have none either |
| CorrectedChunk.DifferentPrefixesDecide | FileSorter/FileSorter.cs:329-332 | two payloads of one bucket with different padded prefixes compare as those prefixes do |
| CorrectedChunk.CompareFixedAgrees | FileSorter/FileSorter.cs:327-381 | for two lines of one bucket without zero bytes, the corrected comparer never fails and its sign is the merge's line order |
| CorrectedChunk.DifferentPrefixesAgree | FileSorter/FileSorter.cs:329-332 | the different-prefix case of CompareFixedAgrees |
| CorrectedChunk.LongAgainstShortFixed | FileSorter/FileSorter.cs:344-347 | a payload of five or more bytes against a shorter one of the same bucket and left-aligned prefix compares 1 under the corrected comparer, and the merge puts it after too; the byte 0 is allowed |
| CorrectedChunk.EqualPrefixesAgree | FileSorter/FileSorter.cs:334-347 | the equal-prefix case of CompareFixedAgrees |
| CorrectedChunk.LongPayloadsAgree | FileSorter/FileSorter.cs:349-380 | the case of two long payloads with equal first five bytes |
| CorrectedChunk.ShortPayloadFixedRestores | FileSorter/FileSorter.cs:256-271 | a short payload without zero bytes is rebuilt exactly from its bucket and left-aligned prefix |
| CorrectedChunk.WriterFixedRestoresLine | FileSorter/FileSorter.cs:242-291 | the corrected writer gives every line without zero bytes back exactly as read |
| CorrectedRun.SortedBucketIsSorted | FileSorter/FileSorter.cs:327-381 | a bucket list sorted by the corrected comparer holds its lines in the merge's order |
| CorrectedRun.BucketTextFixedRestores | FileSorter/FileSorter.cs:240-291 | the corrected writer gives back a bucket's lines exactly, in list order |
| CorrectedRun.RunKeysWritable | FileSorter/FileSorter.cs:253 | corrected keys of encoded lines are all writable |
| CorrectedRun.LowerBucketFirst | FileSorter/FileSorter.cs:231 | a line of a lower bucket comes before a line of a higher bucket in the merge's order |
| CorrectedRun.FlattenBuckets | FileSorter/FileSorter.cs:231 | the lines of buckets i and up all have a bucket of at least i |
| CorrectedRun.SortedAppend | FileSorter/FileSorter.cs:231-294 | sorted lists whose lines are all ordered across the two concatenate to a sorted list |
| CorrectedRun.CorrectedRunIsSorted | FileSorter/FileSorter.cs:231-294 | with sorted bucket lists of corrected keys, the run file is the encoding of the lines bucket after bucket, and those lines are sorted as the merge requires |
| CorrectedRun.FixedKeysFrom | FileSorter/FileSorter.cs:129-210 | one entry per line, in file order: the keys the corrected ReadLines files |
| CorrectedRun.FixedKeysAreKeys | FileSorter/FileSorter.cs:174 | the corrected ReadLines files each line under the bucket ReadLines uses, with ReadLines' key but the left-aligned prefix |
| CorrectedRun.EmptyLists | FileSorter/FileSorter.cs:37-42 | the 256 bucket lists start empty |
| CorrectedRun.KeyGivesLine | FileSorter/FileSorter.cs:240-291 | the corrected writer's text for a line's key reads back as that line |
| CorrectedRun.MapLinesAppend | FileSorter/FileSorter.cs:240-291 | decoding two key lists in a row, with any decoder, is decoding each in turn |
| CorrectedRun.MapLinesOfKeys | FileSorter/FileSorter.cs:240-291 | with the bucket's decoder (`Decoder`: the line the corrected writer's text for a key reads back as), the keys of a bucket list decode to exactly the lines it was built from |
| CorrectedRun.MapLinesPermutes | FileSorter/FileSorter.cs:240-291 | keys that are a permutation of each other decode, with any decoder, to lines that are a permutation of each other |
| CorrectedRun.SplitAtBucket | FileSorter/FileSorter.cs:231 | the lines of buckets b and up are those of bucket b together with those of buckets b + 1 and up |
| CorrectedRun.EveryBucketFromZero | FileSorter/FileSorter.cs:231 | every line has a bucket of at least 0 |
| CorrectedRun.NoBucketFrom256 | FileSorter/FileSorter.cs:231 | no line has a bucket of 256 or more |
| CorrectedRun.LinesAtStep | FileSorter/FileSorter.cs:129-210 | lines encoded one after another: the first sits at the start and the rest right after it |
| CorrectedRun.InBucketStep | FileSorter/FileSorter.cs:174 | the keys filed under bucket b are the first line's key, when it belongs there, followed by those of the lines after it |
| CorrectedRun.GoodLinesTail | FileSorter/FileSorter.cs:129-210 | the lines after a well-formed NUL-free first line are well-formed and NUL-free too |
| CorrectedRun.DecodeBucketStep | FileSorter/FileSorter.cs:174 | a decoder that gives the first line back from its key, and the tail's keys back as the tail's lines of bucket b, gives all keys back as the lines of bucket b |
| CorrectedRun.DecodeBucket | FileSorter/FileSorter.cs:174 | for lines encoded one after another from any position of the window, the keys filed under bucket b decode to those lines of bucket b, in file order |
| CorrectedRun.FlattenHoldsBuckets | FileSorter/FileSorter.cs:231-294 | when every bucket holds a permutation of the chunk's lines of that bucket, buckets i and up hold a permutation of the lines of buckets i and up |
| CorrectedRun.FirstChunkRun | FileSorter/FileSorter.cs:61-70 | the first chunk, read from the start of the file, meets the chunk-run condition at position 0 |
| CorrectedRun.CorrectedRunSortsChunk | FileSorter/FileSorter.cs:61-70 | a chunk of lines encoded one after another from any position of the window (a later chunk too), read by the corrected ReadLines, its bucket lists permuted and sorted by the corrected comparer, is written as the encoding of a sorted permutation of the chunk's lines |

## Left out

- `FileSorter.SortAsync` (FileSorter/FileSorter.cs:44-91) is not modelled: chunk scheduling,
  tasks, the stack of pending run files and the final rename. Concurrency is outside the model.
- `List<FileItem>.Sort(comparer)` is not modelled as an algorithm. The corrected run states
  its outcome as a precondition: each bucket list is a permutation of the keys filed there
  and is sorted (`CorrectedRun.ChunkRun`, `CorrectedRun.SortedByFixed`). On the code as written, the
  comparer's failure (`ComparatorOrder.LongKeyAgainstShortKeyThrows`) is where `List.Sort`
  would throw.
- Memory mapping, file streams, temporary file names, `File.Delete` and `File.Move` are
  abstracted. The view is a `seq<byte>`, a run file is the bytes written, and the
  directory is a map from path to contents (`ExternalMerge.FileSystem`).
- Logging (`Logger.Write`) and `Stopwatch` only observe; they are left out.
- `Environment.NewLine` is fixed to CRLF. The comparer hard-codes byte 13, so that is the
  platform it works on. The behaviour of a one-byte terminator is not modelled.
- A cancellation token is a function from the poll count to `bool`. Races between the
  token and the work are not modelled.
- I/O exceptions inside `InternalSort` are one boolean (`ioFault`) in `ExternalMerge.Sort`.
  The exception `OffsetComparer.Compare` raises is `None` in `FileSorter.Compare`.
- FileSorter.WriteSortedLists: requires keys without an offset from 1 to 3, on which the
  source reads before the window and throws. `FileSorter.ScanKeysWritable` shows that
  ReadLines never files such a key.
- MergeCorrectness.InternalSortMergesSortedRuns: requires non-empty payloads, because
  ReadLine treats an empty payload as the end of the file
  (`MergeCorrectness.EmptyPayloadEndsRun`, `MergeCorrectness.EmptyLineEndsRun1`,
  `MergeCorrectness.EmptyLineEndsRun2`); and line numbers from 0 to 2^31-1 (`WellFormed`),
  because ReadLine reads a minus sign as a payload byte: ReadLines accumulates a number
  field past 2^31-1 with wrap-around, to a negative number
  (FileSorter/FileSorter.cs:150-151), the writer prints it with a minus sign
  (FileSorter/FileSorter.cs:243-248), and ReadLine returns its magnitude with the sign
  prepended to the payload (`ExternalMerge.NegativeNumberReadsMinusAsPayload`).
- CorrectedChunk.CompareFixedAgrees: stated only for payloads without the byte 0. A packed
  prefix cannot tell a 0 byte from a missing one, so payloads with 0 bytes are not
  covered in general; CorrectedChunk.LongAgainstShortFixed covers the branch for a
  second key without an offset with 0 bytes allowed. The NUL-free limit applies to
  CorrectedChunk.WriterFixedRestoresLine, CorrectedRun.CorrectedRunIsSorted and
  CorrectedRun.CorrectedRunSortsChunk.
- CorrectedRun.CorrectedRunIsSorted: stated without cancellation; the corrected run does
  not model the token. The same holds for CorrectedRun.CorrectedRunSortsChunk.
- The chunk comparer departs from the order the merge sorts by, `BufferCmp`
  (FileSorter/ExternalMerge.cs:180-203: bytes compared as unsigned values, a proper prefix
  first). The model keeps the comparer as written and the corrected modules follow the
  merge's order:
  - prefixes are compared by signed subtraction (FileSorter/FileSorter.cs:331), which
    reverses the unsigned order once a prefix reaches 2^31;
  - bytes 1 to 4 are packed right-aligned (FileSorter/FileSorter.cs:203-204), so a short
    payload packs to a small number whatever its bytes;
  - the remainder that ends first compares greater (FileSorter/FileSorter.cs:361-369),
    where `BufferCmp` puts the proper prefix first;
  - the missing-offset check for the second key tests `Offset == 1`
    (FileSorter/FileSorter.cs:344), while ReadLines marks a missing offset with -1
    (FileSorter/FileSorter.cs:167).
- FileSorter.LittleEndianBytes: `BitConverter.GetBytes` follows the host's byte order; the
  model takes it as little-endian, the order of the x86 and ARM hosts .NET runs on. On a
  big-endian host the short-payload finding (FileSorter/FileSorter.cs:262-270) would not
  hold in that form.

## Findings

| source | as written | input that shows it | evidently intended | confidence | as-written member | corrected member |
|---|---|---|---|---|---|---|
| FileSorter/FileSorter.cs:329-332 | prefixes compared as `(int)x.Prefix - (int)y.Prefix` | payloads "AAAAA" and "A" 0xC3 "AAA": the second prefix turns negative, so the first compares greater | compare the prefixes as unsigned numbers | high; not executed | ComparatorOrder.SignedPrefixMisorders | CorrectedChunk.CompareFixedAgrees |
| FileSorter/FileSorter.cs:344-347 | `if (y.Offset == 1) return 1;` | payloads "A" 0 "BCD" then "ABCD" in one chunk: equal prefixes, and the comparer reads position -1 | test `y.Offset == -1` | high; not executed | ComparatorOrder.LongKeyAgainstShortKeyThrows | CorrectedChunk.LongAgainstShortFixed |
| FileSorter/FileSorter.cs:361-369 | the remainder that reaches CR first returns 1 | a payload of five or more bytes that is a proper prefix of another sorts after it | the remainder that ends first sorts first, as in BufferCmp | high; not executed | ComparatorOrder.ShorterRemainderComparesGreater | CorrectedChunk.CompareFixedAgrees |
| FileSorter/FileSorter.cs:193-205 | prefix bytes shifted in right-aligned, so a short payload packs to a small number | "AZ" packs to 0x5A and "ABC" to 0x4243, so "AZ" sorts before "ABC" | pack payload bytes 1 to 4 left-aligned, zero-padded | high; not executed | ComparatorOrder.RightAlignedPrefixMisorders | CorrectedChunk.CompareFixedAgrees |
| FileSorter/FileSorter.cs:262-270 | short payload rebuilt from `BitConverter.GetBytes(prefix)`, least significant byte first | on a little-endian host, "1. ABC" is written back as "1. ACB" | write the prefix bytes in packing order | high; not executed | RunText.ThreeBytePayloadComesBackSwapped | CorrectedChunk.WriterFixedRestoresLine |
| FileSorter/FileSorter.cs:256-258 | the bucket byte is written even for an empty payload | "1. " is written back as "1. " followed by byte 0 | write no payload byte for an empty payload | high; not executed | RunText.EmptyPayloadGainsNul | CorrectedChunk.WriterFixedRestoresLine |
