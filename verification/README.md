# Codec verification

A model, in Dafny, of the codecs in this repository and proofs of what they are for.

* **DEFLATE, both ways** (`external/miniz.c`): the compressor from hash chains over lazy matching,
  the packed token buffer, minimum-redundancy codes, length limiting, run-length coded headers,
  block choice and flush modes to the zlib wrapper; and the resumable decompressor with its tables,
  bit buffer, resume points and wrapping output. Between them stands the definition of RFC 1951 and
  RFC 1950 (`Deflate`, `Wrapped`), which neither side's code appears in. The main theorem composes both:
  what was compressed comes back, for every flag set and every way of cutting input and output.
* **ZIP directory** (`external/miniz.c`): heap sort and the two searches for a name.
* **CRC-32 and Adler-32**: the fast loops against their bitwise and bytewise definitions.
* **PNG** (`external/stb_image.h`, `tools/crisp_icons.py`): filters, unpacking, alpha, the seven
  passes of interlacing, and the agreement of the two decoders.
* **zlib and JPEG Huffman decoding of the image library** (`external/stb_image.h`).
* **JSON** (`external/cJSON.c`): strings with UTF-8 and escapes, printer and parser as they run over
  their buffers, print-then-parse, the linked lists on the heap, copying and comparing.

Code that works on state is a class or a method over arrays, in the source's order of steps, proved
against functions on sequences; the functions carry the theorems. `DEFLATE` streams are sequences of
bits (`Bits.Bitstring`), lowest bit of each byte first. The compressor's `MZ_ASSERT` is an assertion
that is proved; a failed one of the decompressor is the status `Aborted`.
Integers are unbounded where the source's type cannot overflow and wrapped explicitly where it can.

Order of reading: `Bits`, `Canonical`, `Deflate` (definitions); `HuffmanBound`, `WeightedTree`,
`HuffmanTree`, `MinimumRedundancy`, `LengthLimit`, `RadixSort`, `SymbolList`, `LimitCost`,
`HuffmanTable` (codes);
`TokenCode`, `LengthCoding`, `BitWriter`, `TokenBuffer`, `BlockBody`, `BlockHeader`, `BlockSize`,
`BlockWriter`, `Window`, `Parser`, `Stream`, `BlockFlush`, `Compressor`, `Wrapped` (compressor); `TrieCode`,
`TrieSize`, `TableFill`, `InflateTable`, `BitReader`, `HuffDecode`, `OutputBuffer`, `Tinfl`,
`TinflControl`, `TinflGrows`, `RfcIncluded`, `MissedCode`, `Inflator`, `Decompression` (decompressor);
`RoundTrip`.
`dafny verify dfyconfig.toml` checks everything.

## Model

| member | source | states |
|---|---|---|
| `RoundTrip.ThereAndBack` | external/miniz.c:2085-2098 | Compress any bytes with `tdefl` under any flags, then inflate them with `tinfl`: the bytes that come back are the bytes that went in, always. |
| `RoundTrip.ThereAndBackInPieces` | external/miniz.c:2437-2921 | The same when the compressed stream reaches the decompressor in arbitrary pieces of input and room: no call fails, what has come back is at every point a prefix of the source, and on `Done` all of it. |
| `RoundTrip.ValidStream` | external/miniz.c:2437-2921 | Every stream that RFC 1951 (or RFC 1950, with header and checksum) gives a meaning has the same meaning for the decompressor, bit for bit, without a missed code and with the right checksum. |
| `Wrapped.CompressMem` | external/miniz.c:2038-2051 | For every input, flag set and capacity: compression ends with `Done`, or with a failed put if the buffer is limited, and on `Done` the output decodes, by the definition of RFC 1950/1951, to exactly the input. The internal size assertion never fails. |
| `Compressor.Compress.CompressBuffer` | external/miniz.c:1918-1990 | One call of the compressor, any flush mode, in any state between calls: all of the input joins the history, the stream written so far stays whole blocks that stand for the history up to the block base, sync and full flushes catch up to a byte boundary, and a second finish or a use after an error is refused without change of meaning. |
| `Compressor.Compress.FlushBlock` | external/miniz.c:1256-1408 | Ending a block keeps the invariant that everything written stands for the input consumed; the block is written compressed, static or stored, and the assertion that it has not filled the output buffer holds for every block and flush. |
| `Compressor.WriteBlock` | external/miniz.c:1256-1370 | The bits of one flush in order (zlib header, block header bits, block, what ends the flush), and that the output buffer is not full behind them: `MZ_ASSERT(d->m_pOutput_buf < d->m_pOutput_buf_end)`. |
| `Compressor.Compress.CompressNormal` | external/miniz.c:1752-1895 | The lazy-matching loop consumes all of its input, block by block, keeps the stream invariant, and drains the lookahead when a flush is asked for. |
| `Wrapped.EndedDecodes` | external/miniz.c:1256-1408 | A finished stream decodes to the whole history. |
| `Wrapped.CaughtUpDecodes` | external/miniz.c:1354-1368 | After a sync or full flush, decoding what has been written together with any continuation is decoding the continuation with the history as output so far. |
| `BlockFlush.PutBlock` | external/miniz.c:1301-1339 | The choice between the coded block and the stored copy of it: whichever is kept decodes to the same bytes and takes at most 681000 bits, less than the output buffer holds; a coded block always fits, so the static fallback at lines 1333-1339 is never taken. |
| `BlockSize.DynamicSize` | external/miniz.c:1197-1242 | The body of a dynamic block takes at most 17380 bits for each 13500 bits of the token buffer, whatever the tokens: hardly more than a static block, even when code lengths had to be cut. |
| `BlockSize.BodySize` | external/miniz.c:1197-1242 | The bits of a body are the weighted code lengths of the symbols counted, and the extra bits, which no choice of codes changes. |
| `Window.Dictionary.FindMatch` | external/miniz.c:1481-1523 | Whatever the hash chains hold, a match that is reported is a true repetition inside the window, no longer than allowed, and longer than the one already known. |
| `Window.Dictionary.Fill` | external/miniz.c:1760-1805 | Bytes enter the ring dictionary so that the window always shows the end of the history, including the mirrored first bytes. |
| `Parser.Parse.Step` | external/miniz.c:1806-1890 | One step of lazy or greedy matching keeps the invariant that the recorded tokens and the saved literal or match expand to the history up to the parse position, and always makes progress. |
| `TokenBuffer.Buffer.RecordMatch` | external/miniz.c:1724-1750 | The packed token buffer gains exactly one match, the symbol counts follow, and the flag bits of earlier tokens are untouched. |
| `TokenBuffer.Buffer.RecordLiteral` | external/miniz.c:1711-1722 | The packed token buffer gains exactly one literal. |
| `HuffmanTable.HuffTable.Optimize` | external/miniz.c:871-922 | From any symbol counts of total below 65536: lengths within the limit for exactly the symbols that occur, a complete code (or a single symbol) that decompressors accept, and codes that are the bit-reversed canonical codes. If no measured length is over the limit, which a total below a Fibonacci number guarantees (2584 for 15 bits), no prefix code of any lengths takes fewer bits; and with the limit of 15 bits the `n` symbols of the alphabet never take more than `2 * n / 540` bits each over any other prefix code. |
| `MinimumRedundancy.CalculateMinimumRedundancy` | external/miniz.c:787-840 | The in-place three-pass algorithm gives code lengths whose weighted total no prefix code for the same weights undercuts; the lengths are positive, descending, use up the code space exactly, are at most 22, and a weight at depth `d` means a total of at least that weight times the Fibonacci number of `d`. |
| `MinimumRedundancy.BuildTree` | external/miniz.c:798-815 | Pass one, for two or more symbols: the shared key array is taken over by the parents of a forest in which nodes are merged first in, first out; every node weighs what was merged into it; merging was at each step the best that can be done (the `Kin` clause); and which leaves hang below the first nodes is recorded level by level. |
| `MinimumRedundancy.LeafDepths` | external/miniz.c:819-839 | Pass three turns depths of inner nodes into lengths of leaves: each leaf gets one more than the depth of the very node it was merged into, and the lengths use up the code space. |
| `HuffmanBound.MergeBound` | external/miniz.c:800-815 | The exchange argument: a lower bound for all codes after merging the two lightest weights is, plus their sum, a lower bound for all codes before. |
| `HuffmanTree.TreeIsMinimal` | external/miniz.c:787-840 | A tree built by merging two lightest weights at each step gives code lengths of least weighted total. |
| `HuffmanTree.TreeHeavy` | external/miniz.c:787-840 | A leaf far below the root makes a tree that is heavier than the leaf by a Fibonacci number. |
| `LengthLimit.EnforceMaxCodeSize` | external/miniz.c:847-869 | Cutting over-long codes keeps the number of codes and restores a complete code (Kraft sum exactly 1) for every histogram with at most two to the limit codes, in 32-bit unsigned arithmetic; a histogram without over-long codes is left alone; each step moves the longest code below the limit. |
| `LimitCost.Follow` | external/miniz.c:847-869 | What the steps on the histogram do to the sorted lengths: a code is only moved when all lighter ones have the limit, and only while the lighter ones have not made room enough. |
| `LimitCost.LimitedCost` | external/miniz.c:847-869 | Cutting a least-redundancy code for `n` of at most 288 symbols to 15 bits costs at most `2 * n / 540` bits for each occurrence of a symbol. |
| `SymbolList.BestForAll` | external/miniz.c:871-922 | Lengths that are best for the sorted list of the symbols in use are best for the whole alphabet: symbols that do not occur neither cost nor crowd. |
| `RadixSort.RadixSortSyms` | external/miniz.c:753-784 | The byte-wise radix sort, which skips the high pass when all high bytes are zero, equals two stable distributions by low and high byte. |
| `RadixSort.SortedIsSorted` | external/miniz.c:753-784 | Those two distributions put the 16-bit keys in ascending order and lose or repeat nothing. |
| `Canonical.PrefixFree` | external/miniz.c:908-921 | Codes numbered by length and then by symbol are never prefixes of one another when the lengths fit. |
| `Bits.ReverseCode` | external/miniz.c:913-920 | The loop returns the number whose low-first bits are the high-first bits of the code. |
| `LengthCoding.LengthPacker.Finish` | external/miniz.c:1009-1051 | Run-length packing of the code lengths into symbols 0 to 18: unpacking what was packed gives back every length, whatever the runs, and the tallies count the symbols sent. |
| `LengthCoding.PackedDecodes` | external/miniz.c:1066-1074 | The packed lengths, sent with any code that has a word for each symbol used, are read back by the decoder of RFC 1951 as the original lengths. |
| `BlockWriter.Tables.StartDynamicBlock` | external/miniz.c:990-1075 | The header of a dynamic block, written from the counts of the block, is read by the decoder of RFC 1951 as exactly the two code-length tables the block is coded with; it takes at most 4551 bits, and the two codes are nearly the best for the counts. |
| `BlockWriter.Tables.CompressBlock` | external/miniz.c:1245-1254 | Header and body of a static or dynamic block decode to what the tokens stand for, behind any output so far and in front of any further bits; the size of either is bounded by the weight of its tokens. |
| `BlockBody.CompressLzCodes` | external/miniz.c:1197-1242 | Reading the packed token buffer back and emitting length, distance and literal codes appends exactly the code bits of the recorded tokens and the end-of-block code. |
| `TokenCode.LengthDecodes` | external/miniz.c:1210-1232 | For every length and distance: the symbol and extra bits that are sent for them are decoded to that length and distance. |
| `BlockHeader.DynamicBlock` | external/miniz.c:990-1075 | A header followed by coded tokens is a block that expands to what the tokens stand for. |
| `Stream.SyncExtends` | external/miniz.c:1354-1368 | The empty stored block of a flush extends a stream without changing what it stands for, and ends on a byte boundary. |
| `Adler.Adler32` | external/miniz.c:40-66 | The unrolled, blocked loop with its deferred reductions computes the Adler-32 checksum defined byte by byte, for every start value. |
| `Inflator.Decompressor.Decompress` | external/miniz.c:2437-2921 | One call of the resumable decompressor, from every resume point, for every split of the input and of the output room: what the rest of the stream means is unchanged by the call, the bytes written are exactly the new part of the history, each status is justified (more input is asked for only when all of it is used and the stream so far has no complete meaning; more room only when the buffer is full; failure only for a stream without meaning), a wrapping buffer whose size is no power of two is refused exactly then, and the assertion on the bit buffer can fail only after an earlier call asked for more input and only if the stream takes bits for a code that are none. |
| `Inflator.Decompressor.AfterBlock` | external/miniz.c:2842-2868 | At the end of the last block the assertion that no bits are left fails if and only if more whole bytes are buffered than this call has read; otherwise alignment and putting back leave the meaning of the rest unchanged. |
| `Decompression.RunsAgree` | external/miniz.c:2437-2921 | Two runs over the same stream, with different pieces of input and output room, that both come to an end report the same status, the same output and the same rest. |
| `Decompression.InflateChunks` | external/miniz.c:2437-2921 | Driving the decompressor over any sequence of offers gives output and rest that the meaning of the stream determines; if no offer holds back input, the assertion on the bit buffer does not fail, for any bytes. |
| `Decompression.MemToMem` | external/miniz.c:2962-2969 | Inflating into a buffer succeeds if and only if the stream has a meaning with the right checksum and it fits, and then gives the meaning. |
| `Decompression.MemToHeap` | external/miniz.c:2924-2960 | The doubling heap buffer ends with the meaning of the stream; every stream that has one, with the right checksum, is inflated if memory for twice its size is there. |
| `Decompression.MemToCallback` | external/miniz.c:2971-2999 | With a 32 KB wrapping dictionary, what the callback has received is the meaning of the stream; every stream that has one, with the right checksum, is inflated. |
| `RfcIncluded.BlocksIncluded` | external/miniz.c:2493-2842 | Wherever RFC 1951 defines the rest of a stream, the decompressor agrees, behind any output and preset history in reach. |
| `MissedCode.Accepted` | external/miniz.c:2393-2428 | Fifteen bytes that the decompressor inflates to four zeros, taking bits for a distance code that are none. |
| `MissedCode.Forbidden` | external/miniz.c:2393-2428 | RFC 1951 gives the same bytes no meaning. |
| `TinflGrows.MeansGrows` | external/miniz.c:2437-2921 | From every resume point the output only grows: the history so far is a prefix of the final one. |
| `InflateTable.Table.Build` | external/miniz.c:2577-2642 | The 1024-entry table and the tree behind it are built exactly for the code lengths that are complete or have at most one symbol, and then answer every lookup as the canonical code does. |
| `InflateTable.Table.Find` | external/miniz.c:2393-2428 | Looking up the buffered bits, first in the table and then down the tree, gives the symbol and length the code defines. |
| `TrieSize.InnerBound` | external/miniz.c:2577-2642 | The tree of an accepted code never outgrows its array, complete or not. |
| `TrieCode.LookupDecodes` | external/miniz.c:2393-2428 | Where the canonical decoder finds a symbol, the table decoder finds the same one. |
| `TrieCode.LookupMore` | external/miniz.c:2362-2386 | A decision on few buffered bits is never changed by more input, which is what lets the decoder avoid reading ahead. |
| `HuffDecode.Decode` | external/miniz.c:2362-2428 | Decoding a symbol with at most 15 buffered bits takes exactly its code from the stream; if input runs out it takes nothing, and the buffered bits hold no complete code. |
| `OutputBuffer.Output.CopySlow` | external/miniz.c:2785-2797 | The bytewise overlapped copy, interrupted by lack of room at any byte and resumed, is the overlapped copy of the whole match. |
| `OutputBuffer.Output.CopyFast` | external/miniz.c:2819-2834 | The unrolled copy equals the bytewise one. |
| `BitReader.Reader.PutBack` | external/miniz.c:2844-2852 | Bytes read ahead are put back until fewer than eight bits are buffered or the call has no more bytes of its own; the bits to come are unchanged. |
| `ZipSort.SortByName` | external/miniz.c:3548-3598 | The heap sort permutes the index array and leaves it in ascending order of lower-cased names. |
| `ZipNames.FilenameLess` | external/miniz.c:3519-3536 | The comparison is the lexicographic order of the lower-cased bytes, a name before its extensions. |
| `ZipNames.FilenameCompare` | external/miniz.c:4352-4367 | The three-way comparison has that order's sign for every name of less than 2 GB. |
| `ZipIndex.SearchesAgree` | external/miniz.c:4369-4481 | Binary and linear search agree on whether a name is in the archive exactly when the name is shorter than 2^32 or no entry equals its truncation; they agree on the entry when no two entries share a lower-cased name. |
| `ZipIndex.SearchesDisagree` | external/miniz.c:4369-4430 | A name of 2^32 bytes and an archive with a nameless entry: the binary search finds it, the linear search refuses. |
| `ZipIndex.Archive.Locate` | external/miniz.c:4418-4481 | The entry found matches name, comment and flags, `not found` means that none does, and parameters are refused exactly when they are too long and the scan is used; the binary search looks for the name as its 32-bit length leaves it. |
| `ZipIndex.BaseNameIs` | external/miniz.c:4457-4471 | What is compared when paths are ignored is the longest end of the name without a separator. |
| `Crc.Crc32Fast` | external/miniz.c:95-159 | The table-driven loop, four bytes at a time, computes the bitwise CRC-32 for every start value. |
| `Crc.TableEntry` | external/miniz.c:97-139 | Each of the 256 literal table entries is eight steps of bitwise division of its index. |
| `Crc.Crc32Concat` | external/miniz.c:95-159 | The checksum of a concatenation is the checksum continued. |
| `Crc.BurstDetected` | external/miniz.c:95-159 | Any change confined to four bytes changes the checksum, whatever surrounds it. |
| `PngImage.CreateImageRaw` | external/stb_image.h:4696-4859 | Every depth, channel count and filter: the result is the defined meaning of the filtered data (unfiltering, unpacking with grey scaling, alpha added in place from the end), and it is refused exactly when a size test, the data length or a filter byte fails. |
| `PngImage.EncodedImage` | external/stb_image.h:4696-4859 | Whatever filters an encoder chooses per row, the rows come out again. |
| `PngFilter.RowRoundTrip` | external/stb_image.h:4657-4668 | For each filter: unfiltering undoes filtering against any prior row. |
| `PngFilter.RowOnto` | external/stb_image.h:4755-4786 | For each filter: filtering undoes unfiltering, so each filtered row stands for exactly one row. |
| `PngRows.ScanLines.DecodeRow` | external/stb_image.h:4755-4786 | The decoder of one scan line in a two-line ring buffer, with its own rules for the first row, is the unfiltering that the format defines. |
| `PngRows.PlainImage` | tools/crisp_icons.py:14-31 | The icon tool's decoder yields the unfiltered rows of an RGBA image. |
| `PngImage.DecodersAgree` | tools/crisp_icons.py:14-31 | The icon tool and the image library decode the same RGBA data to the same samples, exactly where the library accepts it. |
| `Adam7.EachPixelOnce` | external/stb_image.h:4861-4904 | The seven passes cover every pixel of an image of any size exactly once. |
| `Adam7.Deinterlace` | external/stb_image.h:4861-4904 | The seven images are taken off the data one behind the other, and every pixel of the result comes from its place in its pass; any failing pass fails the whole. |
| `Adam7.PictureRoundTrip` | external/stb_image.h:4861-4904 | Seven reductions of one picture are put together to that picture. |
| `Interlace.PictureBack` | external/stb_image.h:4861-4904 | Interlacing any picture, of any depth, channel count and size, with any row filters, and deinterlacing the data shows the picture: every sample in its place, grey of less than a byte scaled up, alpha added where asked for. |
| `Interlace.ShownApart` | external/stb_image.h:4796-4855 | Scaling and added alpha lose nothing: different pixels are shown differently. |
| `Interlace.PackedSample` | external/stb_image.h:4796-4830 | Samples of one to sixteen bits, packed into bytes from the top, are the samples that unpacking finds. |
| `StbHuffman.ZHuffman.Build` | external/stb_image.h:4124-4169 | The table is accepted exactly when the lengths fit in a code, and then stands for the canonical code. |
| `StbHuffman.ZHuffman.Find` | external/stb_image.h:4224-4271 | Fast table and slow search together find, for every 16 bits, exactly the symbol whose code they begin with, or none. |
| `StbBits.ZBuf.Decode` | external/stb_image.h:4243-4271 | Decoding takes exactly the code of the symbol found from the stream, padded with zeros after its end; the second attempt to read past the end is an error. |
| `StbBits.ZBuf.Receive` | external/stb_image.h:4214-4222 | Received bits are the next bits of the padded stream, lowest first. |
| `BitReverse.ReverseCodeIs` | external/stb_image.h:4107-4122 | Reversal by masks and shifts is the reversal of the bits of a code. |
| `JpegHuffman.Huffman.Build` | external/stb_image.h:2003-2046 | The tables are built exactly when there are at most 256 codes and they fit in 16 bits. |
| `JpegHuffman.DecodeExactly` | external/stb_image.h:2097-2146 | Table decoding finds what the code defines on all 16-bit windows if and only if the 256th symbol, if there is one, has a code too long for the fast table. |
| `JpegHuffman.DecodeIs` | external/stb_image.h:2097-2146 | What the decoder makes of every window with every accepted table: the symbol whose code it begins with, except that a short code of the 256th symbol is taken for one of ten bits. |
| `JpegHuffman.MarkedTable` | external/stb_image.h:2003-2046 | A table of 256 codes of eight bits is accepted and is not of that kind. |
| `JpegAc.FastAcAgrees` | external/stb_image.h:2050-2073 | Where the combined table has an entry, run, value and bit count are those of decoding the symbol and receiving the bits separately. |
| `JpegStream.Stream.HuffDecode` | external/stb_image.h:2097-2146 | With every accepted table, decoding takes exactly the code of the symbol found from the entropy-coded data, stuffing and markers included, zeros standing for data past a marker; it fails exactly when there is no symbol or too few bits. |
| `JpegStream.Stream.ExtendReceive` | external/stb_image.h:2153-2166 | The received bits, sign-extended, are those of the data. |
| `JpegStream.Stream.Grow` | external/stb_image.h:2075-2091 | Refilling moves the next data bits into the buffer, stuffed zeros removed, and changes nothing of what lies ahead; past a marker it appends zeros, and says so. |
| `JpegCoefficient.NextAc` | external/stb_image.h:2230-2262 | One coefficient by the fast or the slow path: result, failure and bits used are those that the bits ahead define; the paths differ only when the data end within the number behind a code, where the fast one fails and the slow one takes zero. |
| `Utf8.EncodeDecode` | external/cJSON.c:766-800 | Every scalar value is encoded as well-formed UTF-8 that stands for it. |
| `Utf8.DecodeEncode` | external/cJSON.c:766-800 | Every well-formed sequence is the encoding of the scalar value it stands for. |
| `Utf8.EscapeScalar` | external/cJSON.c:703-765 | An accepted escape, single or surrogate pair, stands for a scalar value, never for a lone surrogate. |
| `Utf8.Utf16ToUtf8` | external/cJSON.c:703-821 | The escape is replaced by the UTF-8 encoding of what it stands for, or refused without writing. |
| `JsonString.ParseString` | external/cJSON.c:824-951 | The two-pass string parser, with its estimated buffer size, never outgrows the buffer and gives exactly the defined unescaping, or fails exactly when that is undefined. |
| `JsonPrint.PrintBuffer.Ensure` | external/cJSON.c:490-573 | The growing buffer has room exactly when the capacity allows it, and keeps what was written. |
| `JsonPrint.PrintBuffer.PrintValue` | external/cJSON.c:1423-1494 | Recursive printing into the growing or fixed buffer appends the text of the value, formatted or not, at every depth, and succeeds exactly when text and two bytes fit and the nesting limit holds. |
| `JsonPrint.PrintBuffer.PrintArray` | external/cJSON.c:1595-1659 | The text of an array with its separators, exactly under the same conditions. |
| `JsonPrint.PrintBuffer.PrintObject` | external/cJSON.c:1780-1896 | The text of an object with keys, tabs and line ends, exactly under the same conditions. |
| `JsonPrint.Print` | external/cJSON.c:1239-1304 | Printing to the heap gives the text and a NUL, or nothing, exactly by size and nesting. |
| `JsonPrint.PrintPreallocated` | external/cJSON.c:1348-1365 | Printing to a given buffer succeeds exactly when it holds the text and two more bytes and the nesting limit holds. |
| `JsonParse.ParseBuffer.ParseValue` | external/cJSON.c:1368-1420 | The recursive-descent parser computes, from every offset and depth, the value, end or failure that the grammar function defines, restores the depth, and fills the node it was given with a tree of fresh nodes that holds the value. |
| `JsonParse.ParseBuffer.ParseArray` | external/cJSON.c:1497-1592 | The element loop gives exactly the elements and the end that the grammar function defines, and links a node for each, in order, into the list below the array. |
| `JsonParse.ParseBuffer.ParseObject` | external/cJSON.c:1662-1777 | The member loop gives exactly the members and the end that the grammar function defines, and links a node for each, under its name and in order, into the list below the object. |
| `JsonParse.ParseText` | external/cJSON.c:1147-1224 | Byte order mark, white space, value and trailing NUL: accepted exactly as defined, and there is a tree exactly then. |
| `JsonParse.PrintThenParse` | external/cJSON.c:1147-1304 | Any printable value, printed formatted or not and parsed again, comes back as a tree of nodes that holds it, with or without the demand for a NUL behind it; it is printed exactly when it fits. |
| `JsonRoundTrip.PrintParse` | external/cJSON.c:1147-1304 | The text of every printable value within the nesting limit is parsed back to the value. |
| `JsonList.Node.AddItemToArray` | external/cJSON.c:2026-2058 | The doubly linked list with its tail in the head's `prev` gains the item at its end and stays well linked; refused exactly for no item or the list itself. |
| `JsonList.Node.DetachItemViaPointer` | external/cJSON.c:2258-2292 | Taking out any item, first, middle, last or only, leaves the other items in order and well linked, and the item linked to nothing. |
| `JsonList.Node.InsertItemInArray` | external/cJSON.c:2334-2366 | The item goes before the one at the index, or to the end; the list stays well linked. |
| `JsonList.Node.ReplaceItemViaPointer` | external/cJSON.c:2368-2415 | The replacement takes exactly the place of the item. |
| `JsonList.Node.GetObjectItem` | external/cJSON.c:1951-1981 | The first item that answers to the name, case-sensitively or not; a case-sensitive search ends at an item without a name. |
| `JsonList.Node.AddItemToObject` | external/cJSON.c:2082-2117 | The item is appended under the name, and a search finds it unless an earlier item is in the way. |
| `JsonList.Node.DetachItemFromObject` | external/cJSON.c:2309-2321 | The item found by name is the one taken out. |
| `JsonList.Node.ReplaceItemInObject` | external/cJSON.c:2427-2448 | The item found by name is replaced; the replacement takes the name even when nothing is found. |
| `JsonTree.Duplicate` | external/cJSON.c:2789-2873 | The recursive copy is a new tree, sharing no node, with the contents of the original; it fails exactly when the tree is higher than the limit. |
| `JsonTree.Compare` | external/cJSON.c:3073-3195 | On two trees that share no node the comparison decides one relation on contents: arrays item by item, objects name by name in both directions. |
| `JsonTree.SameSymmetric` | external/cJSON.c:3073-3195 | That relation is symmetric. |
| `JsonTree.SameAsItself` | external/cJSON.c:3073-3195 | A tree compares equal to a copy of itself if and only if every string has text, every member a name, and a repeated name holds what its first occurrence holds. |
| `JsonTree.DistinctWellNamed` | external/cJSON.c:3073-3195 | Distinct names in every object are enough for that. |
| `JsonTree.RepeatedName` | external/cJSON.c:3135-3185 | The object with members a: 1 and a: 2 is not equal to a copy of itself. |
| `JsonTree.CopyAndCompare` | external/cJSON.c:2789-2873 | Copying and comparing says equal exactly under that condition. |
| `JsonTree.NearIntegers` | external/cJSON.c:589-593 | Whole numbers below 2^52 compare equal only when they are. |

## Findings

Where a promise does not hold of the code, the code is modelled as it is and the exact condition is proved.

* **JPEG tables with 256 symbols.** `stbi__build_huffman` marks "not in the fast table" with 255, which
  is also the index of the 256th symbol. If that symbol has a code of at most nine bits, decoding sends
  it to the slow search, which starts above nine bits and finds something else. `JpegHuffman.DecodeExactly`
  proves that decoding is right on all inputs if and only if there is no such symbol;
  `JpegHuffman.MarkedTable` is an accepted table that has one, and `JpegHuffman.DecodeIs` says what is found
  instead.
* **JPEG data that end within a number.** The fast path of `stbi__jpeg_decode_block` reports an error, the
  slow path takes the number for zero (`JpegCoefficient.Meaning`).
* **Copies of JSON objects with a repeated name.** `cJSON_Compare` of an object with a copy of itself says
  "different" when a name occurs twice with different values (`JsonTree.RepeatedName`);
  `JsonTree.SameAsItself` has the exact condition. Compared by the same pointer it is always "equal".
* **Replacing by name renames even when it fails.** `replace_item_in_object` changes the name of the
  replacement before it looks for the item (`JsonList.Node.ReplaceItemInObject`).
* **Case-sensitive lookup stops at a nameless item**, the other lookup passes over it
  (`JsonList.Called`); an item added behind a nameless one cannot be found case-sensitively.
* **ZIP searches.** The binary search truncates the length of the name to 32 bits;
  `ZipIndex.SearchesAgree` has the exact condition for agreement with the linear search, and
  `ZipIndex.SearchesDisagree` names they disagree about. Such a name needs a `size_t` of more than 32 bits.
* **Preallocated printing** needs one byte more than the text and its NUL (`JsonPrint.PrintPreallocated`).
* **The decompressor accepts more than RFC 1951.** A code with a single symbol, bits that are no code in
  an incomplete code, and lengths that the RFC reserves are given a meaning (`Tinfl`); the agreement with
  the RFC is for streams that the RFC defines (`RfcIncluded`). `MissedCode` has a stream that is accepted
  and not allowed. What such a stream means does not depend on how it is cut
  (`Decompression.RunsAgree`), unless the next point stops a run.
* **The decompressor's assertion on the bit buffer.** `MZ_ASSERT(!num_bits)` fails at the end of the last
  block if and only if more whole bytes are buffered than the call has read
  (`Inflator.Decompressor.AfterBlock`). That needs an earlier call that asked for more input with bits of
  a code unfinished, and bits that are then taken for a code though they are none
  (`Inflator.Decompressor.Decompress`: `Dirty` and `asked`): the bits are kept and not used, and the bytes
  they came from belong to the earlier call. Offering the stream of `MissedCode` as its first 14 bytes and
  then the last is of that kind. A call that gets the whole stream never runs into it
  (`Decompression.InflateChunks`, `MemToMem`, `MemToHeap`, `MemToCallback`), nor does any run over a stream that
  RFC 1951 allows (`RoundTrip.ValidStream`).

Three promises that are not obvious hold without a condition.

* **The compressor's size assertion.** `MZ_ASSERT(d->m_pOutput_buf < d->m_pOutput_buf_end)` holds at the end of
  every block (`Compressor.WriteBlock`), also for one that has left the window and cannot be stored. The
  token buffer bounds a static block; a dynamic block is nearly as good (`BlockSize.DynamicSize`), because
  cutting code lengths to 15 bits costs little (`LimitCost.LimitedCost`).
* **A dynamic block always fits.** The source calls the opposite "extremely unlikely (if not impossible)"
  (external/miniz.c:1333); it is impossible, and the static block that would take its place is never
  written (`BlockFlush.PutBlock`).
* **Limited code lengths.** The heuristic of `tdefl_huffman_enforce_max_code_size` is within 1.07 bits a symbol
  of the best code (`HuffmanTable.HuffTable.Optimize`).

## Left out

- HuffmanTable.HuffTable.Optimize: does not promise least redundancy when a measured length is over the limit, because the source's length limiting is a heuristic; for the table of code lengths, with its limit of 7 bits, no bound is given then.
- Inflator.Decompressor.Decompress: models the 32-bit bit buffer (the target is a 32-bit machine); the 64-bit variant of the same macros is not modelled.
- JpegStream.Stream.HuffDecode: the assertion at external/stb_image.h:2140, on the code that has been found, is left out.
- Compressor.Compress.CompressBuffer: output goes to the put-buffer callback; the variant with a caller's output buffer is not modelled, and the wrap-around of the 32-bit block counter is not.
- Wrapped.CompressMem: writes to an abstract sink with an optional capacity; allocation failure is not modelled.
- JsonTree.Duplicate: takes a finite tree and does not model allocation failure, references and constant names; a cyclic structure, at which the limit is aimed, is not a tree.
- JsonTree.Compare: two different nodes must not share nodes below them; numbers are reals with the source's relative tolerance, without NaN and infinities.
- JsonPrint.PrintBuffer.PrintValue: numbers are the integers that are printed with `%d`; doubles, raw values and numbers as floating-point text are not modelled.
- JsonParse.ParseBuffer.ParseValue: fractions and exponents are outside the grammar function, and the number of a node is the decimal number without rounding; allocation failure and the deletion of what was built before a failure are not modelled.
- `tdefl_compress_fast`, the one-probe compressor, and the 64-bit and unaligned-access variants of matching and token output.
- `mz_stream` wrappers, PNG writing and the streaming reader and writer of ZIP archives, including ZIP64 records and extraction.
- Transparency, palettes, 16-bit conversion and chunk parsing of PNG; DC coefficients, progressive scans, transforms and colour of JPEG; the zlib block loop of the image library.
- Positions reported with JSON parse errors, `cJSON_Minify`, references, deletion and the creation helpers.
- Size arithmetic beyond two gigabytes in the PNG decoder, where the source's own tests have already refused.
- Input and output, callbacks of the host, clocks and allocators; the shell, menu and device code of the repository.
