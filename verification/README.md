# File compression core: bit packing, Shannon-Fano, Huffman and the archive container

This project models the compression core of a desktop file compressor.

- **Bit packer.** `BitHelper.ConvertToBytes` packs a string of `'0'`/`'1'` characters into bytes, most significant bit first. The last byte is padded with zeros.
- **Shannon-Fano codec.** `ShannonFanoCompressor` covers:
  - the byte frequency table, sorted by descending frequency;
  - the recursive split that assigns the codes;
  - the payload layout: record count, symbol/code records, bit length, packed bits;
  - the decoder that reads the payload back and decodes greedily.
- **Huffman encoder.** `HuffmanCompressor` covers:
  - the frequency table;
  - the bottom-up tree built by merging the two least frequent nodes;
  - the depth-first code table;
  - the encoding part of `Compress`.
- **Archive container.** `CompressionService` covers:
  - `CompressToArchive`, which writes a count, then per entry the name, the optional password, the algorithm tag, the payload length and the payload;
  - `ListFilesInArchive`;
  - the header scan and password gate of `DecompressArchive`;
  - the scan, match and skip of `ExtractSingleFile`.

The .NET `BinaryWriter`/`BinaryReader` encodings the formats rely on are modelled at byte level in `BinaryIO`:

- little-endian `int`;
- 7-bit-encoded string lengths;
- one byte per character;
- short reads at the end of a stream;
- seeking past the end.

Exceptions become `None` or `Fail` values. The file system is replaced by byte sequences and a map from path to contents.

The modules are `Common` (Option and parse results), `BinaryIO`, `BitHelper`, `Frequencies` (the dictionary counting loop both codecs share), `PrefixCodes` (encoding with a code map and the greedy decoder), `ShannonFano`, `Huffman` and `Archive`.

Two behaviours of the code differ from what a user of the tool would expect. The model follows the code in both:

- **Single-byte buffers.** A lossless codec should give every buffer back. In the code, a Shannon-Fano buffer made of one repeated byte gets the empty code and decodes to nothing. This is recorded under "## Findings". The archive stores what the code as written produces, so the loss carries through to extraction, as `Archive.SingleSymbolFileLost` proves.
- **Missing input files.** One might expect a missing input file to be reported for that file alone while the others are still archived. In the code, the exception escapes the parallel loop and no archive is written. This is proved as `Archive.CompressFails`.

## Model

| member | source | states |
|---|---|---|
| BitHelper.ConvertToBytesBits | helpers/ConvertToBytes.cs:7-21 | Bit i of the packed buffer, read most significant bit first, is set exactly when input character i is '1'; the padding bits are clear |
| BitHelper.ConvertToBytesRoom | helpers/ConvertToBytes.cs:9-10 | The buffer holds every input bit and fewer than eight bits more |
| BitHelper.ConvertToBytesWeights | helpers/ConvertToBytes.cs:14-16 | Input position i sets the bit of weight 2^(7 - i%8) of byte i/8 exactly when it is '1' |
| BitHelper.PackRoundTrip | helpers/ConvertToBytes.cs:7-21 | Reading back the first \|s\| bits of the packed form of a bit string s gives s |
| BinaryIO.Int32RoundTrip | Services/CompressionService.cs:24 | The four bytes written for an int read back as that int, and the reader moves four bytes on |
| BinaryIO.StringRoundTrip | Services/CompressionService.cs:38 | A string written with its 7-bit length prefix reads back as itself for ASCII text, ending right after it |
| BinaryIO.CharsRoundTrip | Services/CompressionService.cs:29 | Characters written one byte each read back with ReadChars of their count |
| BinaryIO.ReadBytesSlice | Services/ShannonFanoCompressor.cs:137 | Away from the end of the stream ReadBytes returns exactly the bytes asked for |
| Frequencies.TallyIsFrequencyTable | Services/HuffmanCompressor.cs:20-30 | The counting dictionary has one record per distinct symbol of the input, each with its number of occurrences, and nothing else |
| Frequencies.TallyAtLeastTwo | Services/ShannonFanoCompressor.cs:30-37 | The table has two records or more exactly when the input holds two different symbols |
| PrefixCodes.GreedyDecodes | Services/ShannonFanoCompressor.cs:140-153 | The bit-by-bit greedy decoder recovers a text from its encoding when the decode table inverts the code map and the codes are non-empty and prefix-free |
| PrefixCodes.EncodeIsBitString | Services/ShannonFanoCompressor.cs:89-93 | Concatenating codes made of '0'/'1' gives a bit string |
| ShannonFano.BuildFrequencyTableSpec | Services/ShannonFanoCompressor.cs:28-43 | The table holds each distinct byte once with its count, sorted by non-increasing frequency |
| ShannonFano.SortDesc | Services/ShannonFanoCompressor.cs:39-42 | The sorted table is a permutation of its input, ordered by non-increasing frequency |
| ShannonFano.Split | Services/ShannonFanoCompressor.cs:52-66 | The split index is the first one at which the running sum reaches half of the segment total, and it lies inside the segment |
| ShannonFano.SplitBelowEnd | Services/ShannonFanoCompressor.cs:55-66 | With non-increasing frequencies, a segment of at least two symbols splits before its last symbol, so both halves are non-empty |
| ShannonFano.AssignCodes | Services/ShannonFanoCompressor.cs:47-76 | The recursion leaves every code outside the segment as it was |
| ShannonFano.CodeTableSpec | Services/ShannonFanoCompressor.cs:47-76 | With two symbols or more every code is a non-empty '0'/'1' string shorter than the table and no code is a prefix of another; a single symbol gets the empty code |
| ShannonFano.DecodeTableInverts | Services/ShannonFanoCompressor.cs:87 | With two symbols or more, the decoder's dictionary maps every byte's code back to that byte and its keys are prefix-free |
| ShannonFano.DecompressPayload | Services/ShannonFanoCompressor.cs:118-154 | The decoder reads back the records, the bit length and the packed bytes exactly as the writer laid them out |
| ShannonFano.ReadEntriesRoundTrip | Services/ShannonFanoCompressor.cs:126-134 | The record loop reads back the written symbol/code records and stops right after them |
| ShannonFano.RoundTrip | Services/ShannonFanoCompressor.cs:79-154 | Decompressing a compressed buffer gives it back, for the empty buffer and every buffer holding two different bytes |
| ShannonFano.SingleSymbolDecodesEmpty | Services/ShannonFanoCompressor.cs:49-50 | A non-empty buffer of one repeated byte encodes to no bits and decompresses to the empty buffer |
| ShannonFano.SingleBitTable | Services/ShannonFanoCompressor.cs:49-50 | A one-record table with the code "0" has a non-empty, prefix-free, writable bit-string code |
| ShannonFano.PayloadRoundTrip | Services/ShannonFanoCompressor.cs:79-154 | A payload written with any table of distinct symbols and non-empty prefix-free bit-string codes covering the input decodes back to the input |
| ShannonFano.IntendedRoundTrip | Services/ShannonFanoCompressor.cs:79-154 | With the corrected single-symbol code, decompressing a compressed buffer gives it back for every buffer |
| Huffman.MinIndex | Services/HuffmanCompressor.cs:43-44 | The first node of least frequency in queue order, the one a stable OrderBy puts first |
| Huffman.MergeStepSpec | Services/HuffmanCompressor.cs:43-57 | A merge replaces a least frequent node and a least frequent one of the rest by a parent with those two as children and their summed frequency |
| Huffman.MergeStepKeeps | Services/HuffmanCompressor.cs:41-58 | A merge keeps the multiset of leaves, the total frequency and well-formedness of the queue |
| Huffman.BuildTreeSpec | Services/HuffmanCompressor.cs:41-60 | The final node holds every leaf of the queue, weighs the queue's total, and is well formed when the queue is |
| Huffman.BuildHuffmanTreeSpec | Services/HuffmanCompressor.cs:32-61 | For a non-empty text the tree's leaves are the frequency records, its root frequency is the text length, and it has 2S - 1 nodes; an empty text has no tree |
| Huffman.SizeFromLeaves | Services/HuffmanCompressor.cs:47-53 | A tree with S leaves has 2S - 1 nodes |
| Huffman.BuildCodeTableSpec | Services/HuffmanCompressor.cs:63-75 | Visiting a subtree from path p adds its leaf symbols, each mapped to p followed by the path that reaches it, and leaves other entries alone |
| Huffman.CodeTableSpec | Services/HuffmanCompressor.cs:63-75 | The table maps exactly the tree's symbols to their root-to-leaf paths; codes are '0'/'1' strings, non-empty unless the root is a leaf, and none is a prefix of another |
| Huffman.TreeOfText | Services/HuffmanCompressor.cs:32-61 | The tree of a text carries each of its symbols at exactly one leaf, and has an inner root exactly when the text holds two different symbols |
| Huffman.CompressSpec | Services/HuffmanCompressor.cs:77-104 | Compression fails exactly on an empty text; otherwise the encoded length is the sum of frequency times code length, and the packed bytes unpack to the encoding |
| Huffman.EncodedDecodes | Services/HuffmanCompressor.cs:86-95 | With two or more symbols the encoding is uniquely decodable: the greedy decoder with the inverse table recovers the text |
| Archive.DecodeEntry | Services/CompressionService.cs:178-183 | An unknown algorithm tag fails with UnknownAlgorithm exactly when the tag is neither codec; the entry fails with Malformed exactly when the chosen decoder fails |
| Archive.CompressFile | Services/CompressionService.cs:79-89 | The compressor switch succeeds exactly for Shannon-Fano, and for Huffman when the Huffman compressor returns a payload; a throwing compressor gives CompressorFailed and any other tag UnsupportedAlgorithm |
| Archive.Collect | Services/CompressionService.cs:68-92 | Collecting succeeds exactly when every path exists and the chosen algorithm compresses each file without throwing, with one entry per path |
| Archive.CollectStored | Services/CompressionService.cs:68-92 | A successful collection stores, for each path in processing order, the file name, the password, the algorithm and the compressed contents |
| Archive.CompressFails | Services/CompressionService.cs:52-124 | No archive is written exactly when an input is missing, the algorithm is unsupported with inputs present, or the Huffman compressor throws on an input; the Error field is set in exactly those cases, and the result names the output file and the algorithm |
| Archive.CompressEntries | Services/CompressionService.cs:97-114 | A written archive is the count followed by one entry per input path, and the result records the total input size and the archive size |
| Archive.ShannonFanoArchiveRoundTrip | Services/CompressionService.cs:52-196 | Files archived with Shannon-Fano, each empty or holding two different bytes, come back from decompression by an admitted user with their names and contents, in collection order |
| Archive.LosslessArchiveRoundTrip | Services/CompressionService.cs:52-196 | For any codec that gives each input file back, decompressing the written archive as an admitted user gives every file back under its name, in collection order |
| Archive.LockedArchiveRefused | Services/CompressionService.cs:146-170 | A written archive of at least one file whose password bars the user decompresses to WrongPassword, whatever the algorithm |
| Archive.SingleSymbolFileLost | Services/CompressionService.cs:79-196 | A file of one repeated byte archived with Shannon-Fano and decompressed by a user its password admits comes back as an empty file of the same name |
| Archive.OneEntryDecodes | Services/CompressionService.cs:129-196 | A one-entry archive whose entry the user may open and that decodes to c extracts to one output with the entry's name and contents c |
| Archive.EntryAt | Services/CompressionService.cs:101-110 | The reader finds each written entry's name, password, tag, payload length and payload, in turn |
| Archive.ListFilesRoundTrip | Services/CompressionService.cs:17-48 | Listing a written archive gives the stored names in stored order |
| Archive.ListFrom | Services/CompressionService.cs:26-44 | The listing loop from entry k of a chain of entries gives the names of entries k on |
| Archive.DecompressRoundTrip | Services/CompressionService.cs:129-196 | Decompressing a written archive fails with WrongPassword if any entry's password bars the user, and otherwise decodes every entry in stored order |
| Archive.ScanFrom | Services/CompressionService.cs:146-170 | The header scan from entry k stops with WrongPassword exactly when a later entry bars the user, and otherwise returns entries k on |
| Archive.LockedFromAny | Services/CompressionService.cs:160-167 | The scan's barring test from entry k holds exactly when some entry at k or after has a password that differs from the user's |
| Archive.GateBeforeDecoding | Services/CompressionService.cs:146-174 | Whether decompression fails with WrongPassword does not depend on the decoders, since the gate runs before any decoding |
| Archive.DecodeAll | Services/CompressionService.cs:174-193 | Decoding never reports WrongPassword, and on success yields one output per entry carrying that entry's name |
| Archive.DecodeAllOk | Services/CompressionService.cs:174-193 | When every entry decodes, decoding yields exactly those outputs in entry order |
| Archive.ExtractWritten | Services/CompressionService.cs:200-259 | Extracting from a written archive behaves as the scan over the entries: stop at a barring entry, decode the first match, otherwise NotFound |
| Archive.ExtractFinds | Services/CompressionService.cs:234-249 | When no earlier entry matches or bars the user, the first matching entry is decoded with its own algorithm |
| Archive.ExtractRefuses | Services/CompressionService.cs:217-229 | A barring entry reached before any match stops extraction with WrongPassword |
| Archive.ExtractMissing | Services/CompressionService.cs:250-257 | When no entry matches or bars the user, the skip loop ends in NotFound |

## Left out

- File I/O, `FileStream`, `File.ReadAllBytes`/`WriteAllBytes`, the output directory and `log.txt`. Archives and files are byte sequences, and the input files are a map from path to contents.
- Concurrency.
  - `Parallel.ForEach`, `ConcurrentBag`, `Task.Run` and `Task.WaitAll` are not modelled.
  - The order in which entries are collected is a parameter `order`, which may be any permutation of the input paths.
  - Decoding is modelled in entry order. The first failure is the outcome, standing in for the `AggregateException`.
- Archive.DecodeAll: on a failure it returns only the failure. In the source every entry is decoded and written by its own task, and `Task.WaitAll` throws only after all of them finish, so the entries that decode are still written to disk. Two entries with the same name race for one output path; the model does not say which contents win.
- Cancellation tokens, the pause gate, progress reporting and message boxes. The wrong-password message box becomes the `WrongPassword` outcome.
- `CompressionResult.CompressionRatio`, a floating-point quotient.
- Sizes. `OriginalSize` is the sum of the input lengths in the map.
- Archive.CompressEntries: `CompressedSize` is stated as the length of the whole archive. The source reads `FileInfo.Length` of the output file while the `using var` stream and writer are still open, so bytes the writer has not yet flushed are not counted and the recorded size may be smaller, down to 0.
- `Path.GetFileName` is a parameter.
- The Huffman payload codec used by the archive. `HuffmanCompressor.CompressBytes` and `DecompressBytes` are not part of this model and are parameters of the archive functions. The compressor returns `None` where it would throw, as the Huffman code shown does on an empty input. The Huffman `Compress` routine works on a generic symbol sequence in place of the text of a file.
- Huffman decoding. The source has no decoder for the encoding shown, so `Huffman.EncodedDecodes` proves unique decodability with the greedy decoder instead.
- `BitHelper.ConvertToBitString` is not part of this model.
  - It is defined as the inverse the decoder needs: the first `bitLength` bits, most significant bit first.
  - It fails when `bitLength` is negative or exceeds the buffer.
- Dictionary enumeration order is taken to be insertion order, and `OrderBy`/`OrderByDescending` are stable. Code assignment depends on both.
- ShannonFano.CompressBytes: always succeeds, writing the bit length modulo 2^32. The source builds the encoding in a .NET string, which holds at most 0x3FFFFFDF characters (just under 2^30), so for any longer encoding `encoded.ToString()` throws and `CompressToArchive` records an Error with no archive.
- Characters are one byte each, which is what UTF-8 writes for ASCII. The round-trip lemmas require ASCII names, passwords, tags and codes, and lengths below 2^31.
- A password of "" stands for both `null` and the empty string. The source writes length 0 for either and treats either as no password.
- ShannonFano.RoundTrip: excludes buffers of one repeated byte, because the source loses their data (see "## Findings"). `ShannonFano.IntendedRoundTrip` covers every buffer for the corrected code. Both round-trip lemmas bound the encoding only by `int` (`|bits| + 7 < 2^31`). So they also cover encodings longer than 0x3FFFFFDF bits, where the source throws before writing anything.
- The same empty code arises in Huffman for a one-leaf tree, as `Huffman.CodeTableSpec` states. Huffman decoding is not part of this model, so there is no Huffman round trip to correct.

## Findings

| source | as written | input that shows it | evidently intended | confidence | as-written member | corrected member |
|---|---|---|---|---|---|---|
| Services/ShannonFanoCompressor.cs:49-50 | The code recursion returns at once for a one-symbol segment, so a table with a single symbol keeps the empty code. Every byte then encodes to no bits, the stored bit length is 0, and the decoder returns an empty buffer | Any non-empty buffer of one repeated byte, such as the three bytes 65, 65, 65 | A lone symbol gets a one-bit code such as "0", so every buffer decompresses to itself | not executed | ShannonFano.SingleSymbolDecodesEmpty | ShannonFano.IntendedRoundTrip |
