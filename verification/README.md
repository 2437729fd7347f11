# Decompression and checksum models

A Dafny model of the decompression core of `keramics-compression` (canonical Huffman codes, DEFLATE, bzip2,
the entropy stage of LZFSE, LZNT1) and of the two checksums in `keramics-checksums` (Adler-32, CRC-32), with
proofs about it. `dafny verify dfyconfig.toml` checks the whole project.

How the model is built:

- Every reader has a ghost bit sequence and a position. A stream is a finite bit sequence that goes on with zero
  bits for ever, because that is what the bit buffers hand out when the input ends.
- Every format has a specification that says what data means: a function from bytes to the content or to a
  failure (`DeflateFormat.Inflated`, `Bzip2Format.Decompressed`, `LzfseFormat.Block`, `Lznt1Format.Decompressed`).
  It never sees the caller's buffer; where the code lets buffer contents through (LZFSE copies with distance 0),
  the buffer is an explicit argument and `LzfseIndependence.BlockIndependentIff` says exactly when it matters.
- The decoders are classes and methods with the original's loops, in-place arrays and word operations. Each is
  proved to succeed if and only if the specification gives a meaning, and then to produce exactly that meaning and
  leave the rest of the buffer untouched. Every loop terminates on every input.
- The encoders are not in the repository. They are written here as specification functions that leave choices of
  the formats open: blocks and their types, tokens, codes and how their sizes are written, padding bits, and whether
  the last block is marked, for DEFLATE; run-length forms, origin rows, symbol maps, trees with their start values and
  moves, selectors, levels, the number of blocks and whether there is an end marker, for bzip2; frequencies, triples,
  final states and padding bits for LZFSE; blocks and tokens for LZNT1. The specification is proved to undo them.
  Where the decoder refuses some of what a format allows, the round trip is stated as "gives the content back if and
  only if", with a lemma at an input that is refused. For each format a last lemma shows that every byte string within
  stated limits has an encoding.
- Errors are a plain failure (`None` or `false`); the texts of the errors are not modelled. Where an arithmetic
  overflow or an index out of bounds stops the program, the model fails. In a build without overflow checks a bzip2
  code size below 0 and an over-subscribed check value of bzip2 still end in failure; an LZFSE frequency above 32767 or
  a frequency sum beyond 16 bits goes on with wrapped numbers there, which is not modelled. More symbols with codes than
  a Huffman tree has places stop every build.

Facts about the code that the proofs bring out, each with its exact condition:

- bzip2 levels 2 to 9 are accepted in the stream header, but the block buffer always has 100000 bytes, so larger
  blocks are refused (`Bzip2Encoder.StreamRoundTrip`, `Bzip2Refusals.LargeBlockRefused`).
- The running size in bzip2 trees may be 20 in the format; the decoder refuses it at once, also when no code ends up
  with 20 bits (`Bzip2Trees.TreeRoundTrip`, `Bzip2Refusals.DeepTreeRefused`, `Bzip2Refusals.HighStartRefused`).
- bzip2 compares the checksum of all output with the last checksum it read, so a stream is accepted only when that
  one is the checksum of the whole content. Streams of one block pass; streams of two blocks that follow the format
  are in general refused (`Bzip2Encoder.StreamRoundTrip`, `Bzip2Refusals.TwoBlocksRefused`).
- bzip2 accepts a stream that is cut off between its last block and the end marker, if and only if the checksum of
  that block is the one of the whole content (`Bzip2Encoder.StreamRoundTrip`, `Bzip2Encoder.CutOffAccepted`).
- bzip2 reads the flag of randomized blocks and does not honour it: a set flag changes nothing in the output, so for
  such a block the round trip is about the bytes before they would be derandomized.
- DEFLATE refuses dynamic blocks that describe more than 30 distance codes, or none, both of which section 3.2.7 of
  RFC 1951 allows (`DeflateEncoder.LegalAccepted`, `DeflateRefusals.LiteralBlockRefused`).
- DEFLATE accepts a stream without a last block when the data ends with it: marked or not, the stream is treated the
  same (`DeflateEncoder.RoundTrip`).
- An LZFSE block whose first copies have distance 0 shows bytes the caller left in the buffer; the output is
  independent of them exactly when a non-zero distance comes first (`LzfseIndependence.BlockIndependentIff`,
  `LzfseIndependence.BufferShown`).
- LZFSE compares the room left as a signed 32-bit number: a triple in bounds is carried out if and only if the low 32
  bits of the room are below 2 GiB and enough for its copy (`LzfseFormat.RoomIff`).
- LZNT1's error for a shift that ran out cannot occur, and its 16-bit sums cannot overflow, because the data of a block
  has at most 4096 bytes (`Lznt1Format.Growth`, `Lznt1.NoOverflow`).
- LZNT1 stops without an error when the output buffer is exactly full behind a block, although more blocks follow; a
  buffer that is full inside a block is an error (`Lznt1Encoder.RoundTrip`).
- A bzip2 origin pointer past the end of the block is accepted and stands for a definite other row
  (`Bzip2Transform.PastBlock`).
- Adler-32 leaves an initial value with unreduced halves unreduced when there is no data
  (`Adler32.ChecksumReduced`).

What reader and writer share (tables, constants, checksums, codes) is stated once more without the shared definition:
closed forms of the tables (`DeflateFormat.LengthClosed`, `LzfseValues.DClosed`, `Fse.SlotClosed`), the codes and numbers
that the formats publish (`DeflateFixed.LiteralCode`, `HuffmanCodes.RfcExample`, `Bzip2Format.SignatureBytes`), the
checksums as sums and as division of bits (`Adler32.ChecksumClosed`, `Crc32Bits.CrcIsBitCrc`), and the meaning of LZFSE
triples as LZ77 tokens (`LzfseMeaning.RunMeaning`).

Files: `Words`, `Bits`, `Options`, `Permutations` and `CountingSort` are shared groundwork; `BitBuffers`,
`DeflateBitstream`, `Bzip2Bitstream`, `LzfseBitstream` and `Bitstreams` are the readers; `HuffmanCodes` and `Huffman`
the code theory and the tree; `Lz77` matches; `Deflate*`, `Bzip2*` with `BurrowsWheeler`, `RunLength`, `MoveToFront`
and `ZeroRuns`, `Fse*` with `Lzfse*`, and `Lznt1*` the formats, where `...Format` says what data means, `...Encoder` holds
the writer and the round trips, and `...Refusals` the inputs that are refused; `Adler32`, `Crc32`, `Crc32Bits` and
`Crc32Contexts` the checksums.

## Model

| member | source | states |
|---|---|---|
| DeflateBitstreams.DeflateBitstream.GetValue | keramics-compression/src/deflate.rs:154-186 | returns the next bits of the zero-padded input as a number, low bit first, for any count up to 32 and any earlier calls; at most 7 bits stay buffered |
| DeflateBitstreams.DeflateBitstream.SkipBits | keramics-compression/src/deflate.rs:188-208 | moves the position by exactly the count and keeps the buffer equal to the next unread bits |
| DeflateBitstreams.DeflateBitstream.ReadData | keramics-compression/src/deflate.rs:129-140 | refills whole bytes: the buffer keeps holding exactly the bits that follow the ones handed out, zero bits past the end |
| DeflateBitstreams.DeflateBitstream.OffsetIsRoundedUp | keramics-compression/src/deflate.rs:129-149 | while no padding was read, the data offset is the start plus the bits handed out rounded up to bytes |
| DeflateBitstreams.DeflateBitstream.CopyBytes | keramics-compression/src/deflate.rs:95-126 | from a byte boundary it copies exactly the next input bytes and touches nothing else; it fails exactly when input or output is too short, and the buffer flush drops nothing |
| DeflateBitstreams.DeflateBitstream.UnreadData | keramics-compression/src/deflate.rs:142-151 | never changes anything, because less than a byte is buffered between calls |
| Bits.BitOfData | keramics-compression/src/deflate.rs:129-140 | bit i of the input is bit i mod 8 of byte i / 8, counted from its low end for DEFLATE and from its high end for bzip2 and LZFSE |
| Bits.LsbValueBit | keramics-compression/src/deflate.rs:154-186 | a number read low bit first has the k-th bit read as its bit k |
| Bits.MsbValueBit | keramics-compression/src/bzip2.rs:84-115 | a number of n bits read high bit first has the k-th bit read as its bit n - 1 - k |
| Bzip2Bitstreams.Bzip2Bitstream.GetValue | keramics-compression/src/bzip2.rs:84-115 | returns the next bits of the zero-padded input as a number, high bit first; chunks of 24 bits lose nothing |
| Bzip2Bitstreams.Bzip2Bitstream.SkipBits | keramics-compression/src/bzip2.rs:118-138 | moves the position by exactly the count and keeps the buffer equal to the next unread bits |
| LzfseBitstreams.LzfseBitstream.GetValue | keramics-compression/src/lzfse.rs:137-169 | returns the next bits, high bit first, of the bytes before the start offset taken backwards, zero-padded |
| LzfseBitstreams.LzfseBitstream.SkipBits | keramics-compression/src/lzfse.rs:171-191 | moves the position by exactly the count and keeps the buffer equal to the next unread bits |
| Bitstreams.Bitstream.GetValue | keramics-compression/src/traits.rs:15-21 | the bits that the Huffman coder reads are the same for every kind of stream: those at the position, which moves by the count |
| Huffman.HuffmanTree.Build | keramics-compression/src/huffman.rs:55-142 | for every size list succeeds exactly when there are at most 65535 sizes, none above the limit, at least one non-zero, the Kraft sum is at most 1 and the symbol table has a place for each symbol with a code; then the symbols are sorted by size and symbol |
| Huffman.HuffmanTree.DecodeSymbol | keramics-compression/src/huffman.rs:145-169 | on any bit stream returns the symbol whose canonical code comes next and moves by its size, and fails exactly when no code comes next |
| CountingSort.FilledIsOrder | keramics-compression/src/huffman.rs:104-137 | the counting sort that fills the table puts every key in its place: the filled table is the stable sorting order |
| CountingSort.OrderStable | keramics-compression/src/huffman.rs:114-137 | that order sorts by key and keeps equal keys in their original order |
| CountingSort.OrderPermutation | keramics-compression/src/bzip2.rs:726-740 | it is a permutation of all indices |
| HuffmanCodes.CodesFit | keramics-compression/src/huffman.rs:81-92 | with a Kraft sum of at most 1 the canonical codes of each size fit that many bits |
| HuffmanCodes.LeftIsKraft | keramics-compression/src/huffman.rs:82-92 | the running value of the subscription check ends as what the Kraft sum leaves of the code space |
| HuffmanCodes.PrefixFree | keramics-compression/src/huffman.rs:145-169 | at most one symbol's code can start at a position of a stream |
| HuffmanCodes.DecodeCode | keramics-compression/src/huffman.rs:145-169 | a stream that starts with the code of a symbol decodes to that symbol |
| HuffmanCodes.DecodeEncoded | keramics-compression/src/huffman.rs:145-169 | every concatenation of codes decodes back to the symbols it was made from |
| HuffmanCodes.CompleteDecodes | keramics-compression/src/huffman.rs:145-169 | with a Kraft sum of 1 decoding never fails, whatever the bits |
| HuffmanCodes.HitSymbol | keramics-compression/src/huffman.rs:153-160 | when the running code lies among the codes of its size, the table entry that is read is within the filled prefix and holds the symbol of that code |
| HuffmanCodes.Canonical | keramics-compression/src/huffman.rs:94-142 | the codes are those of section 3.2.2 of RFC 1951: codes of one size are consecutive in symbol order, and a longer code continues behind every shorter one |
| HuffmanCodes.RfcExample | keramics-compression/src/huffman.rs:94-142 | the eight symbols of the example in RFC 1951 get the codes listed there |
| Lz77.CopyMatch | keramics-compression/src/deflate.rs:700-707 | the copy extends the output by bytes that each equal the one `distance` places before, overlaps included |
| Lz77.CopyMatchUnique | keramics-compression/src/deflate.rs:700-707 | prefix and period determine the result of a copy |
| Lz77.CopyInPlace | keramics-compression/src/deflate.rs:700-707 | the in-place loop computes that extension and leaves the rest of the buffer alone |
| DeflateTrees.ReadCodeLengthSizes | keramics-compression/src/deflate.rs:320-325 | the code-length sizes land at the places the fixed sequence names |
| DeflateFormat.SizeOrder | keramics-compression/src/deflate.rs:35-37 | the sequence is 16, 17, 18, 0 and then the sizes alternately from 8 up and from 7 down |
| DeflateTrees.ExpandCodeSizes | keramics-compression/src/deflate.rs:341-395 | the filled entries are the run-length expansion (codes 16, 17, 18) of the decoded symbols with no stale entry left, and it fails exactly when that expansion does |
| DeflateTrees.BuildDynamicTrees | keramics-compression/src/deflate.rs:282-422 | succeeds exactly when the bits describe two acceptable codes with an end-of-block code, and the trees then hold those codes |
| DeflateTrees.FixedLiteralsAcceptable | keramics-compression/src/deflate.rs:426-450 | the fixed literal sizes form an acceptable code |
| DeflateTrees.FixedDistancesAcceptable | keramics-compression/src/deflate.rs:426-463 | the fixed distance sizes form an acceptable code |
| DeflateFixed.LiteralCode | keramics-compression/src/deflate.rs:426-450 | every fixed literal code is the one in section 3.2.6 of RFC 1951 |
| DeflateFixed.DistanceCode | keramics-compression/src/deflate.rs:451-463 | fixed distance codes are five-bit numbers in order |
| Deflate.DeflateContext.BuildFixedTrees | keramics-compression/src/deflate.rs:425-467 | building the fixed trees cannot fail, and they hold the fixed codes |
| Deflate.StoredSizes | keramics-compression/src/deflate.rs:509-518 | the two halves of the stored header match exactly when they are complements of each other |
| Deflate.AlignToByte | keramics-compression/src/deflate.rs:503-508 | skips to the next byte boundary of the input |
| Deflate.DecompressStoredBlock | keramics-compression/src/deflate.rs:502-537 | succeeds exactly when the stored block is well formed and fits, and then appends its bytes |
| Deflate.ReadMatch | keramics-compression/src/deflate.rs:655-683 | length and distance are the base values plus their extra bits, read in that order, with the tables of closed form below; lengths are 3 to 258 and distances 1 to 32768 |
| DeflateFormat.LengthClosed | keramics-compression/src/deflate.rs:40-48 | the length tables in closed form: k + 3 up to code 7, then four codes to each number of extra bits, and 258 without extra bits for the last code |
| DeflateFormat.DistanceClosed | keramics-compression/src/deflate.rs:51-60 | the distance tables in closed form: k + 1 up to code 3, then two codes to each number of extra bits |
| DeflateFormat.CodeLimits | keramics-compression/src/deflate.rs:40-60 | no length code exceeds 258 and no distance code 32768, whatever its extra bits |
| Deflate.DecompressCompressedBlock | keramics-compression/src/deflate.rs:619-720 | succeeds exactly when the interpreter of literals and matches over the bit sequence does, with the same output and end position; the rest of the buffer is untouched |
| DeflateFormat.UnusedSymbolRefused | keramics-compression/src/deflate.rs:649-714 | symbols 286 and 287, which have fixed codes, are refused |
| Deflate.DeflateContext.DecompressBitstream | keramics-compression/src/deflate.rs:481-616 | the loop over blocks agrees with the block interpreter in success, output, size and end position |
| DeflateFormat.ReservedRefused | keramics-compression/src/deflate.rs:489-612 | a block of the reserved type 3 is refused wherever it occurs |
| Deflate.DeflateContext.Decompress | keramics-compression/src/deflate.rs:470-479 | succeeds exactly when the data has a meaning: blocks as in section 3.2 of RFC 1951 over the zero-padded bits, less the dynamic headers that describe no distance code or more than 30, up to a block marked as the last or the end of the data; the output is that meaning, independent of the buffer's earlier contents, and later bytes are untouched |
| DeflateTokens.LengthExtraFits | keramics-compression/src/deflate.rs:655-665 | every length from 3 to 258 has a code whose extra bits hold it |
| DeflateTokens.DistanceExtraFits | keramics-compression/src/deflate.rs:676-683 | every distance from 1 to 32768 has a code whose extra bits hold it |
| DeflateTokens.LengthTable | keramics-compression/src/deflate.rs:40-48 | each length code starts where the values of the one before it end, but for 258, which also the code before the last can express |
| DeflateTokens.DistanceTable | keramics-compression/src/deflate.rs:51-60 | each distance code starts where the values of the one before it end |
| DeflateTokens.TokensRoundTrip | keramics-compression/src/deflate.rs:632-714 | a block written from literals and matches under any acceptable codes reads back to their expansion and ends at its last bit if and only if no match reaches back behind the start of the output and there is room; otherwise it is refused |
| DeflateEncoder.DescriptionRoundTrip | keramics-compression/src/deflate.rs:288-422 | a dynamic header of any counts, with any mix of repeat codes, reads back to the code sizes it was written from if and only if it has at most 286 literal and 30 distance codes, an end-of-block code, and three acceptable codes; otherwise it is refused |
| DeflateEncoder.LegalAccepted | keramics-compression/src/deflate.rs:288-422 | of the headers that section 3.2.7 of RFC 1951 allows, the accepted ones are those with at most 30 distance codes of which at least one is in use |
| DeflateEncoder.StoredRoundTrip | keramics-compression/src/deflate.rs:502-537 | a stored block at any bit position, with any padding bits and any second length field, reads back to its bytes if and only if that field is the complement of the length and there is room; otherwise it is refused |
| DeflateEncoder.BlocksRoundTrip | keramics-compression/src/deflate.rs:489-612 | any list of stored, fixed and dynamic blocks reads back to what they stand for, one behind the other, up to the first header that is refused or the first block without room; a list whose last block is not marked ends with the data |
| DeflateEncoder.RoundTrip | keramics-compression/src/deflate.rs:470-616 | inflating a packed stream of blocks, whether its last block is marked or not, gives exactly the content of the blocks if every dynamic header and every stored length is accepted and the content fits, and fails otherwise |
| DeflateEncoder.EveryStringInflates | keramics-compression/src/deflate.rs:470-616 | every byte string is the content of a stream that inflates to it |
| DeflateFixed.KnownAnswer | keramics-compression/src/deflate.rs:470-616 | the five bytes 4b 4c 1a 85 00, a fixed block with a match of length 258 and distance 2, inflate to 130 times "ab" |
| DeflateRefusals.LiteralBlockRefused | keramics-compression/src/deflate.rs:411-420 | a dynamic block of one literal with one distance code of zero bits, which RFC 1951 allows, is refused |
| Bzip2SymbolStack.MapRoundTrip | keramics-compression/src/bzip2.rs:662-707 | the two-level map of any set of bytes, with empty groups marked or not, reads back to a list of exactly those bytes in increasing order |
| Bzip2SymbolStack.ReadSymbolStack | keramics-compression/src/bzip2.rs:657-708 | fills the stack with the bytes the two-level map marks, in order, and returns their number plus 2 |
| MoveToFront.FrontPermutes | keramics-compression/src/bzip2.rs:628-636 | moving an entry to the front permutes the stack |
| MoveToFront.Front | keramics-compression/src/bzip2.rs:628-636 | the entry comes first, the ones before it move up by one place, the others stay |
| Bzip2Selectors.SelectorsAreTrees | keramics-compression/src/bzip2.rs:609-639 | although the stack has seven entries, every selector read is the index of a tree |
| Bzip2Selectors.SelectorsRoundTrip | keramics-compression/src/bzip2.rs:609-639 | move-to-front coding of any selector list is undone, and exactly its bits are used |
| Bzip2Selectors.ReadSelectors | keramics-compression/src/bzip2.rs:602-654 | the in-place loop stores exactly the decoded selectors and fails exactly when a unary value reaches the number of trees |
| Bzip2Trees.TreeRoundTrip | keramics-compression/src/bzip2.rs:554-580 | a full code written from any start value with any moves up and down between 1 and 20 reads back to its sizes if and only if no running size is 20, the start value included; otherwise it is refused |
| Bzip2Trees.TreeIff | keramics-compression/src/bzip2.rs:554-597 | any start value and any lists of moves, well formed or not, read as a tree if and only if every running size that is met stays from 0 to 19 and the sizes form a full code |
| Bzip2Trees.ReadMoves | keramics-compression/src/bzip2.rs:559-576 | any moves up and down are followed to their end if and only if the running size stays from 0 to 19 |
| Bzip2Trees.FormOf | keramics-compression/src/bzip2.rs:554-580 | every full code with sizes up to 20 can be written from every start value, and is accepted in the shortest form if and only if the start value and all sizes are below 20 |
| Bzip2Trees.CheckIsFull | keramics-compression/src/bzip2.rs:587-597 | the check value is zero exactly for sizes that are all non-zero with a Kraft sum of 1 |
| Bzip2Trees.ReadCodeSize | keramics-compression/src/bzip2.rs:559-576 | the loop over one size ends on every input, agrees with the difference code and fails at size 20 or below 0 |
| Bzip2Trees.ReadHuffmanTree | keramics-compression/src/bzip2.rs:548-599 | succeeds exactly when the bits describe a full code, and the tree then holds it, so decoding with it cannot fail |
| ZeroRuns.RunValueOfDigits | keramics-compression/src/bzip2.rs:468-470 | bijective base 2: the digits of a run length stand for that length |
| ZeroRuns.AccumulateDigit | keramics-compression/src/bzip2.rs:496-498 | or-ing a run symbol in at its position is adding its digit |
| ZeroRuns.FinishRun | keramics-compression/src/bzip2.rs:469-470 | or-ing the top bit in and subtracting one gives the run length |
| ZeroRuns.SymbolsRoundTrip | keramics-compression/src/bzip2.rs:452-541 | move-to-front and zero-run coding of any block over the used bytes is undone |
| Bzip2BlockData.BlockRoundTrip | keramics-compression/src/bzip2.rs:452-541 | symbols and the end symbol, each written with the tree that its group's selector names, read back to what they stand for, and exactly their bits are used |
| Bzip2BlockData.GroupedIsSymbolBits | keramics-compression/src/bzip2.rs:530-541 | that code is the first 50 symbols under the tree of the first selector, the next 50 under that of the second, and so on |
| Bzip2BlockData.EmptyMap | keramics-compression/src/bzip2.rs:468-490 | a block whose map marks no byte is empty, however many run symbols it has |
| Bzip2BlockData.StoreSymbol | keramics-compression/src/bzip2.rs:468-527 | one turn of the loop emits the pending run and the byte of the symbol, updates the stack, and fails exactly when the block would get too long |
| Bzip2BlockData.ReadBlockData | keramics-compression/src/bzip2.rs:432-545 | succeeds exactly when the symbol stream has a meaning that fits a block, stores it, ends where it ends, and keeps the stack a permutation of the used bytes; it decodes at most 50 symbols per selector and 50 more, each of at most 20 bits |
| BurrowsWheeler.SuccessorRow | keramics-compression/src/bzip2.rs:736-740 | the stable sorting permutation of the last column leads from each row to the row rotated by one |
| BurrowsWheeler.InverseTransform | keramics-compression/src/bzip2.rs:741-777 | walking the permutation from a row that equals s reads exactly s, for every non-empty s, periodic ones included |
| BurrowsWheeler.TransformExists | keramics-compression/src/bzip2.rs:711-781 | every non-empty string has a last column and an origin row |
| Bzip2Transform.FillPermutations | keramics-compression/src/bzip2.rs:736-740 | the table filled in place is the stable sorting permutation of the block |
| RunLength.RoundTrip | keramics-compression/src/bzip2.rs:743-777 | the output stage undoes run-length coding (runs of 4 to 255 as four bytes and a count) for every string, zero runs and adjacent maximal runs included |
| Bzip2Transform.OutputInverts | keramics-compression/src/bzip2.rs:726-778 | inverse transform and output stage together undo the transform of any run-length form of a string |
| Bzip2Transform.PastBlock | keramics-compression/src/bzip2.rs:741-745 | an origin pointer past the block is not refused: it stands for the number of bytes in the block that are less than its first byte |
| Bzip2Transform.ReverseTransform | keramics-compression/src/bzip2.rs:711-781 | succeeds exactly when the expanded walk fits the output, and then appends it; the rest of the buffer is untouched |
| Bzip2.ReadHeader | keramics-compression/src/bzip2.rs:206-231 | reads the 48-bit signature as two halves and the fields behind it, and fails exactly on an unknown signature |
| Bzip2Format.SignatureBytes | keramics-compression/src/bzip2.rs:206-231 | a block header is recognised exactly at the bytes 31 41 59 26 53 59 and the end marker exactly at 17 72 45 38 50 90 |
| Bzip2.ReadContent | keramics-compression/src/bzip2.rs:340-400 | symbol map, selectors, trees and symbols of a block are read as the format says, over selectors left by earlier blocks |
| Bzip2.Bzip2Context.DecompressBlocks | keramics-compression/src/bzip2.rs:309-413 | the loop over blocks agrees with the block interpreter in success, output and last checksum |
| Bzip2.Bzip2Context.Decompress | keramics-compression/src/bzip2.rs:268-306 | succeeds exactly when the data is a stream header and well-formed blocks up to an end marker or the end of the data, the content fits and the last checksum read is that of the content; the output is the content and later bytes are untouched |
| Bzip2Format.FileLimits | keramics-compression/src/bzip2.rs:268-306 | whatever decompresses has at least 14 bytes, starts with BZ and has a level from 1 to 9 |
| Bzip2Encoder.ContentRoundTrip | keramics-compression/src/bzip2.rs:340-400 | a block written with any suitable symbol map, selectors and full codes in any form reads back to its column, whatever earlier blocks left behind, if and only if it has at most 100000 bytes and no running size of a tree is 20; otherwise it is refused |
| Bzip2Encoder.TreesRoundTrip | keramics-compression/src/bzip2.rs:372-383 | the trees of a block, in whatever form, read back if no running size is 20, and are refused otherwise |
| Bzip2Encoder.PartsRoundTrip | keramics-compression/src/bzip2.rs:318-413 | any number of encoded blocks of any level, with or without the end marker behind them, are read back one behind the other, each through all stages, and fail at the first that exceeds 100000 bytes, has a running size of 20 or finds no room |
| Bzip2Encoder.StreamRoundTrip | keramics-compression/src/bzip2.rs:268-428 | a stream of any level and any number of blocks, whole or cut off before its end marker, decompresses to its content if and only if the content fits, every block has at most 100000 bytes, no running size of a tree is 20 and the last checksum in the stream is that of the whole content; otherwise it is refused |
| Bzip2Encoder.CutOffAccepted | keramics-compression/src/bzip2.rs:322-340 | a stream that is cut off behind a single block, before its end marker, is accepted under the same condition as the whole one |
| Bzip2Encoder.CombinedOfOne | keramics-compression/src/bzip2.rs:415-424 | for at most one block the format's combined checksum is the checksum of the content |
| Bzip2Encoder.RoundTrip | keramics-compression/src/bzip2.rs:268-428 | a stream of any level with at most one block and the format's checksum decompresses to its content if the block is accepted in this sense and the content fits, and is refused otherwise |
| Bzip2AnyString.PlainChoicesSuit | keramics-compression/src/bzip2.rs:340-400 | every block of any level can be written: with all bytes marked, any full code for 258 symbols and selectors for every group |
| Bzip2AnyString.EveryStringDecompresses | keramics-compression/src/bzip2.rs:268-428 | every string whose run-length form fits a block of a level, the empty one included, has a file of that level, and it decompresses to the string if and only if the run-length form has at most 100000 bytes and the string fits |
| Bzip2AnyString.EmptyFile | keramics-compression/src/bzip2.rs:268-428 | the 14 bytes of an empty bzip2 file decompress to nothing |
| Bzip2Refusals.LargeBlockRefused | keramics-compression/src/bzip2.rs:513-518 | a file of level 9 that follows the format is refused because its block has 100001 bytes |
| Bzip2Refusals.DeepTreeRefused | keramics-compression/src/bzip2.rs:571-576 | at every level a file that follows the format is refused because its codes have up to 20 bits |
| Bzip2Refusals.HighStartRefused | keramics-compression/src/bzip2.rs:554-576 | at every level a file that follows the format, with code sizes of 8 and 9 only, is refused because its trees are written from start value 20 |
| Bzip2Refusals.TwoBlocksRefused | keramics-compression/src/bzip2.rs:415-424 | a stream of two blocks that follows the format is refused: its combined checksum is not the checksum of all output |
| Fse.Partition | keramics-compression/src/lzfse.rs:491-511 | for a symbol of frequency f, the next-state intervals of its f entries are disjoint and cover exactly the states below the state count |
| Fse.SlotClosed | keramics-compression/src/lzfse.rs:491-511 | entry w of a symbol of frequency f reads as many bits as f + w must be shifted by to lie between the state count and twice that, and its delta is the shifted number less the state count |
| Fse.SlotUnique | keramics-compression/src/lzfse.rs:491-511 | only one number of bits does so |
| FseTables.TablePartition | keramics-compression/src/lzfse.rs:484-516 | in a whole table every state follows exactly one state of each symbol in use, no state outside the range follows any, and with frequencies that add up to the state count each state has an entry |
| FseTables.StateForUnique | keramics-compression/src/lzfse.rs:484-516 | the encoder's state for a symbol and a next state is the only one that leads there |
| FseTables.EntriesStay | keramics-compression/src/lzfse.rs:484-516 | every entry belongs to a symbol in use, reads at most k bits and leads only to states below 2^k |
| Lzfse.BuildDecoderTable | keramics-compression/src/lzfse.rs:466-518 | succeeds exactly when there are at most 256 symbols and the frequencies add up to at most the state count, and builds the table of all entries in symbol order |
| Lzfse.BuildValueDecoderTable | keramics-compression/src/lzfse.rs:521-580 | the same with each entry widened by the extra bits, base and mask of its symbol |
| Lzfse.BuildTables | keramics-compression/src/lzfse.rs:742-779 | the four tables of a block exist exactly when each of the four frequency lists fits its state count |
| LzfseValues.ValuePartition | keramics-compression/src/lzfse.rs:554-577 | value tables split the states like plain tables once the extra bits are set aside |
| LzfseValues.LengthTables | keramics-compression/src/lzfse.rs:73-85 | the ranges of the L and M symbols follow each other without gap or overlap up to 315 and 2359 |
| LzfseValues.DistanceTable | keramics-compression/src/lzfse.rs:60-71 | so do the ranges of the D symbols up to 262139 |
| LzfseValues.LSymbol | keramics-compression/src/lzfse.rs:73-78 | values below 16 have L symbols of their own; the others start at 16, 20, 28 and 60 |
| LzfseValues.MSymbol | keramics-compression/src/lzfse.rs:79-85 | values below 16 have M symbols of their own; the others start at 16, 24, 56 and 312 |
| LzfseValues.DClosed | keramics-compression/src/lzfse.rs:60-71 | D symbols come in fours to each number of extra bits, in closed form |
| LzfseValues.SymbolUnique | keramics-compression/src/lzfse.rs:60-85 | a value lies in the range of one symbol only |
| LzfseValues.ValueRoundTrip | keramics-compression/src/lzfse.rs:1155-1175 | a value written for any next state is read back and leaves the decoder in that state |
| FseCoding.NeverStuck | keramics-compression/src/lzfse.rs:1076-1117 | with frequencies that add up to the state count no bit sequence leads to a missing entry |
| FseCoding.RoundTrip | keramics-compression/src/lzfse.rs:1071-1117 | encoding backwards with any number of interleaved states, four in this format, and decoding gives the symbols back and uses exactly the bits written |
| Lzfse.ReadLiteralValues | keramics-compression/src/lzfse.rs:1052-1122 | four states updated in place decode the same literals as a queue of states, rounded up to groups of four, and it fails exactly on bad counts, bad skip sizes or a missing entry |
| LzfseFormat.LiteralLimits | keramics-compression/src/lzfse.rs:1052-1075 | literals are read only for a count up to 40064 and a skip of at most 32 bits, and their number is the count rounded up to four |
| Lzfse.TakenApart | keramics-compression/src/lzfse.rs:1171-1175 | masking and shifting a joint read separates the value bits from the state bits |
| Lzfse.ReadValue | keramics-compression/src/lzfse.rs:1155-1175 | a value and its next state are the base plus the extra bits and the delta plus the state bits; it fails exactly for a state without entry |
| Lzfse.ExecuteInPlace | keramics-compression/src/lzfse.rs:1241-1283 | one triple copies literals and a match in place as the triple says, each byte of the match equal to the one at the last non-zero distance before it, and fails exactly when a bound is exceeded |
| Lzfse.ReadLmdValues | keramics-compression/src/lzfse.rs:1125-1291 | reading and carrying out triples one by one is reading all of them and then carrying them out, in success and output |
| LzfseFormat.SkipLimits | keramics-compression/src/lzfse.rs:1125-1150 | triples are read only behind a skip of at most 32 bits |
| LzfseMeaning.RunMeaning | keramics-compression/src/lzfse.rs:1241-1283 | carrying out any triples that start from a non-zero distance, when it succeeds, gives the LZ77 expansion of their tokens: for each triple its literals and a copy of its length at the last non-zero distance |
| Lzfse.DecompressBlock | keramics-compression/src/lzfse.rs:828-873 | succeeds exactly when the block has a meaning, appends it, and leaves the rest of the buffer untouched |
| LzfseEncoder.LmdsNeverStuck | keramics-compression/src/lzfse.rs:1153-1233 | with full tables no bit sequence of L, M and D values is refused |
| LzfseEncoder.LmdsRoundTrip | keramics-compression/src/lzfse.rs:1153-1233 | triples encoded backwards are read back, and exactly their bits are used |
| LzfseEncoder.BlockRoundTrip | keramics-compression/src/lzfse.rs:828-873 | an encoded block, anywhere in the data, with any final states and any padding bits, decodes to exactly what its literals and triples say |
| LzfseMeaning.BlockMeaning | keramics-compression/src/lzfse.rs:828-873 | an encoded block that decodes and does not depend on the buffer decodes to the LZ77 expansion of its literals and matches behind what was written already |
| LzfseEncoder.EveryStringDecodes | keramics-compression/src/lzfse.rs:828-873 | every string that fits the literal buffer has a block that gives it back behind whatever the output holds already if and only if after each run of literals the low 32 bits of the room left are below 2 GiB, as they are in every buffer below 2 GiB |
| LzfseFormat.RoomIff | keramics-compression/src/lzfse.rs:1244-1274 | a triple whose literals and distance are in bounds is carried out if and only if the low 32 bits of the room behind its literals are below 2 GiB and enough for its copy |
| LzfseIndependence.IndependentIff | keramics-compression/src/lzfse.rs:1241-1283 | carrying out triples from any point on gives the same output for every earlier buffer content if and only if no triple copies before a non-zero distance is in force |
| LzfseIndependence.BlockIndependentIff | keramics-compression/src/lzfse.rs:828-873 | the output of a block that succeeds is the same for every content of the buffer behind the bytes written already if and only if none of the triples it holds copies before a non-zero distance was given |
| LzfseIndependence.BufferShown | keramics-compression/src/lzfse.rs:1241-1283 | there is an encoded block whose output is the byte the buffer held, so that it differs from buffer to buffer |
| Lznt1Format.ShiftFor | keramics-compression/src/lznt1.rs:293-303 | the split is the largest shift up to 12 for which every byte of the block is within distance |
| Lznt1Format.Reaches | keramics-compression/src/lznt1.rs:293-303 | a shift of 12 reaches 16 bytes back, and each shift less doubles that |
| Lznt1Format.Growth | keramics-compression/src/lznt1.rs:294-303 | up to 32768 bytes a tuple keeps a bit for the length; a match takes a block from its first 4096 bytes to at most 4114 and adds at most 10 bytes from there on, so that a block of at most 4096 bytes of data never gets to 32768 |
| Lznt1.UpdateSplit | keramics-compression/src/lznt1.rs:294-303 | after any growth of the block, shift, mask and threshold are those of its size, and it fails exactly when the block exceeds 65536 bytes |
| Lznt1.NoOverflow | keramics-compression/src/lznt1.rs:216-222 | in such a block distance and length of every tuple fit 16 bits, so that neither sum wraps in any build |
| Lznt1.DecompressItem | keramics-compression/src/lznt1.rs:210-287 | a tuple is split at the shift in force, without overflow, and its match copied, a literal is stored, and it fails exactly when data, distance or room is missing |
| Lznt1.DecompressGroup | keramics-compression/src/lznt1.rs:207-304 | the eight items of a flag byte are taken as the group interpreter takes them, with the split in force at each, and the error for a shift that ran out never occurs |
| Lznt1.DecompressBlock | keramics-compression/src/lznt1.rs:177-312 | the loop over flag bytes agrees with the block interpreter in success and output |
| Lznt1.HeaderFields | keramics-compression/src/lznt1.rs:50-60 | the two masks of the header select the size and the compressed flag |
| Lznt1.Lznt1Context.Decompress | keramics-compression/src/lznt1.rs:79-173 | succeeds exactly when the data has a meaning; the output is that meaning, independent of the buffer's earlier contents, and later bytes are untouched |
| Lznt1Encoder.BlockRoundTrip | keramics-compression/src/lznt1.rs:198-305 | a block written from literals and matches, each tuple with the split in force at its place, reads back to their expansion if and only if no match reaches back behind the start of the output and there is room; otherwise it is refused |
| Lznt1Encoder.RoundTrip | keramics-compression/src/lznt1.rs:79-173 | for every size of buffer any list of stored and compressed blocks reads back to what the blocks that fit stand for, if these are all blocks or fill the buffer exactly, and is refused otherwise, also with a zero header and more data behind |
| Lznt1Encoder.KeptLongest | keramics-compression/src/lznt1.rs:79-173 | the blocks that fit are the longest prefix whose output is not longer than the buffer |
| Lznt1Encoder.EveryStringDecompresses | keramics-compression/src/lznt1.rs:79-173 | every byte string is the content of some data |
| Adler32.Mod65521 | keramics-checksums/src/adler32.rs:47-61 | is the exact remainder for every 32-bit value |
| Adler32.NoWrap | keramics-checksums/src/adler32.rs:70-80 | from reduced halves no addition wraps within 5552 bytes |
| Adler32.Adler32Context.Update | keramics-checksums/src/adler32.rs:64-92 | the batched update equals the per-byte definition of section 8.2 of RFC 1950: the running checksum is that of everything fed since the last result |
| Adler32.Adler32Context.Finalize | keramics-checksums/src/adler32.rs:37-43 | returns the checksum of everything fed since the last result, in whatever pieces, and starts over |
| Adler32.ChecksumClosed | keramics-checksums/src/adler32.rs:64-92 | the closed form: the low half is a plus the sum of the bytes, the high half b plus n times a plus the sum of each byte times the number of bytes from it to the end, both modulo 65521 |
| Adler32.KnownAnswer | keramics-checksums/src/adler32.rs:64-92 | the checksum of "Wikipedia" is 0x11e60398 |
| Adler32.ChecksumSplit | keramics-checksums/src/adler32.rs:64-92 | updating piece by piece gives the same checksum, however the data is split |
| Adler32.ChecksumReduced | keramics-checksums/src/adler32.rs:64-92 | both halves end up reduced exactly when the data is not empty or they were reduced before |
| Crc32.Lookup | keramics-checksums/src/crc32.rs:75-88 | one table lookup and shift are eight division steps, in both bit orders |
| Crc32Bits.ByteFed | keramics-checksums/src/crc32.rs:49-63 | eight division steps with a byte entered feed the eight bits of that byte one by one, from its high end or, reversed, from its low end |
| Crc32Bits.RemainderIsFeed | keramics-checksums/src/crc32.rs:75-88 | division of any data byte by byte is division of its own bits one by one, in both bit orders |
| Crc32Bits.CrcIsBitCrc | keramics-checksums/src/crc32.rs:66-88 | so are the checksums, complemented before and after |
| Crc32Contexts.Crc32Context.InitializeTable | keramics-checksums/src/crc32.rs:49-63 | each entry is eight division steps of its index |
| Crc32Contexts.Crc32Context.Update | keramics-checksums/src/crc32.rs:75-88 | the table-driven loop divides by the polynomial, for every polynomial and initial value: the running checksum is the remainder of exactly the bytes fed since the last result, all their bits included |
| Crc32Contexts.Crc32Context.Finalize | keramics-checksums/src/crc32.rs:66-72 | returns the checksum, by division of the data's own bits from the high end of each byte, of everything fed since the last result, in whatever pieces and however often the context is reused, and starts over |
| Crc32Contexts.ReversedCrc32Context.Update | keramics-checksums/src/crc32.rs:148-161 | the same for the reversed context: the running checksum is the reversed remainder of exactly the bytes fed since the last result |
| Crc32Contexts.ReversedCrc32Context.Finalize | keramics-checksums/src/crc32.rs:139-145 | returns the checksum, by reversed division of the data's own bits from the low end of each byte, of everything fed since the last result, and starts over |
| Crc32.RemainderAppend | keramics-checksums/src/crc32.rs:75-88 | division piece by piece gives the same remainder, however the data is split |
| Crc32.CrcReflection | keramics-checksums/src/crc32.rs:111-161 | the reversed checksum with polynomial, initial value and bytes bit-reversed is the bit-reversed checksum |
| Crc32.ReversedBits | keramics-checksums/src/crc32.rs:122-161 | reversal, which relates the two contexts, exchanges bit k with bit 31 - k of a word and bit k with bit 7 - k of a byte |
| Bzip2Refusals.ZeroChecksums | keramics-checksums/src/crc32.rs:75-88 | with bzip2's polynomial the checksums of one and of two zero bytes are 0xb1f7404b and 0xff489b82 |

## Left out

- Debug tracing, `Mediator`, `ErrorTrace`, layout maps and formatters: output only.
- LZFSE block headers and the loop over blocks (lzfse.rs:583-1049): the model starts from a frequency table and the header fields; the version 1 header reads its table at absolute offset 42, whatever the block's place.
- LZVN and ADC: the same copy loop with byte-sized opcodes, which would only add easier members.
- zlib: the wrapper around DEFLATE and its trailer check.
- Reuse of a decoder table vector that already has entries (lzfse.rs:513): the source always passes an empty one, and the model returns a new table.
- Date and time values, character encodings, data streams, file resolvers and format scanning.
- Bitstreams.Bitstream.GetValue: the trait object is a closed sum of the DEFLATE and bzip2 streams; the streams of LZX and LZXPRESS, which the Huffman coder is also used with, are not modelled.
- LZX and LZXPRESS (lzx.rs, lzxpress.rs): two more users of the Huffman coder and the same kind of copy loop.
- DeflateBitstreams.DeflateBitstream.UnreadData: requires that the bytes given back were taken from the input, since the subtraction in the source has no other meaning.
- Bzip2BlockData.ReadBlockData: the run accumulator is not cut to 64 bits; a run of more than 16 run symbols exceeds every block, so it is a failure in the model, while the source's shift by 64 or more bits stops or wraps with the build mode.
- Lzfse.ReadLiteralValues: the four states are a sequence that is updated at an index rather than an array.
- Lzfse.BuildDecoderTable: the state count is given by its exponent, since all of the source's counts are powers of two.
- Huffman.HuffmanTree.Build: the bounds error for a code offset (huffman.rs:121-126) is not modelled because no input reaches it; an index past the symbol table, which stops the source, is a failure.
- Start offsets past the end of the data: the constructors of the bit streams require the offset to lie within the data, as all callers in the source ensure.
