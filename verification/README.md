# Static order-0 Huffman codec: a verified model

This project models the core of a static order-0 Huffman file compressor
written in Rust (`src/huff.rs` and `src/bitio.rs`), and proves properties of
that model in Dafny.

The compressor works in five steps:

1. It tallies the source bytes.
2. It scales the tallies into one byte per symbol, and pins the end-of-stream
   symbol (256) to 1.
3. It writes those counts as a run-length header straight onto the output file.
4. It builds a Huffman tree in a 514-node array and walks it to get a code
   per symbol.
5. It packs the codes of the source bytes, then the end-of-stream code,
   most-significant bit first, through a one-byte bit buffer.

The expander reads the header back, rebuilds the same tree, and walks it bit
by bit until it reaches the end-of-stream symbol.

The model has eight modules:

- `Common`: bytes, bits, the `Result` type with its single error
  `UnexpectedEof`, powers of two, and bit strings read most-significant first.
- `BitIo`: the bit channel `BitFile` (writer and reader records with pure step
  functions), `output_bits` and `input_bits` as loops, `close_output`, and
  `file_print_binary`.
- `Frequency`: `count_bytes` and `scale_counts`.
- `Header`: `output_counts` and `input_counts`, working on the file's bytes.
- `Tree`: `build_tree`.
- `Codes`: `convert_tree_to_code`.
- `Transcode`: `compress_data`, `expand_data`, and the whole-file routines.
- `Example`: the source `AAAB` worked through.

The compressed file is modelled as the header bytes followed by the packed
payload. The header is written and read on the file itself, before any bit
goes through the bit buffer (`get_file()` in `src/huff.rs`).

Two details of the header are easy to misread:

- **Gap bridging.** `output_counts` bridges a zero gap when the next nonzero
  slot is at most 3 slots past the run's last one (`next - last <= 3`,
  src/huff.rs:57-58). A bridged gap is therefore at most two zero slots
  wide. `Header.RunEndBridgesShortGaps` and `Header.RunsFromOrdered` state
  this bound.
- **Empty input.** The empty source does not round-trip as written; see
  "Findings". The model proves both what the code does and the corrected
  behaviour.

## Model

| member | source | states |
|---|---|---|
| BitIo.OpenWriter | src/bitio.rs:21-26 | a freshly opened writer (mask 0x80, rack 0) satisfies the writer invariant and holds no bits |
| BitIo.OutputBit | src/bitio.rs:30-51 | keeps the writer invariant (one-hot mask; rack below 256 with only already-written positions set); adds exactly one bit (1 for a nonzero argument) to everything written so far; shifts the mask and wraps it to 0x80; appends a byte exactly when the mask was 0x01; never alters bytes already written |
| BitIo.OutputBitArith | src/bitio.rs:31-34 | under the invariant the rack bit under the mask is clear; setting it to `b` keeps the rack below 256, keeps the higher bits, and makes `b` the bit under the mask |
| BitIo.OutputBitSeq | src/bitio.rs:30-51 | `output_bit` over a bit sequence keeps the writer invariant and never shortens the output; BitIo.OutputBitSeqWritten gives what it adds |
| BitIo.OutputBitSeqWritten | src/bitio.rs:30-51 | `output_bit` over a bit sequence keeps the invariant and adds exactly that sequence to what has been written |
| BitIo.OutputBitSeqKeepsOutput | src/bitio.rs:36-48 | writing bits only appends bytes; the bytes already out are unchanged |
| BitIo.EightBitsMakeAByte | src/bitio.rs:30-51 | eight `output_bit` calls from a fresh rack append exactly one byte, whose value is the eight bits read most-significant first, and leave mask 0x80 and rack 0 |
| BitIo.OutputBits | src/bitio.rs:54-81 | for counts up to 64, the loop has the same effect on the writer as `output_bit` applied to bits count-1 down to 0 of the code |
| BitIo.OutputBitsNothing | src/bitio.rs:55 | a count of 0 leaves the writer unchanged |
| BitIo.OutputBitsIgnoresHighBits | src/bitio.rs:57-59 | bits of the code at position `count` or above make no difference |
| BitIo.CloseOutput | src/bitio.rs:144-150 | appends one byte exactly when the mask is not 0x80; keeps the bytes already out; under the invariant the result unpacks to every bit written, then zero padding up to the byte boundary |
| BitIo.CloseOutputLength | src/bitio.rs:144-150 | a closed output holding n written bits has ceil(n/8) bytes |
| BitIo.OpenReader | src/bitio.rs:21-26 | a freshly opened reader at a file position satisfies the reader invariant, and the bits to come are the unread bytes unpacked most-significant first |
| BitIo.InputBit | src/bitio.rs:84-106 | fails exactly when the mask is 0x80 and no byte is left; consumes a byte exactly when the mask is 0x80; never changes the file |
| BitIo.InputBitReads | src/bitio.rs:84-106 | fails exactly when no bit remains; otherwise returns the next bit to come, leaves the rest to come, and keeps the reader invariant |
| BitIo.InputBitSeq | src/bitio.rs:84-106 | n `input_bit` calls return n bits and never change the file; reading 0 bits never fails |
| BitIo.InputBitSeqRemaining | src/bitio.rs:84-106 | n `input_bit` calls succeed exactly when at least n bits remain; they return the next n bits and leave the rest |
| BitIo.InputBits | src/bitio.rs:109-141 | for counts up to 64, fails exactly when that many `input_bit` calls fail; otherwise returns the value of those bits read most-significant first (below 2^n) and the reader state those calls leave |
| BitIo.InputBitsNothing | src/bitio.rs:110 | reading zero bits gives 0 and consumes nothing |
| BitIo.BitRoundTrip | src/bitio.rs:30-150 | writing any bit sequence, closing, and reading that many bits from a fresh reader over the bytes gives the sequence back |
| BitIo.FilePrintBinary | src/bitio.rs:159-171 | writes exactly `bits` characters; character i is the digit of bit bits-1-i of the code, so nothing is written for 0 bits |
| BitIo.PrintedBinaryValue | src/bitio.rs:159-171 | the printed digits, read back as a binary number, give the code modulo 2^bits |
| Frequency.CountBytes | src/huff.rs:239-249 | slot b holds the number of occurrences of byte b in the source |
| Frequency.CountBytesTotal | src/huff.rs:244-246 | the tally adds up to the length of the source |
| Frequency.MaxCount | src/huff.rs:252 | bounds every count, is attained by one when there are any, and is 0 for no counts |
| Frequency.ScaleCounts | src/huff.rs:251-271 | 257 slots with the end-of-stream slot 1; every byte slot below 255; a slot is nonzero exactly when its raw count is; scaling is the identity when the largest count is at most 254; larger counts never scale below smaller ones |
| Header.NextNonzero | src/huff.rs:34-36 | the first slot at or after i with a nonzero count, or 256 when none is left; every slot skipped is zero |
| Header.ExtendNonzero | src/huff.rs:47-49 | extends `last` over nonzero slots only, and stops at 255 or before a zero slot |
| Header.RunEnd | src/huff.rs:45-63 | the run's last slot is its start or nonzero; the next nonzero slot after it is more than three slots away (or there is none); every slot in between is zero |
| Header.RunEndBridgesShortGaps | src/huff.rs:51-62 | a run started on a nonzero slot never holds three zero slots in a row |
| Header.RunsFrom | src/huff.rs:40-79 | every run lies within `first..=255`; there is a run exactly when `first` is below 256; the first run starts at `first` |
| Header.RunsFromOrdered | src/huff.rs:40-79 | consecutive runs are increasing, with at least three zero slots between them |
| Header.RunsFromZeroGaps | src/huff.rs:53-78 | every slot between two runs, or after the last run, is zero, so every nonzero slot lies in a run |
| Header.RunsFromNonzeroEnds | src/huff.rs:40-79 | every run after the first starts on a nonzero slot, and every run ends on one unless it is a single slot |
| Header.RunsFromBridges | src/huff.rs:58-62 | when the first run starts on a nonzero slot, no run holds three zero slots in a row |
| Header.OutputCounts | src/huff.rs:30-84 | the header ends with the closing 0; it is just `[0]` exactly when every byte slot is zero; otherwise it opens at the first nonzero slot; what it encodes is Header.HeaderRoundTrip |
| Header.RunCounts | src/huff.rs:70-72 | one byte per slot of the run, holding the count truncated to a byte |
| Header.ReadByte | src/huff.rs:281-286 | reads the byte at the position exactly when one is left, and otherwise fails with an unexpected end of file |
| Header.ReadCounts | src/huff.rs:289-292 | succeeds exactly when the file holds one byte per slot of `first..=last` (nothing for an empty range); those slots get the bytes in order, every other slot is unchanged, and the position moves past them |
| Header.ReadRuns | src/huff.rs:288-300 | on success: 257 slots, and a position past the start (at least the terminating 0 is read) within the file |
| Header.InputCounts | src/huff.rs:273-303 | on success: 257 slots, every one below 256, the end-of-stream slot 1, and a position past the start within the file |
| Header.HeaderRoundTrip | src/huff.rs:273-303 | for a table of byte counts with a nonzero slot in 0..255, reading the header `output_counts` writes, whatever follows it, restores slots 0..255 and sets slot 256 to 1, and stops right after the header |
| Header.EmptyTableHeaderFails | src/huff.rs:34 | the all-zero table gets the header `[0]`, and reading it fails with an unexpected end of file |
| Header.OutputCountsFixed | src/huff.rs:30-84 | the corrected header always holds a run and the closing 0, at least 4 bytes; it opens at the first nonzero slot, or at 255 when slots 0..254 are zero |
| Header.FirstRunStart | src/huff.rs:34-36 | the leading-zero skip bounded by 255: the first nonzero slot at or after i, or 255 when slots i..254 are all zero; every slot skipped is zero |
| Header.HeaderRoundTripFixed | src/huff.rs:30-84 | with the skip bounded by 255, every table of byte counts round-trips through the header, the all-zero one included |
| Header.EmptyTableHeaderFixed | src/huff.rs:34 | the corrected header of the all-zero table is `[255, 255, 0, 0]`, and it reads back as that table with slot 256 set to 1 |
| Tree.Scan | src/huff.rs:93-105 | the scan returns the first and second live nodes in the order "smaller count, then lower index", the sentinel 513 standing for "none" |
| Tree.FindMins | src/huff.rs:93-105 | the scan over nodes `0..next_free` returns its first and second live nodes by count, then index, the sentinel 513 standing for "none" |
| Tree.FindMinsLive | src/huff.rs:107 | the scan finds a second minimum exactly when two or more nodes are live; otherwise its first minimum is the only live node |
| Tree.Merge | src/huff.rs:109-119 | node `next_free` gets the sum of the two counts and children `min_1` and `min_2`; both children keep their count as `saved_count` and drop to 0; no other node changes |
| Tree.MergeReady | src/huff.rs:109-119 | a merge of two live nodes removes one live node, keeps the total weight, and keeps `next_free` at 513 or below, so the 514-node array is never overrun |
| Tree.MergeCovers | src/huff.rs:109-119 | a merge keeps the build invariant: the symbols with a nonzero count hang below exactly the live nodes |
| Tree.BuildFrom | src/huff.rs:92-123 | the built array links every internal node to lower indices, and the root lies in 256..512 |
| Tree.Leaves | src/huff.rs:88-89 | the node array the build starts from: the 257 symbol counts, count 0 in nodes 257..512, and the sentinel 513 with count `u32::MAX` |
| Tree.BuildTree | src/huff.rs:88-124 | a 514-node array whose links point to lower indices, and a root in 256..512; Tree.BuildTreeCorrect gives its leaves and counts |
| Tree.BuildTreeCorrect | src/huff.rs:88-124 | the leaves below the root are exactly the symbols with a nonzero count; the root count is the total count, copied to its `saved_count`; the root index is 255 plus the number of such symbols, that is k-1 merges for k symbols |
| Tree.BuildTreeSingleLeaf | src/huff.rs:121-123 | when the end-of-stream symbol is the only one, the root is that leaf itself |
| Tree.ByteTableWeight | src/huff.rs:109 | counts that fit a byte cannot overflow the `u32` sums of the build |
| Tree.LeadsToPrefixFree | src/huff.rs:220-226 | a path that leads to a leaf is never a proper prefix of another path that leads to a leaf |
| Codes.ConvertTreeToCode | src/huff.rs:125-151 | every leaf below the node gets the bits of its path appended to the code so far, kept to 32 bits, with the path length added to the bit count; every other entry is unchanged |
| Codes.CodeTable | src/huff.rs:170 | 257 entries; a leaf in the tree gets a code as long as its depth, and every other entry is `Code(0, 0)`; Codes.CodeTableCorrect gives the code bits |
| Codes.CodeTableCorrect | src/huff.rs:125-151 | when every code fits in 32 bits, the code of a leaf in the tree is its path from the root, at most 32 bits long; leaves outside the tree keep the empty code |
| Codes.CodesPrefixFree | src/huff.rs:125-151 | no leaf's code is a prefix of another leaf's code |
| Transcode.CompressData | src/huff.rs:203-215 | the writer after the loop is the writer after every source byte's code, then the end-of-stream code |
| Transcode.DecodeSymbol | src/huff.rs:220-226 | the walk stops on a leaf (index at most 256) and consumes at least one bit from an internal node |
| Transcode.DecodeSymbolPath | src/huff.rs:220-226 | reading a leaf's path from a node walks to that leaf and consumes exactly the path |
| Transcode.ExpandData | src/huff.rs:217-235 | a tree whose root is the end-of-stream leaf decodes to no bytes, whatever the input |
| Transcode.ExpandPayload | src/huff.rs:217-235 | when every leaf's code is its path in the tree, decoding the codes of a source, then the end-of-stream code, gives back the source, whatever bits follow |
| Transcode.Model | src/huff.rs:159-163 | the table both sides agree on: 257 byte-sized slots, end of stream 1, a total that fits a `u32` |
| Transcode.TreeOf | src/huff.rs:169 | the tree built from a table of byte counts: links point down, root in 256..512 |
| Transcode.Body | src/main.rs:46-56 | the file written after a header (payload, then `close_output`) starts with that header |
| Transcode.CompressFile | src/huff.rs:154-181 | the compressed file starts with the header `output_counts` writes for the source's model; Transcode.RoundTrip says what the rest holds |
| Transcode.CompressFileFixed | src/huff.rs:154-181 | the same with the corrected header |
| Transcode.ExpandFile | src/huff.rs:184-200 | a file whose header cannot be read fails; Transcode.RoundTrip and Transcode.RoundTripFixed give what a compressed file expands to |
| Transcode.BodyBits | src/main.rs:46-56 | after the header, the file holds the payload bits, then zeros up to the byte boundary |
| Transcode.FixedHeaderAgrees | src/huff.rs:34-36 | the header as written and the corrected header agree on every table with a nonzero byte slot |
| Transcode.RoundTrip | src/huff.rs:154-200 | expanding the compressed file of any nonempty source gives the source back, provided every code fits in 32 bits |
| Transcode.RoundTripFixed | src/huff.rs:154-200 | with the corrected header, every source round-trips, the empty one included, provided every code fits in 32 bits |
| Transcode.EmptySourceFails | src/huff.rs:34 | the empty source compresses to the single byte 0, and expanding that fails with an unexpected end of file |
| Example.ExampleModel | src/huff.rs:251-271 | the model of `AAAB` is A=3, B=1, end of stream 1, every other slot 0 |
| Example.ExampleHeader | src/huff.rs:30-84 | its header is `[0x41, 0x42, 3, 1, 0]` |
| Example.ExampleHeaderReads | src/huff.rs:273-303 | that header reads back as the table, 5 bytes long |
| Example.ExampleBuild | src/huff.rs:88-124 | its tree has root 258 with count 5, and the leaves A, B and end of stream |
| Example.ExampleShape | src/huff.rs:93-119 | the scan first picks B and the end of stream (equal counts, B has the lower index) for node 257, then node 257 and A for the root 258 |
| Example.ExampleCodes | src/huff.rs:125-151 | the code table of that tree codes A as `1`, B as `00` and the end of stream as `01` |

## Left out

- `src/main.rs` is modelled only as the order of its calls: open the bit file, `compress_file`, then `close_output` (`Transcode.Body`). Its argument handling, messages and process exits are left out, and so is `src/utils.rs`: they are command-line glue.
- `print_model`, `print_char`, the `-d` flag of `compress_file` and `expand_file`, and `file_print_binary_to_stdout` are left out: they only print diagnostics.
- The pacifier dots and `pacifier_counter` are left out: they are console output with no effect on the data.
- Opening, creating, seeking and closing files, and write or read calls that fail for reasons other than the end of the file, are left out. Files are byte sequences, and writes always succeed.
- `close_input` is left out: it does nothing.
- `count_bytes` is modelled as the tally only; its `u64` counters are unbounded integers, since no source can overflow them.
- BitIo.OutputBits: requires a count of at most 64, because `1u64 << (count - 1)` overflows above that. BitIo.InputBits has the same bound for the same reason.
- BitIo.FilePrintBinary: requires at most 32 bits, because `1u32 << (bits - 1)` overflows above that. It returns the text instead of writing it to a file.
- BitIo.OutputBit: the rack is an `i32` in the source. It is modelled as a natural number below 256, which is all the invariant allows.
- BitIo.CloseOutputLength: stated for any valid writer rather than only for writers that started fresh, which is stronger.
- Tree.BuildTree: requires the total count to fit a `u32`, so the sums of line 109 cannot wrap. Tree.ByteTableWeight shows this holds for every table of byte counts, the only tables the codec builds from.
- Tree.BuildTreeCorrect: requires the end-of-stream count to be nonzero. Both callers pin it to 1. With a single live symbol other than 256, `next_free - 1` would not be that symbol.
- Transcode.ExpandData: requires the root to be 256 or above. A leaf root other than the end-of-stream symbol makes the source loop forever, and both callers build a tree whose root is at least 256. On an unexpected end of file the model returns the error without the bytes already written.
- Transcode.RoundTrip, Transcode.RoundTripFixed: both require every code to fit in the 32-bit `code_so_far` (tree depth at most 32). Counts scaled below 255 keep the depth well under 32, but this model does not prove it.

## Findings

| source | as written | input that shows it | evidently intended | confidence | as-written member | corrected member |
|---|---|---|---|---|---|---|
| src/huff.rs:34 | the leading-zero skip of `output_counts` runs while `first < 256`, so an all-zero byte table gives the header `[0]`, and `input_counts` then fails reading the `last` byte it always reads | the empty source: its header is `[0]` and its payload is empty, so the compressed file is `[0]` and expansion fails with an unexpected end of file | stop the skip at 255, so the all-zero table is written as one run `[255, 255, 0, 0]`, which reads back, and the empty source round-trips | high; not executed | Transcode.EmptySourceFails | Transcode.RoundTripFixed |
