# Huffman coder — a verified Dafny model

This project models the core of a character-frequency Huffman compressor,
`src/encoding.cpp`. Compression counts how often each byte occurs and adds one
count for a pseudo end-of-file symbol. It then builds a coding tree by
repeatedly merging the two lightest entries of a priority queue, and derives
each symbol's code as its root-to-leaf path ("0" = zero child, "1" = one child).
It stores the frequency table, writes the code of every input byte in order,
and finally writes the end-of-file code. Decompression rebuilds the same tree
from the stored table, not by counting again. It then walks the tree bit by bit,
emits a byte at each literal leaf and stops at the end-of-file leaf.

Modules, one per stage of the source file:

- `HuffmanTypes` (types.dfy): symbols `Lit(byte) | EOF`, bits, the tree
  `Leaf(sym, weight) | Node(zero, one, weight)`, frequency tables, results, and
  the order in which the source's ordered map lists its keys.
- `Frequency` (frequency.dfy): `buildFrequencyTable`.
- `TreeBuilder` (tree.dfy): `buildEncodingTree`, with the priority queue as a
  sequence kept sorted by weight.
- `CodeTable` (codetable.dfy): both `buildEncodingMap` overloads.
- `Encoder` (encoder.dfy): `encodeData`.
- `Decoder` (decoder.dfy): `decodeData`.
- `Pipeline` (pipeline.dfy): `compress` and `decompress`, and the round trip.
- `Examples` (examples.dfy): the input "aab" worked through every stage.

Modelling choices:

- The byte stream is a `seq<byte>` and the bit stream a `seq<Bit>`. Each loop
  of the source is a method with a loop: a `for` loop writes the characters of
  one code, and the loop over the table's keys becomes a `while` loop over all
  257 symbol positions that skips the symbols not in the table. Each method is
  proved equal to a specification function, and the properties are lemmas
  about those functions. `Compress` and `Decompress` have no loop of their own;
  they chain the loop methods of the stages.
- The source's integer sentinels `PSEUDO_EOF` and `NOT_A_CHAR` become the
  `EOF` constructor and the symbol-less `Node` constructor.
- The source reads each byte into a plain `char`, whose signedness C++ leaves
  to the platform. The model assumes plain `char` is signed, as on x86, so
  bytes 128..255 become the keys -128..-1. The table's ordered map therefore
  lists bytes 128..255 first, then bytes 0..127, then the end-of-file key. `Rank` encodes that order,
  and the leaves enter the queue in it. `PSEUDO_EOF` is defined in `encoding.h`,
  which is not part of this model. The model assumes it is larger than every
  byte key (256, the customary value).
- The priority queue library is not part of this model. The model fixes one
  tie rule: an entry is enqueued behind every entry of equal or smaller weight,
  so equal weights leave first in, first out. Compress and decompress use the
  same rule, which is all the round trip needs.
- Failures are values. Where the source's library would throw an error, the
  model returns a `Failure`: `EmptyTable` (a tree asked of an empty table,
  where the source peeks into the empty queue and the library throws), `MissingCode` (a byte with no
  code), `Truncated` (the bits end before the end-of-file code) and `NoChild`
  (the root is a literal leaf, where the source would follow a null child).

## Model

| member | source | states |
|---|---|---|
| `HuffmanTypes.Rank` | src/encoding.cpp:18-20 | a byte's position in the key order is its signed-char key plus 128 (plain `char` assumed signed); the end-of-file key is last |
| `HuffmanTypes.SymbolAt` | src/encoding.cpp:31 | the key order enumerates every symbol exactly once (it inverts `Rank`) |
| `HuffmanTypes.EntriesCount` | src/encoding.cpp:31-33 | listing a table in key order yields each (symbol, count) entry exactly once |
| `HuffmanTypes.ReachesPrefix` | src/encoding.cpp:56-68 | two root-to-leaf paths where one is a prefix of the other are the same path to the same symbol |
| `HuffmanTypes.CodeBitsAppend` | src/encoding.cpp:76-77 | turning code characters into bits (c - 48) distributes over concatenation and keeps only 0/1 |
| `Frequency.CountsAreOccurrences` | src/encoding.cpp:19-21 | after the read loop the table has a key for exactly the bytes that occur, each counting its occurrences, and no EOF key |
| `Frequency.TotalCounts` | src/encoding.cpp:19-21 | the counts after the read loop add up to the input length |
| `Frequency.FrequencyTableCounts` | src/encoding.cpp:16-24 | keys are EOF plus the bytes present; each byte count is its number of occurrences; EOF counts 1; counts sum to length + 1 |
| `Frequency.EmptyInputTable` | src/encoding.cpp:16-24 | the empty input gives {EOF: 1} |
| `Frequency.BuildFrequencyTable` | src/encoding.cpp:16-24 | the read loop and the final EOF increment produce the table of `FrequencyTableOf` |
| `TreeBuilder.EnqueueSplices` | src/encoding.cpp:32 | enqueuing inserts the new entry at one position and moves nothing else |
| `TreeBuilder.EnqueueIsFifo` | src/encoding.cpp:32 | in a sorted queue the new entry goes behind every entry of no greater weight and ahead of every heavier one |
| `TreeBuilder.EnqueueSorted` | src/encoding.cpp:32 | enqueuing keeps the queue sorted by weight |
| `TreeBuilder.EnqueueKeeps` | src/encoding.cpp:32 | enqueuing adds exactly the new tree's leaves and weight to the queue |
| `TreeBuilder.Merge` | src/encoding.cpp:34-41 | each loop pass shrinks the queue by one, so the loop ends |
| `TreeBuilder.MergeTakesLightest` | src/encoding.cpp:35-41 | the new node's zero child is the lightest entry, its one child the next lightest, its weight their sum; it is spliced into the rest of the queue at its FIFO position and nothing else moves |
| `TreeBuilder.MergeKeeps` | src/encoding.cpp:34-41 | a loop pass keeps the queue sorted, its leaves, its total weight and the child-sum weight invariant |
| `TreeBuilder.MergeAllKeeps` | src/encoding.cpp:34-43 | the final tree holds the queue's leaves and total weight, and every node weighs the sum of its children |
| `TreeBuilder.EnqueueFromKeeps` | src/encoding.cpp:31-33 | adding the remaining table entries keeps the queue sorted and adds exactly their leaves and counts |
| `TreeBuilder.InitialQueueSpec` | src/encoding.cpp:30-33 | the filled queue is sorted, holds one leaf per table entry, and weighs the sum of the counts |
| `TreeBuilder.InitialQueueEmpty` | src/encoding.cpp:30-33 | the filled queue is empty exactly when the table is |
| `TreeBuilder.BuildTree` | src/encoding.cpp:29-44 | building succeeds exactly on a non-empty table |
| `TreeBuilder.BuildTreeSpec` | src/encoding.cpp:29-44 | every node weighs the sum of its children; the leaves are exactly the table's entries, each once with its count; the root weighs the sum of all counts |
| `TreeBuilder.BuildTreeSymbols` | src/encoding.cpp:29-44 | the tree's leaf symbols are exactly the table's keys |
| `TreeBuilder.BuildTreeSingle` | src/encoding.cpp:34-43 | a one-entry table skips the loop and returns its single leaf as the root |
| `TreeBuilder.BuildEncodingTree` | src/encoding.cpp:29-44 | the fill loop and the merge loop over the queue compute `BuildTree` |
| `CodeTable.BuildEncodingMapFrom` | src/encoding.cpp:56-68 | the walk gives codes to exactly the leaf symbols (internal nodes get none), and all codes are strings of '0' and '1' |
| `CodeTable.BuildEncodingMap` | src/encoding.cpp:49-51 | the walk from the root gives codes to exactly the leaf symbols, as '0'/'1' strings |
| `CodeTable.PrefixShift` | src/encoding.cpp:56-68 | putting a path `a` ahead of the walk's starting path prefixes every code with `a` and changes nothing else |
| `CodeTable.CodeIsPath` | src/encoding.cpp:56-68 | each symbol's code is the root-to-leaf path to a leaf carrying that symbol |
| `CodeTable.PrefixFree` | src/encoding.cpp:56-68 | no symbol's code is a prefix of (or equal to) another symbol's code |
| `CodeTable.SingleLeafCode` | src/encoding.cpp:56-68 | a single-leaf tree gives its symbol the empty code |
| `CodeTable.CodesNonEmpty` | src/encoding.cpp:58-65 | when the root is an internal node, every code has at least one bit |
| `Encoder.DataBitsAppend` | src/encoding.cpp:75-79 | the encoding of a concatenation is the concatenation of the encodings |
| `Encoder.WriteCode` | src/encoding.cpp:76-78 | writing one code appends exactly its bits, character c as bit c - 48 |
| `Encoder.EncodeData` | src/encoding.cpp:73-83 | the output is the codes of the input bytes in order, then the EOF code; it fails exactly when a needed code is missing |
| `Decoder.DecodeLiteral` | src/encoding.cpp:91-97 | following a path to a literal leaf emits that byte and resets the cursor to the root |
| `Decoder.DecodeEof` | src/encoding.cpp:91-98 | following a path to the EOF leaf stops with the output so far and reads no further bit |
| `Decoder.DecodeSingleLeaf` | src/encoding.cpp:89-91 | a tree that is only the EOF leaf reads no bit and outputs nothing |
| `Decoder.DecodeEmptyStream` | src/encoding.cpp:91-92 | with an internal root, an empty bit stream is reported as truncated |
| `Decoder.DecodeData` | src/encoding.cpp:88-99 | the cursor loop computes `Decode` |
| `Pipeline.DecodeDataBits` | src/encoding.cpp:73-99 | decoding the concatenated codes of some bytes emits exactly those bytes, in order |
| `Pipeline.RoundTrip` | src/encoding.cpp:104-121 | for any table holding EOF and every input byte, encoding succeeds and decoding with the same table's tree returns the input, whatever bits follow |
| `Pipeline.CompressRoundTrip` | src/encoding.cpp:104-121 | decompress(compress(x)) == x, also with padding after the EOF code |
| `Pipeline.CompressEmpty` | src/encoding.cpp:104-121 | the empty input is stored as {EOF: 1} with no bits, has a single-leaf tree, and decompresses to the empty input |
| `Pipeline.Compress` | src/encoding.cpp:104-111 | stores the input's frequency table and its encoding, which decompresses back to the input |
| `Pipeline.Decompress` | src/encoding.cpp:116-121 | rebuilds the tree from the stored table and decodes the stored bits |
| `Examples.AabCounts` | src/encoding.cpp:16-24 | "aab" counts as {'a': 2, 'b': 1, EOF: 1} |
| `Examples.AabTreeShape` | src/encoding.cpp:29-44 | 'b' and EOF merge first, and their parent queues behind 'a' |
| `Examples.AabCodes` | src/encoding.cpp:49-68 | 'a' gets "0", 'b' gets "10" and EOF gets "11" |
| `Examples.AabCompressed` | src/encoding.cpp:104-111 | "aab" is stored as its table and the bits 0 0 1 0 1 1 |

## Left out

- HuffmanTypes.Rank: the key order where plain `char` is unsigned (ARM,
  PowerPC) is not modelled. There the keys are 0..255 and the map lists bytes
  in plain byte order, which changes the order in which leaves enter the queue,
  the tree built when weights tie, and the stored bits. The round trip holds
  under either order, since compress and decompress use the same one.

- Stream I/O: `istream::get`, `rewindStream`, `ostream::put` and the bit-stream
  buffering are library calls; the model reads and writes sequences, and a
  second pass over the input is a second walk over the same sequence.
- Table serialisation (`output << frequencyTable`, `input >> frequencyTable`):
  the format belongs to the map library. The model stores the table as a value
  and assumes it is read back unchanged.
- `freeTree`: manual memory release has no counterpart over values. Its
  `else if` frees only the zero subtree of a node that has one, so the source
  leaks every one subtree; this is not modelled.
- The priority-queue library: only its ordering is modelled, as a sorted
  sequence with first-in-first-out ties. Its heap, and the queue key stored
  apart from the node's count, are not. The key always equals the count here.
- `BuildEncodingMapFrom`: the source also handles a node that has a symbol
  and children, or only one child. The tree builder never produces such nodes,
  and the `Tree` datatype cannot express them.
- `EncodeData`: a byte without a code fails with `MissingCode`. What the
  source's read-only map lookup returns for a missing key belongs to the map
  library. Compress always passes a complete code table, so this case never
  arises in compression.
- `DecodeData`: running out of bits fails with `Truncated` instead of the
  bit-stream library's end-of-stream behaviour, and a literal-leaf root fails
  with `NoChild` instead of following a null child.
- Counts are unbounded; the source's `int` counts would overflow on inputs of
  more than 2^31 - 1 bytes.
- Huffman optimality (minimal weighted path length) is not proved; the model
  proves the merge order that yields it, not the optimality theorem.
