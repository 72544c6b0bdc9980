# Huffman processor model

This project models `HuffProcessor`, a Huffman compressor and decompressor for
byte streams, and proves that what it writes can be read back.

Compression makes two passes over the input:

- It counts every byte into 257 slots. Slot 256 is the end-of-stream symbol
  PSEUDO_EOF, fixed at count 1.
- It builds a Huffman tree by repeatedly merging the two lightest trees in a
  priority queue.
- It derives a code table from the tree. A leaf's code is its root-to-leaf
  path: 0 for a left branch, 1 for a right branch.
- It writes the magic word HUFF_TREE (0xface8201) in 32 bits.
- It writes the tree header in pre-order: bit 0 for an internal node, bit 1
  and a 9-bit symbol for a leaf.
- It writes the payload: the code of every byte, then the code of PSEUDO_EOF.

Decompression checks the magic word, parses the header back into a tree, and
walks the tree bit by bit. A 0 bit goes left and a 1 bit goes right. Each leaf
other than PSEUDO_EOF emits its byte and restarts at the root. The PSEUDO_EOF
leaf stops the walk.

Bits are `seq<bool>`, with `true` standing for 1 and the most significant bit
first. Bytes are the subset type `Byte` (0..255).

Exceptions become `Failure` values of a `Result`:

- `HuffException("illegal")` is `BadMagic`.
- `HuffException("invalid")` is `TruncatedHeader`.
- `HuffException("bad input")` is `TruncatedPayload`.
- A null dereference is `NullReference`.
- `remove()` on an empty queue is `EmptyQueue`.

The modules follow the methods of the class:

- `Bits`: fixed-width bit words.
- `HuffCommon`: constants, the tree, and errors.
- `Counting`, `TreeBuilder`, `CodeTable`, `Header`, `Encoder`, `Decoder`: one
  module per stage.
- `Processor`: `compress` and `decompress`.

The loops of the source are methods with loop invariants, each proved against
a specification function or an explicit postcondition:

- `ReadForCounts` fills a local array.
- `MakeTreeFromCounts` runs two loops over a queue.
- `CodingHelper` fills an array in place.
- `WriteCompressedBits` and `ReadCompressedBits` are the encoding and decoding
  loops.

The recursive header reader and writer are functions with lemmas.

The main result is stated in `Processor.Compress`:

- Every non-empty input comes back unchanged from `decompress`, whatever bits
  pad the stream.
- Every proper prefix of the stream fails to decompress.
- An empty input does not come back (see below).

### Where the code and its intended behaviour differ

Two methods are modelled as intended, not as written. Each is listed under
"## Findings":

- `writeHeader` never returns.
- `codingHelper` builds codes from decimal node values instead of direction
  bits.

On empty input, neither the code nor the model gives a round trip. The only
positive count is PSEUDO_EOF's, so the tree is a lone leaf and its code is
empty. The code's `compress` then fails on its own: after writing the magic word
and the header, `Integer.parseInt("", 2)` throws for that empty code, so no
payload is written. The model's `Compress` instead appends the empty code as no
bits (see "## Left out") and returns the magic word and the header. That stream
does not decompress either: `decompress` reads one bit and steps to a null child
of the leaf, or fails as truncated if no bit is left. A round trip for the
empty input would need a synthetic parent above a lone leaf, which the code
never creates.

## Model

| member | source | states |
|---|---|---|
| Bits.FromToBits | src/HuffProcessor.java:113-114 | a value that fits in `width` bits, written with `writeBits(width, v)`, reads back as the same value |
| Bits.ToFromBits | src/HuffProcessor.java:152-153 | any `width`-bit word that is read and written back gives the same bits; used to show that only the magic word passes the check |
| Counting.ReadForCounts | src/HuffProcessor.java:58-67 | the table has 257 slots; slot PSEUDO_EOF is 1; every slot b < 256 holds the number of occurrences of b in the input |
| Counting.NonEmptyInputHasTwoSymbols | src/HuffProcessor.java:58-67 | a non-empty input leaves at least two positive slots: its first byte and PSEUDO_EOF |
| TreeBuilder.InitialLeavesMembership | src/HuffProcessor.java:71-75 | the first loop queues a tree exactly when it is a leaf for a positive slot, weighted by that slot's count |
| TreeBuilder.InitialLeavesWeight | src/HuffProcessor.java:71-75 | the queued leaves weigh the sum of the positive counts |
| TreeBuilder.InitialLeavesOrdered | src/HuffProcessor.java:71-75 | the queued leaves have strictly increasing symbols, so no symbol is queued twice |
| TreeBuilder.IndexOfLightest | src/HuffProcessor.java:78-79 | `remove()` takes a tree no heavier than any other in the queue |
| TreeBuilder.MergeLightestTwo | src/HuffProcessor.java:77-84 | one merge pass removes a tree no heavier than any in the queue, then one no heavier than any left, and adds a node over the two (first on the left) weighing their sum; the queue shrinks by one and keeps its leaves, its total weight and the weight-sum invariant of every tree |
| TreeBuilder.MergeKeepsLeavesAndWeight | src/HuffProcessor.java:78-83 | replacing the two removed trees by a node over them, weighing their sum, changes neither the queue's leaves nor its total weight |
| TreeBuilder.Finish | src/HuffProcessor.java:85-86 | the final `remove()` fails on an empty queue and otherwise returns the last tree, which holds all the queued leaves |
| TreeBuilder.MakeTreeFromCounts | src/HuffProcessor.java:69-87 | the build succeeds if and only if some count is positive; failure means an empty queue; the tree's leaves are exactly the queued leaves; every internal node weighs the sum of its children; the root weighs the sum of the counts; two positive counts give an internal root |
| TreeBuilder.BuiltTreeLeaves | src/HuffProcessor.java:69-87 | the built tree's symbols are exactly the positive slots; each leaf carries its slot's count; no leaf occurs twice |
| TreeBuilder.SingleSymbolTree | src/HuffProcessor.java:69-87 | with a single positive slot, the tree is the lone leaf for that slot |
| CodeTable.CodeDomain | src/HuffProcessor.java:95-106 | a symbol gets a code if and only if some leaf of the tree holds it |
| CodeTable.CodeIsPathToLeaf | src/HuffProcessor.java:95-106 | following a symbol's code from the root ends on a leaf holding that symbol; under an internal root the code is not empty |
| CodeTable.PrefixFree | src/HuffProcessor.java:95-106 | no symbol's code is a prefix of another symbol's code |
| CodeTable.UnweightedCode | src/HuffProcessor.java:171-178 | codes depend only on shape and symbols, so the weightless tree rebuilt from the header has the same codes |
| CodeTable.CodingHelper | src/HuffProcessor.java:95-106 | every symbol below the node gets the path to the node followed by the symbol's code within it; every other entry keeps its value |
| CodeTable.MakeCodingsFromTree | src/HuffProcessor.java:88-94 | the table has 257 entries; entry s is the code of s, or null when no leaf holds s |
| CodeTable.AsWrittenCodings | src/HuffProcessor.java:97-104 | the literal `codingHelper` gives an entry to exactly the symbols of the tree |
| CodeTable.AsWrittenCodeIsNotBinary | src/HuffProcessor.java:97-104 | for the tree with 65 on the left and PSEUDO_EOF on the right, the literal codes are "065" and "0256", while the direction codes are 0 and 1 |
| Header.WriteHeader | src/HuffProcessor.java:108-122 | the intended pre-order header (0 for an internal node; 1 and the 9-bit symbol for a leaf) opens with a bit telling a leaf from a node and holds at least one leaf's 10 bits |
| Header.AsWrittenWriteHeader | src/HuffProcessor.java:108-122 | the literal `writeHeader`, followed for any number of loop passes, returns only when called on null |
| Header.HeaderLength | src/HuffProcessor.java:108-122 | the header of a tree with n leaves is 11n - 1 bits |
| Header.ReadTreeHeader | src/HuffProcessor.java:166-180 | parsing fails only as a truncated header; a successful parse consumes at least one bit and returns the rest of the stream; a leaf read with fewer than 9 bits left gets symbol -1 and leaves nothing |
| Header.HeaderRoundTrip | src/HuffProcessor.java:166-180 | parsing the pre-order header of a tree, followed by any bits, rebuilds the tree's shape and symbols with weight 0, consumes exactly the header and returns the following bits untouched |
| Header.HeaderTruncation | src/HuffProcessor.java:167-170 | a proper prefix of a header yields no usable tree: parsing fails, or ends with a -1 leaf and nothing left |
| Header.AsWrittenWriteHeaderNeverReturns | src/HuffProcessor.java:108-122 | the literal `writeHeader` does not return for any tree within any number of loop passes; on a lone leaf it writes the leaf's 10 bits once per pass |
| Encoder.CodesOfDefined | src/HuffProcessor.java:125-134 | the byte codes can be written if and only if every byte has a code; otherwise a null entry is dereferenced |
| Encoder.PayloadDefined | src/HuffProcessor.java:124-137 | the payload can be written if and only if every byte and PSEUDO_EOF have codes; every failure is a null dereference |
| Encoder.CodesOfSnoc | src/HuffProcessor.java:125-134 | reading one more byte appends exactly that byte's code |
| Encoder.WriteCompressedBits | src/HuffProcessor.java:124-137 | the output is the code of every input byte in order followed by the code of PSEUDO_EOF, or a null dereference when a code is missing |
| Decoder.DecodeWalk | src/HuffProcessor.java:187-209 | the walk fails only by running out of bits or by stepping below a leaf; a walk standing on a leaf always fails |
| Decoder.ReadCompressedBits | src/HuffProcessor.java:187-209 | the decoding loop produces exactly the walk's output or error |
| Decoder.WalkCode | src/HuffProcessor.java:195-205 | from an internal node, a symbol's code reaches its leaf: the walk stops there for PSEUDO_EOF, and otherwise emits the symbol and restarts at the root on the bits after the code |
| Decoder.WalkCodePrefix | src/HuffProcessor.java:190-193 | a code cut short runs out of bits |
| Decoder.MatchingPayloadDefined | src/HuffProcessor.java:124-137 | a table built from a tree that holds every input byte and PSEUDO_EOF never fails to encode |
| Decoder.PayloadCons | src/HuffProcessor.java:125-136 | the payload of a non-empty input is the first byte's code followed by the payload of the rest |
| Decoder.PayloadRoundTrip | src/HuffProcessor.java:187-209 | under an internal root, decoding the payload followed by any bits gives back exactly the input |
| Decoder.PayloadTruncation | src/HuffProcessor.java:190-193 | under an internal root, every proper prefix of the payload fails as truncated |
| Processor.MagicBitsValue | src/HuffProcessor.java:20-21 | the 32 bits written for HUFF_TREE read back as HUFF_TREE |
| Processor.Decompress | src/HuffProcessor.java:149-160 | `decompress` checks the magic word, parses the header and decodes the payload with the parsed tree |
| Processor.MagicCheck | src/HuffProcessor.java:152-155 | a stream is rejected as illegal if and only if it is shorter than 32 bits or its first 32 bits are not the magic word |
| Processor.DecompressAfterHeader | src/HuffProcessor.java:149-160 | after the magic word and a tree's header, decompression decodes the remaining bits with that tree, less its weights |
| Processor.UnweightedMatches | src/HuffProcessor.java:171-178 | the rebuilt, weightless tree has the same codes and symbols as the tree that was written |
| Processor.StreamRoundTrip | src/HuffProcessor.java:44-56 | for an internal root, the magic word, the header and the payload, followed by any bits, decompress to the input |
| Processor.StreamTruncation | src/HuffProcessor.java:149-160 | every proper prefix of such a stream fails to decompress |
| Processor.HeaderCut | src/HuffProcessor.java:166-170 | a stream cut inside the header fails |
| Processor.PayloadCut | src/HuffProcessor.java:187-193 | a stream cut inside the payload fails |
| Processor.BuiltTreeSymbols | src/HuffProcessor.java:69-87 | the built tree holds only symbols 0..PSEUDO_EOF, so the code table can index them |
| Processor.SymbolsFitBuilt | src/HuffProcessor.java:58-75 | the built tree holds PSEUDO_EOF and every input byte, and all its symbols fit in the header's 9 bits |
| Processor.StreamDecompresses | src/HuffProcessor.java:44-56 | for an internal root, the stream followed by any padding decompresses to the input |
| Processor.LoneLeafStreamFails | src/HuffProcessor.java:195-198 | a stream whose tree is a lone leaf fails to decompress, whatever follows it |
| Processor.StreamPrefixesFail | src/HuffProcessor.java:149-160 | no proper prefix of a stream decompresses |
| Processor.CompressedStream | src/HuffProcessor.java:44-56 | the stream built from an input's counts, tree and table opens with the magic word; it decompresses to the input when the input is not empty; it fails when the input is empty; none of its proper prefixes decompress |
| Processor.Compress | src/HuffProcessor.java:44-56 | `compress` writes the magic word first; any non-empty input, followed by any padding, comes back unchanged from `decompress`; the empty input does not come back; no proper prefix of the output decompresses |

## Left out

- Bit streams. `BitInputStream` and `BitOutputStream` are not part of this
  model. The input is a sequence of bytes and the output a sequence of bits.
  `in.reset()` is modelled by handing `WriteCompressedBits` the same input
  again. The bits `out.close()` adds to fill the last byte are the arbitrary
  `pad` of the round-trip lemmas.
- Assumed stream behaviour. `writeBits(n, v)` is assumed to write the low n
  bits of v. `readBits(n)` is assumed to return -1, and to consume what is
  left, when fewer than n bits remain.
- Debug plumbing. The debug level, its constructors and the debug constants
  change no output.
- Tie-breaking. `HuffNode.compareTo` and `PriorityQueue` are not part of this
  model. The queue is a sequence, and `remove()` takes the first lightest
  tree. The contract of `TreeBuilder.MakeTreeFromCounts` speaks only of what
  holds for every tie-break. It states no exact shape and does not prove the
  code optimal.
- Encoder.WriteCompressedBits: appends each code's bits directly. It does not
  model `Integer.parseInt(code, 2)`, which throws on the empty code and
  overflows for codes longer than 31 bits. For codes of 1 to 31 bits,
  `writeBits(code.length(), ...)` writes the same bits. The empty code is
  appended as nothing. On a null entry it returns only the error, and drops
  the codes already written.
- Processor.Compress: for the empty input, the source throws in `compress`
  while writing PSEUDO_EOF's empty code. The model instead returns the magic
  word and the header, and proves that this stream does not decompress.
- TreeBuilder.MakeTreeFromCounts: its contract does not state the greedy
  choice. That choice is stated pass by pass in the contract of
  `TreeBuilder.MergeLightestTwo`, which the builder's loop calls.
- Counting.ReadForCounts: counts are unbounded integers. It does not model the
  32-bit overflow of a count, or of a node weight, past 2^31 - 1.
- Decoder.ReadCompressedBits: on failure, returns only the error. It does not
  keep the bytes already written before the failure.
- Stored values of internal nodes. The value an internal `HuffNode` stores is
  always 0. Only the literal `codingHelper` reads it, so the intended model
  drops it, and `CodeTable.AsWrittenCodings` appends "0" for it.
- `writeHeader` and `codingHelper` as written. The model uses the intended
  behaviour. The literal behaviour is modelled only in the members named under
  "## Findings".

## Findings

| source | as written | input that shows it | evidently intended | confidence | as-written member | corrected member |
|---|---|---|---|---|---|---|
| src/HuffProcessor.java:97-104 | each node visited appends its stored value in decimal to the path, and the right subtree is visited first | the tree with leaf 65 on the left and PSEUDO_EOF on the right gets codes "065" and "0256"; `Integer.parseInt("065", 2)` rejects them | a leaf's code is its root-to-leaf path, 0 for left and 1 for right, the meaning the decoder gives bits | high, not executed | CodeTable.AsWrittenCodeIsNotBinary | CodeTable.MakeCodingsFromTree |
| src/HuffProcessor.java:108-122 | a `while (true)` loop with no exit recurses on the root's children instead of the current node's | any tree, e.g. a lone leaf, whose 10 header bits are written again on every pass | a pre-order walk that writes each node once and returns, the format `readTreeHeader` parses | high, not executed | Header.AsWrittenWriteHeaderNeverReturns | Header.HeaderRoundTrip |
