# Huffman compressor — a verified model

This project models the core of a small Huffman text compressor written in
Python. It covers:

- the character counter;
- the tree node with its recursive equality, pre-order bit serialisation and
  parser;
- the Huffman tree: stable sort of the leaves, merge steps, codeword table,
  decode-side constructor, padding trim and one-symbol decoder;
- the bit-level container that `compress_file`/`decompress_file` write and
  read;
- the older copy of the tree builder in `src/huffman.py`.

Bit strings are `seq<bool>`, most significant bit first, as `bitstring.BitArray`
stores them. A compressed file is a `seq<bool>` of whole bytes. Symbols are
`char`s below 128, because a leaf writes its symbol's UTF-8 bytes into an
8-bit slot. Python exceptions become `Err` values of `Outcomes.Result`, named
after the exception (`IndexError`, `KeyError`, …).

Files:

- `outcomes.dfy`: `Option`, `Result` and the error names.
- `bitstring.dfy`: what is used of `BitArray` (`.uint`, `tobytes`, one-byte
  `to_bytes`).
- `character_counter.dfy`: `CharacterCounter` as a class over a `map` and its
  key order.
- `node.dfy`: the node as a datatype, with `__eq__`, `to_bits` and `from_bits`.
- `node_list.dfy`: the stable sort, the merge step and the merge loop on node
  lists.
- `tree.dfy`: the codeword table, the decoding walk, the tree built from a
  text, and `HuffmanTree` as a class.
- `file.dfy`: compression and decompression as methods proved against the
  functions `CompressSpec`/`DecompressSpec`, and the round-trip lemmas.
- `legacy.dfy`: `src/huffman.py`.

Behaviour of the source that the model keeps on purpose:

- The header byte holds `8 - len % 8` (src/huffman/file.py:29), so it lies in
  1..8 and is never 0 (`Header`). It is 8 when the stream ends on a byte
  boundary, and `get_data` then drops 8 real bits. `PaddingEight` proves
  this, and `TreeAligned` states it for any tree.
- A text with one distinct character gets a leaf root and the empty codeword.
  Its container holds only the 9 tree bits, so it decompresses to the empty
  text (`SingleSymbol`).
- `from_bits` leaves every count at 0. The parsed tree equals the written one
  only up to `Reset`, and decoding ignores counts (`DecodeAllReset`).
- Python's `list.remove` finds each front node at index 0 by identity. So a
  merge step removes the two front nodes in both versions, even with the
  legacy shallow `__eq__`.
- The merged node is appended last and the sort is stable. So it goes after
  every node of equal count (`MergeFacts`, `SortIsStable`).
- `from_bits` takes the slot `bits[1:9]` (src/huffman/node.py:44). When fewer
  than 8 bits follow the leaf marker, `tobytes` zero-fills the 1–7 bits of the
  slot to a byte, and that byte is decoded (`FromBits`).

Where the model differs from the source:

- A leaf marker that is the very last bit leaves a 0-bit symbol slot. The
  source's `tobytes` gives `b''` and a leaf whose symbol is the empty string.
  A `char` cannot hold that, so `FromBits` returns `Err(TruncatedSymbol)`.
- `decompress_file` loops forever when a `process_stream` call reads no bit
  (a leaf root with data left). `DecodeAll` and `Decompress` stop with
  `Err(NoProgress)` instead.

## Model

| member | source | states |
|---|---|---|
| BitString.Value | src/huffman/tree.py:28 | `.uint`: the unsigned big-endian value of the bits, below 2 to the power of their number; re-encoding it at the same width gives the bits back (`EncodeValue`) |
| BitString.Byte | src/huffman/file.py:34 | `padding.to_bytes(1, ...)` for a value below 256: exactly 8 bits whose value is the given number |
| BitString.ToBytes | src/huffman/file.py:25-28 | `tobytes()`: a whole number of bytes, fewer than 8 bits longer than the input, starting with the input, and the input itself when it already is whole bytes |
| Counting.CharacterCounter.constructor | src/huffman/character_counter.py:6-7 | a fresh counter has an empty dictionary and no keys |
| Counting.CharacterCounter.AddText | src/huffman/character_counter.py:12-23 | after add_text the dictionary is the old one with every character of the data counted in order, the key order has the unseen characters appended, and the counter stays valid (distinct keys, exactly the dictionary's keys, counts ≥ 1) |
| Counting.CharacterCounter.Count | src/huffman/character_counter.py:20-23 | one character: a new key is appended with count 1, a known key keeps its place and its count goes up by one; the counter stays valid |
| Counting.Tally | src/huffman/character_counter.py:19-23 | definition of the dictionary after add_text's loop, one count step per character in order; what it promises is stated by `TallyCount`, `TallyAppend` and `TallyTotal` |
| Counting.FirstSeen | src/huffman/character_counter.py:20-21 | definition of the key order after add_text's loop, a character appended when first seen; what it promises is stated by `FirstSeenKeys`, `FirstSeenOrder` and `FirstSeenAppend` |
| Counting.TallyCount | src/huffman/character_counter.py:19-23 | counting a text adds to each character's count exactly its number of occurrences, adds the text's characters as keys and removes none, and keeps every count ≥ 1 |
| Counting.TallyAppend | src/huffman/character_counter.py:12-23 | counting a then b gives the same dictionary as counting a + b |
| Counting.FirstSeenAppend | src/huffman/character_counter.py:20-21 | the key order after a then b equals the key order after a + b |
| Counting.FirstSeenKeys | src/huffman/character_counter.py:20-21 | old keys stay in front in order, no key appears twice, and the keys are the old keys plus the characters of the text |
| Counting.FirstSeenOrder | src/huffman/character_counter.py:20-21 | keys are in order of first occurrence: an earlier key occurs in the text before any occurrence of a later key |
| Counting.TallyTotal | src/huffman/character_counter.py:19-23 | the counts under the keys add up to the number of characters counted |
| Counting.CharacterCounter.Items | src/huffman/character_counter.py:25-32 | the (key, count) pairs follow the key order, one per key, each count ≥ 1 and equal to the stored count |
| Counting.CharacterCounter.Occurrences | src/huffman/character_counter.py:34-47 | positive exactly for a stored character and then equal to its count, 0 otherwise |
| HuffmanNode.Equal | src/huffman/node.py:15-19 | definition of `__eq__`: counts and symbols compared, then the left children, then the right children only when the left ones are equal, AttributeError on a leaf against an internal node; `EqualIsStructural` states what it answers |
| HuffmanNode.EqualIsStructural | src/huffman/node.py:15-19 | `__eq__` answers True exactly for identical trees (counts, symbols, children); it never raises on trees of one shape and raises AttributeError when a leaf meets an internal node |
| HuffmanNode.ToBits | src/huffman/node.py:21-31 | the serialisation has length 9·leaves + internal nodes and starts with 1 exactly for an internal node |
| HuffmanNode.FromBits | src/huffman/node.py:33-52 | a successful parse consumes at least one bit and yields an ASCII tree with all counts 0; empty input raises IndexError at the first bit |
| HuffmanNode.LeafRoundTrip | src/huffman/node.py:43-45 | `0` + the 8-bit symbol + rest parses to a leaf with that symbol and count 0, returning rest |
| HuffmanNode.InternalRoundTrip | src/huffman/node.py:46-52 | `1` followed by a parsable left then right child parses to the internal node of the two, returning what the right child leaves |
| HuffmanNode.FromBitsToBits | src/huffman/node.py:21-52 | round trip: parsing to_bits(t) + rest rebuilds t with all counts 0 and returns exactly rest |
| HuffmanNode.FromBitsConsumed | src/huffman/node.py:33-52 | conversely, whatever a successful parse consumed is the serialisation of the parsed tree, or a prefix of it cut inside the last zero-filled symbol slot |
| HuffmanNode.ToBitsReset | src/huffman/node.py:21-31 | the serialisation does not depend on counts |
| NodeList.SortByCount | src/huffman/tree.py:26 | definition of the stable sort by count, as insertion of each node after the earlier nodes of equal count; `SortPermutes`, `SortKeepsLeaves`, `SortIsStable` and `StableSortIsUnique` state what it promises |
| NodeList.SortPermutes | src/huffman/tree.py:26 | the sort by count returns a permutation of its input with the same total count |
| NodeList.SortKeepsLeaves | src/huffman/tree.py:26 | the sort keeps the multiset of leaves under the list |
| NodeList.SortIsStable | src/huffman/tree.py:26 | the sort returns a list sorted by count that keeps, for every count, the nodes of that count in their input order |
| NodeList.StableSortIsUnique | src/huffman/tree.py:26 | any sorted list that keeps equal counts in input order is exactly what the stable sort returns |
| NodeList.Merge | src/huffman/tree.py:34-48 | definition of one merge step: drop the two front nodes, append their sum node, sort stably; `MergeFacts` and `MergeKeeps` state what it promises |
| NodeList.MergeFacts | src/huffman/tree.py:34-48 | on a sorted list a merge step removes the two front nodes and inserts their sum node after every remaining node of equal or smaller count and before every larger one; the list shrinks by one, stays sorted, keeps its total and its leaves |
| NodeList.MergeKeeps | src/huffman/tree.py:34-48 | on any list of ≥ 2 nodes a merge step shrinks it by one and keeps its total count and its leaves |
| NodeList.Build | src/huffman/tree.py:57-62 | definition of construct_tree's loop, merge steps until at most one node is left; `BuildFacts` and `SingleRoot` state what it promises |
| NodeList.BuildFacts | src/huffman/tree.py:57-62 | merging until one node is left gives no node for an empty list and exactly one otherwise, internal when there were ≥ 2 nodes, the single node itself when there was one, with the total count and the leaves kept |
| NodeList.SingleRoot | src/huffman/tree.py:57-62 | on a non-empty list the merges leave exactly one node, with the list's total count and its multiset of leaves |
| NodeList.Seed | src/huffman/tree.py:21-23 | one leaf per (symbol, count) item, in item order |
| NodeList.SeedNodes | src/huffman/tree.py:21-23 | the seeding loop appends exactly the leaves of Seed, in item order |
| NodeList.SeedLeaves | src/huffman/tree.py:21-23 | a list of leaves is its own list of leaves |
| Huffman.SeedFacts | src/huffman/tree.py:21-23 | seeding from the counter makes one leaf per distinct character, in first-seen order, carrying that character's number of occurrences |
| Huffman.InitialNodesSorted | src/huffman/tree.py:21-26 | the initial list has one node per distinct character, is sorted by count, and keeps counter order among equal counts |
| Huffman.RootShape | src/huffman/tree.py:57-62 | construct_tree yields no root exactly for the empty text; the root is internal exactly when the text has ≥ 2 distinct characters |
| Huffman.RootCount | src/huffman/tree.py:44-62 | the root's count is the number of characters of the text |
| Huffman.SeedCountsText | src/huffman/tree.py:21-23 | the seeded leaves' counts add up to the number of characters of the text |
| Huffman.RootLeaves | src/huffman/tree.py:22-23 | the multiset of leaves under the root is exactly the multiset of seeded leaves |
| Huffman.RootLeafCounts | src/huffman/tree.py:22-23 | every leaf under the root carries its character's number of occurrences |
| Huffman.RootSymbols | src/huffman/tree.py:22-23 | the root's symbols are exactly the characters of the text |
| Huffman.RootAscii | src/huffman/tree.py:22-23 | an ASCII text gives a tree that to_bits can write |
| Huffman.WalkTree | src/huffman/tree.py:64-80 | definition of `_walk_tree`: each leaf symbol mapped to the given prefix followed by its path, right-subtree entries added last; `WalkTreeKeys`, `WalkTreeDecodes` and `WalkTreeReset` state what it promises |
| Huffman.Codes | src/huffman/tree.py:64-80 | definition of the table construct_tree stores, the walk from the root with the empty prefix; `CodesShape`, `PrefixFree` and `CodesDecode` state what it promises |
| Huffman.WalkTreeKeys | src/huffman/tree.py:64-80 | the table has exactly one entry per leaf symbol |
| Huffman.WalkTreeDecodes | src/huffman/tree.py:64-80 | each entry is the given prefix followed by a path that process_stream follows back to that symbol, whatever bits follow; below an internal node the path is non-empty |
| Huffman.CodesShape | src/huffman/tree.py:64-80 | the table's keys are the tree's symbols; a leaf root gets the empty codeword; below an internal root every codeword has ≥ 1 bit |
| Huffman.PrefixFree | src/huffman/tree.py:64-80 | no symbol's codeword is a prefix of another symbol's codeword |
| Huffman.Walk | src/huffman/tree.py:109-127 | definition of process_stream on a tree, one bit per internal node until a leaf, IndexError past the end; `WalkConsumes`, `CodesDecode` and `WalkReset` state what it promises |
| Huffman.CodesDecode | src/huffman/tree.py:109-127 | process_stream(code(c) + rest) returns (c, rest) |
| Huffman.WalkConsumes | src/huffman/tree.py:109-127 | process_stream returns a suffix of the stream, strictly shorter from an internal root, and fails only with IndexError when the bits run out |
| Huffman.WalkTreeReset | src/huffman/tree.py:64-80 | the table does not depend on counts |
| Huffman.WalkReset | src/huffman/tree.py:109-127 | decoding one symbol does not depend on counts |
| Huffman.EncodeTextSnoc | src/huffman/file.py:21-23 | encoding one more character appends its codeword |
| Huffman.DecodeAll | src/huffman/file.py:44-50 | definition of decompress_file's loop, process_stream until no bit is left, NoProgress when a call reads no bit; `DecodeEncode`, `LeafRootStalls` and `DecodeAllReset` state what it promises |
| Huffman.DecodeEncode | src/huffman/file.py:48-50 | over an internal tree, decoding the codewords of a text gives the text back |
| Huffman.LeafRootStalls | src/huffman/file.py:48-49 | with a leaf root no bit is ever read, so any data fails with NoProgress |
| Huffman.DecodeAllReset | src/huffman/file.py:44-50 | decoding a whole payload does not depend on counts |
| Huffman.TrimPadding | src/huffman/tree.py:103-107 | data[:-padding] is a prefix of data that is padding bits shorter when 0 < padding < len, and empty when padding is 0 or at least the length |
| Huffman.ReadContainer | src/huffman/tree.py:27-32 | empty input raises InterpretError; 1 to 8 bits leave nothing for from_bits, which raises IndexError at its first bit; otherwise the padding is the big-endian value of the first 8 bits (< 256), and the tree and the data are what from_bits returns for the rest |
| Huffman.HuffmanTree.Empty | src/huffman/tree.py:10-11 | HuffmanTree() with neither argument sets nothing |
| Huffman.HuffmanTree.CountLines | src/huffman/tree.py:13-19 | a fresh valid counter fed every line in order holds the counts and first-seen key order of all lines joined |
| Huffman.HuffmanTree.FromLines | src/huffman/tree.py:10-26 | the counter holds the counts and key order of all lines read, and the node list is one leaf per item stably sorted by count |
| Huffman.HuffmanTree.FromBitArray | src/huffman/tree.py:27-32 | fails exactly as ReadContainer does; otherwise a fresh tree whose padding, root and data are ReadContainer's |
| Huffman.HuffmanTree.ProcessNodes | src/huffman/tree.py:34-48 | one merge step on the node list; IndexError with fewer than two nodes |
| Huffman.HuffmanTree.ConstructTree | src/huffman/tree.py:50-62 | the node list becomes the merged list, the root is its only node or None, and a root's codeword table is stored |
| Huffman.HuffmanTree.GetCharacter | src/huffman/tree.py:82-92 | the stored codeword; KeyError for a symbol outside the table, TypeError before a table exists |
| Huffman.HuffmanTree.ToBits | src/huffman/tree.py:94-101 | None without a root; otherwise the root's serialisation, which from_bits reads back as the root with counts 0 |
| Huffman.HuffmanTree.GetData | src/huffman/tree.py:103-107 | `data[:-padding]` on the stored data: a prefix of it, padding bits shorter when 0 < padding < len, and empty when padding is 0 or at least the length |
| Huffman.HuffmanTree.ProcessStream | src/huffman/tree.py:109-127 | the cursor loop decodes exactly one symbol as the walk does, IndexError when the bits run out, AttributeError without a root |
| HuffmanIO.Header | src/huffman/file.py:29-34 | the header byte for a stream of n bits holds 8 - n mod 8, always in 1..8 |
| HuffmanIO.CompressSpec | src/huffman/file.py:7-37 | definition of compress_file's output: nothing without a root, otherwise the header byte then the zero-filled stream; `CompressShape`, `ContainerLayout`, `RoundTrip` and `PaddingEight` state what it promises |
| HuffmanIO.DecompressSpec | src/huffman/file.py:39-54 | definition of decompress_file's result: nothing for an empty file, otherwise the decoding of the trimmed data with the parsed tree; `ReadBack`, `RoundTrip` and `TreeAligned` state what it promises |
| HuffmanIO.Compress | src/huffman/file.py:7-37 | compress_file's output is CompressSpec: nothing for an empty text, otherwise the header then the zero-filled stream |
| HuffmanIO.WriteContainer | src/huffman/file.py:15-34 | placeholder byte, buffered stream, then the header overwrite give the header followed by the zero-filled tree bits and codewords |
| HuffmanIO.WriteCodewords | src/huffman/file.py:19-27 | the bytes flushed after the placeholder, followed by what is left in the buffer, are exactly the tree bits then the codewords of the text |
| HuffmanIO.BufferStep | src/huffman/file.py:23-26 | one character's step keeps written bytes + buffer equal to the stream so far, whether or not the buffer is flushed |
| HuffmanIO.FinishStep | src/huffman/file.py:28-34 | writing the rest zero-filled and overwriting the header gives the header for the whole stream followed by the zero-filled stream |
| HuffmanIO.Decompress | src/huffman/file.py:39-54 | decompress_file's result is DecompressSpec: empty for an empty file, otherwise the symbols decoded from the trimmed data |
| HuffmanIO.DecodeStep | src/huffman/file.py:48-50 | one process_stream call moves one symbol from the decoding of the data to the output |
| HuffmanIO.CompressShape | src/huffman/file.py:29-37 | the output is empty exactly for the empty text, is whole bytes, and its header byte holds 8 - stream length mod 8, in 1..8; empty input decompresses to the empty text |
| HuffmanIO.ContainerLayout | src/huffman/file.py:15-34 | a non-empty text's output is the header byte followed by the zero-filled stream |
| HuffmanIO.ReadBack | src/huffman/file.py:39-50 | reading back the container of a stream made of a tree's bits and some codewords decodes, with that tree, the codewords plus their zero-fill less the header's padding |
| HuffmanIO.RoundTrip | src/huffman/file.py:7-50 | an ASCII text with ≥ 2 distinct characters whose stream does not end on a byte boundary decompresses to itself |
| HuffmanIO.TreeRoundTrip | src/huffman/file.py:7-50 | the same round trip for any internal tree over the text's characters |
| HuffmanIO.PaddingEight | src/huffman/file.py:29 | a stream that ends on a byte boundary gets header 8; when its codewords take at most 8 bits the text decompresses to nothing |
| HuffmanIO.TreeAligned | src/huffman/tree.py:103-107 | for any tree, a stream of its bits and some codewords that ends on a byte boundary gets header 8, and reading it back decodes the codewords less their last 8 bits (nothing if there are at most 8) |
| HuffmanIO.SingleSymbol | src/huffman/file.py:29-50 | one distinct character: the stream is the 9 tree bits, the header is 7, and the text decompresses to nothing |
| HuffmanIO.TreeLeaf | src/huffman/file.py:21-28 | with a leaf root the stream is the 9 tree bits and decompresses to nothing |
| LegacyHuffman.NodeEqual | src/huffman.py:17-18 | shallow equality: implied by identity, means equal counts and kinds, and for internal nodes holds exactly when the counts agree, children ignored |
| LegacyHuffman.ShallowIgnoresChildren | src/huffman.py:17-18 | for all trees, two internal nodes of one count with swapped children are equal for the legacy comparison, and unequal for the recursive one whenever the children differ |
| LegacyHuffman.RootCountIsTotal | src/huffman.py:63-66 | on a non-empty list the merges leave one node whose count is the list's total |
| LegacyHuffman.LegacyTree.constructor | src/huffman.py:33-38 | one leaf per counter item, stably sorted by count |
| LegacyHuffman.LegacyTree.ProcessNodes | src/huffman.py:40-54 | one merge step; IndexError with fewer than two nodes |
| LegacyHuffman.LegacyTree.ConstructTree | src/huffman.py:56-66 | merges to one node, returned and stored as root with the total count; an empty list raises IndexError at nodes[0] |

## Left out

- File I/O is not modelled: `open`, `readline`, the reads and writes, the
  `rb+` seek before the header overwrite, and `BitArray(filename=...)`. The
  text comes in as characters, or as a sequence of lines for the
  constructor. The compressed file is a bit string of whole bytes.
- Text-mode newline translation when reading and writing files is not
  modelled.
- `Compress` reads the text as one line. `TallyAppend` and `FirstSeenAppend`
  show that splitting it into lines changes no count and no key order.
- `Decompress` returns the whole text or an error. The source writes symbols
  as it decodes, so it may leave a partial output file before an exception.
- The `bitstring` library itself is not modelled. Only the behaviour used is
  modelled: `.uint`, `tobytes` and one-byte `to_bytes`.
- UTF-8 is not modelled: symbols are characters below 128. A multi-byte
  character would give `to_bits` more than 8 bits.
- HuffmanNode.FromBits: modelled on values. It returns a new tree instead of
  overwriting an empty `Node()` shell and allocating its children, so the
  two-phase update in place is not represented. No node is shared, so no
  aliasing is lost.
- HuffmanNode.FromBits: returns `Err(TruncatedSymbol)` where the source would
  build a leaf with the empty string as its symbol, after a leaf marker that
  is the last bit.
- HuffmanNode.FromBits: CPython's recursion limit is not modelled. Input with
  about a thousand leading `1` markers makes the source's `from_bits` (and
  `__eq__` on so deep a tree) raise RecursionError; the model reads on to the
  end and reports `Err(IndexError)` or parses the tree.
- HuffmanNode.Equal: modelled on the tree shapes this model can build. The
  source compares `None` children, and a leaf equals only a leaf.
- Huffman.HuffmanTree.FromLines: attributes that the source never assigns on
  a path are None, null or empty here. Reading them raises AttributeError in
  the source.
- HuffmanIO.Decompress: the source's endless loop on a leaf root with data
  left is reported as `Err(NoProgress)`.
- HuffmanIO.Decompress: assumes `while data:` stops exactly when no bits
  remain.
- `Node.__init__` is represented by the datatype constructors. Its default
  count 0 appears as `Reset`.
- `__repr__` methods are not modelled: they are debug output.
- `src/main.py` is not part of this model: it is a two-line demo script.
- The test files are not modelled. They are evidence for the properties
  above.
