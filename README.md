# Huffman codec (huff.cpp) in Dafny

This project models the Huffman compressor in `project/huff.cpp` and proves
its properties. The compressor has two entry points:

- **Encoder** counts the bytes of the input and builds a Huffman tree with a
  min-heap. It writes the tree in pre-order (`0` for an internal node, `1`
  plus the 8-bit symbol for a leaf) to a bit buffer, then appends the code of
  every input byte. It pads the buffer with `0`s to whole bytes and packs it.
  The archive is a 32-bit count of the meaningful bits followed by the packed
  bytes.
- **Decoder** unpacks the bytes and erases the padding from the back. It then
  reads the tree and decodes symbols until the buffer is empty.

The model stays close to the C++ code:

- Files become byte sequences. A byte is an `int` in `0..255`.
- The `deque<char>` of `'0'`/`'1'` chars becomes the class
  `BitSequence.BitBuffer`, whose `bits: seq<bool>` the methods change in
  place.
- The C++ loops become Dafny methods with loop invariants:
  - the byte conversions;
  - counting frequencies;
  - the heap loop;
  - encoding the payload;
  - padding and trimming;
  - the decode loop.
- The recursive tree walks become recursive methods over a `Tree` datatype
  (`Leaf(sym, f) | Node(left, right, f)`). Each method is proved against a
  pure function: `Serialize`, `CodeTable`, `ParseTree` or `DecodeOne`.
- The set of frequency nodes, ordered by `(unsigned int)(char)`, is an
  ascending sequence of leaves.
- The heap is a sequence from which a node of least frequency is taken.

Main results:

- **Byte round trip.** A byte and its 8-bit code convert into each other.
- **Packing round trip.** Packing bits into bytes and unpacking them are
  inverses.
- **Counting.** The table holds exactly one node per distinct byte, with its
  count. The counts sum to the input length.
- **Tree construction.** The heap loop ends with one tree. That tree has one
  leaf per distinct byte and n − 1 internal nodes. Every internal node's
  frequency is the sum of its children's. The root's frequency is the input
  length.
- **Serialisation.** The serialised tree is 10n − 1 bits long. Parsing it back
  gives the same shape and symbols and leaves the rest of the buffer alone.
- **Codes.** The codes are the root-to-leaf paths. They are non-empty and
  prefix-free, and decoding `code(x) ++ rest` gives `x` and `rest`.
- **Padding.** The padding lies between 0 and 7 and fills the last byte. It is
  the least such number. Computing it from the 32-bit truncated count gives
  the same value.
- **End-to-end.**
  - `Huff.Encoder` produces an archive whose decoding is the input whenever the
    input holds two different bytes.
  - For an input with only one distinct byte, the lone leaf has the empty code,
    so decoding gives the empty sequence. This is what the C++ code does, and
    the model states it as such.
  - `Huff.Decoder` returns exactly what the decoding function `Codec.Decode`
    yields for the archive.

## Model

| member | source | states |
|---|---|---|
| Bits.CharToBinaryCode | project/huff.cpp:54-60 | the code built bit by bit from y = 0 to 7 is the byte's 8 bits, most significant first |
| Bits.ConvertBinaryCodeToChar | project/huff.cpp:81-87 | the char built by or-and-shift over the first 8 bits is the number those bits spell, kept to 8 bits |
| Bits.OrShifted | project/huff.cpp:85 | or-ing a bit into a value shifted left within a char is doubling and adding the bit, mod 256 |
| Bits.PrefixStep | project/huff.cpp:84-86 | the value of k bits is twice the value of the first k − 1 bits plus the last bit, mod 256 |
| Bits.BitsValueOfCodePrefix | project/huff.cpp:84-86 | reading the first k bits of a byte's code gives the byte divided by 2^(8 − k) |
| Bits.BitsValueBound | project/huff.cpp:84-86 | n ≤ 8 bits spell a number below 2^n |
| Bits.BitsValueBit | project/huff.cpp:84-86 | bit j of the value of at most 8 bits is the j-th bit from their end |
| Bits.ByteRoundTrip | project/huff.cpp:81-87 | converting a byte's code back gives the byte |
| Bits.BitsRoundTrip | project/huff.cpp:54-60 | the code of the byte that 8 bits spell is those 8 bits |
| Bits.UnpackSnoc | project/huff.cpp:75-76 | reading one more byte appends its 8-bit code |
| Bits.UnpackPack | project/huff.cpp:90-97 | unpacking the packed bytes of a whole-byte bit string gives the bits back |
| Bits.PackUnpack | project/huff.cpp:65-78 | packing the bits of a byte sequence gives the bytes back |
| BitSequence.BitBuffer.constructor | project/huff.cpp:245 | a new buffer is empty |
| BitSequence.BitBuffer.PushBack | project/huff.cpp:105 | push_back adds one bit at the back and changes nothing else |
| BitSequence.BitBuffer.Append | project/huff.cpp:107 | inserting at the end appends the whole string |
| BitSequence.BitBuffer.PopFront | project/huff.cpp:163-164 | front plus erase(begin) returns the first bit and leaves the rest |
| BitSequence.BitBuffer.TakeFront | project/huff.cpp:131-133 | copying and erasing the first n bits returns them and leaves the rest |
| BitSequence.BitBuffer.PopBack | project/huff.cpp:303 | the erase in the padding loop removes the last bit |
| BitSequence.ReadBinaryCodesFromStream | project/huff.cpp:65-78 | the buffer grows by the 8-bit codes of all stream bytes, in order |
| BitSequence.WriteBinaryCodesToStream | project/huff.cpp:90-97 | a whole-byte buffer is written as its packed bytes and left empty |
| HuffmanTree.LeafCount | project/huff.cpp:224 | every tree of leaves and two-child nodes has one more leaf than internal nodes |
| HuffmanTree.SerializedLength | project/huff.cpp:100-120 | the serialised tree takes 10n − 1 bits for n leaves |
| HuffmanTree.ParseTree | project/huff.cpp:125-150 | reading a tree consumes a non-empty prefix and leaves a suffix of the buffer |
| HuffmanTree.ParseSerialized | project/huff.cpp:125-150 | reading the serialisation of t followed by rest gives t with zeroed frequencies and leaves exactly rest |
| HuffmanTree.StripKeepsSymbols | project/huff.cpp:136-137 | the rebuilt tree of fresh nodes has the same symbols and the same root kind |
| HuffmanTree.StripKeepsCodes | project/huff.cpp:143-146 | the rebuilt tree gives every symbol the same code |
| HuffmanTree.CodeTableKeys | project/huff.cpp:109 | the encoder map gets an entry for exactly the tree's symbols |
| HuffmanTree.CodeTableEntry | project/huff.cpp:113-116 | a symbol's entry is the prefix code followed by its root-to-leaf path, `0` left and `1` right |
| HuffmanTree.CodesArePaths | project/huff.cpp:109 | from the root, each symbol's code is its root-to-leaf path |
| HuffmanTree.DistinctChildren | project/huff.cpp:197 | a tree with each symbol once has children with disjoint symbols, each once |
| HuffmanTree.DecodeOne | project/huff.cpp:156-173 | decoding one symbol consumes a prefix of the buffer, and at least one bit below a node |
| HuffmanTree.DecodePath | project/huff.cpp:156-173 | walking a symbol's path followed by rest emits that symbol and leaves rest |
| HuffmanTree.DecodeCode | project/huff.cpp:156-173 | decoding a symbol's code followed by rest emits that symbol and leaves rest |
| HuffmanTree.CodesNonEmpty | project/huff.cpp:113-116 | below a root with children every code has at least one bit |
| HuffmanTree.CodesPrefixFree | project/huff.cpp:113-116 | no symbol's code is a prefix of another symbol's code |
| TreeTraversal.SerializeHuffmanTree | project/huff.cpp:100-120 | the buffer grows by the pre-order serialisation and the encoder map gains each symbol's path-extended code |
| TreeTraversal.DeserializeHuffmanTree | project/huff.cpp:125-150 | the tree read and the bits left are exactly what parsing the old buffer yields |
| TreeTraversal.DecodeHuffmanTree | project/huff.cpp:156-173 | the symbol emitted and the bits left are exactly what decoding one symbol from the old buffer yields |
| FrequencyTable.SetKeyOrder | project/huff.cpp:43-49 | the `(unsigned int)` cast of a char orders and identifies chars as their unsigned byte values do |
| FrequencyTable.BumpKeepsTable | project/huff.cpp:198-201 | incrementing a found node keeps the set one ascending node per byte |
| FrequencyTable.InsertKeepsTable | project/huff.cpp:196-197 | inserting a new node of count 1 at its place keeps the set one ascending node per byte |
| FrequencyTable.BumpCounts | project/huff.cpp:201 | incrementing a found node adds 1 to that byte's count only, and 1 to the total |
| FrequencyTable.InsertCounts | project/huff.cpp:196-197 | inserting a new node adds 1 to that byte's count only, and 1 to the total |
| FrequencyTable.Tally | project/huff.cpp:191-202 | one byte read keeps a valid set and adds 1 to that byte's count and to the total |
| FrequencyTable.CalculateFrequencies | project/huff.cpp:187-204 | the set holds one node per distinct byte, ascending, with its number of occurrences; counts sum to the input length |
| FrequencyTable.TableSyms | project/huff.cpp:197 | every byte appears in the set at most once, exactly when it was counted |
| FrequencyTable.TableEntry | project/huff.cpp:201 | each node's frequency is the count looked up for its byte |
| TreeBuild.ExtractMin | project/huff.cpp:218-220 | pop_heap with the descending comparator removes a node of least frequency and keeps the others |
| TreeBuild.RemoveKeeps | project/huff.cpp:220 | removing a node from the heap keeps every remaining tree well weighted |
| TreeBuild.MergeKeepsWeight | project/huff.cpp:224 | replacing two nodes by their parent keeps the total frequency |
| TreeBuild.MergeKeepsLeaves | project/huff.cpp:218-226 | replacing two nodes by their parent keeps the multiset of leaves |
| TreeBuild.MergeKeepsSyms | project/huff.cpp:218-226 | replacing two nodes by their parent keeps the multiset of symbols |
| TreeBuild.MergeKeepsWeighted | project/huff.cpp:224 | the parent's frequency is the sum of its children's, so the heap stays well weighted |
| TreeBuild.TableIsForest | project/huff.cpp:208-213 | the heap made from the set holds its leaves, weights and symbols |
| TreeBuild.MergeKeepsForest | project/huff.cpp:214-227 | one loop iteration keeps the heap's leaves, weights, symbols and internal-node count in step with the set |
| TreeBuild.LastTree | project/huff.cpp:214 | the one tree left holds all leaves, the total weight, and n − 1 internal nodes |
| TreeBuild.BuildHuffmanTree | project/huff.cpp:206-228 | the loop ends with one well-weighted tree whose leaves are the set's nodes, with root frequency the total and n − 1 internal nodes; an empty set gives an empty heap |
| Codec.Padding | project/huff.cpp:264-270 | the padding is below 8 and brings the length to a multiple of 8 |
| Codec.PaddingLeast | project/huff.cpp:264-270 | the padding is the least number of bits that does |
| Codec.PaddingOfTruncated | project/huff.cpp:264 | the padding of the length stored as an `unsigned int` equals the padding of the true length |
| Codec.Zeros | project/huff.cpp:271-275 | the padding loop appends only `0` bits, as many as asked |
| Codec.EncodePayloadSnoc | project/huff.cpp:182-183 | one more input byte appends its code to the payload |
| Codec.EmptyCodes | project/huff.cpp:109 | with a lone leaf, every byte's code is empty and the payload has no bits |
| Codec.ArchiveOf | project/huff.cpp:264-277 | the archive holds the bits plus their padding, in whole bytes |
| Codec.ArchiveBits | project/huff.cpp:293-305 | unpacking an archive and erasing its padding gives back the encoded bits |
| Codec.Unpadded | project/huff.cpp:301-305 | the bits left after erasing the padding are the unpacked bits less the padding |
| Codec.UnpaddedOf | project/huff.cpp:299-305 | with room for the padding, the trimmed buffer is the unpacked bytes less the padding bits |
| Codec.DecodableArchive | project/huff.cpp:301-305 | an archive the decoder gets through has room for its padding |
| Codec.DecodeUnpadded | project/huff.cpp:299-305 | an archive decodes as its trimmed bits do |
| Codec.DecodeBitsParsed | project/huff.cpp:314-319 | trimmed bits decode as the bits after the tree do under that tree |
| Codec.DecodeParsed | project/huff.cpp:299-319 | an archive decodes as the bits after the tree read from its trimmed bits |
| Codec.DecodeAllStep | project/huff.cpp:316-318 | a non-empty decodable buffer starts with one symbol's code below a node, followed by a decodable rest |
| Codec.DecodeAllCons | project/huff.cpp:316-318 | one decoded symbol followed by a decodable rest decodes to that symbol then the rest |
| Codec.DecodePayload | project/huff.cpp:316-319 | decoding the codes of bytes in a tree with two or more leaves gives the bytes back |
| Codec.RoundTrip | project/huff.cpp:247-277 | the archive of a tree with two or more leaves and an input over its symbols decodes to the input |
| Codec.SingleLeafLoss | project/huff.cpp:316 | the archive of a one-leaf tree decodes to nothing, whatever the input |
| Huff.EncodeInputStream | project/huff.cpp:175-185 | the buffer grows by the codes of the input bytes in order, with an empty code for a byte the map lacks |
| Huff.TableSymbols | project/huff.cpp:187-204 | the counted set's symbols are the input's bytes, each once |
| Huff.TableLeaves | project/huff.cpp:187-204 | every counted node is a leaf whose frequency is its byte's count |
| Huff.BuiltTree | project/huff.cpp:240-243 | the tree built from the counts is a Huffman tree of the input |
| Huff.OneEntryTable | project/huff.cpp:187-204 | a set with one node means the input repeats one byte |
| Huff.TwoEntryTable | project/huff.cpp:187-204 | a set with two or more nodes means the input holds two different bytes |
| Huff.ShapeOfBuilt | project/huff.cpp:214 | the built tree has children exactly when the set had two or more nodes |
| Huff.BuiltArchive | project/huff.cpp:240-277 | the built tree's archive decodes to the input when it holds two different bytes, and to nothing otherwise |
| Huff.HuffmanTreeOf | project/huff.cpp:238-243 | counting then building gives a Huffman tree of the input, whose archive decodes as above |
| Huff.PadToWholeBytes | project/huff.cpp:264-275 | the header is the bit count mod 2^32, the buffer gains that many padding zeros and holds whole bytes |
| Huff.Encoder | project/huff.cpp:230-279 | the archive is the packed, padded serialised tree plus codes of a Huffman tree of the input; it decodes to the input when the input holds two different bytes, and to nothing otherwise |
| Huff.TrimPadding | project/huff.cpp:293-305 | the buffer loses exactly the padding the header implies, from the back |
| Huff.DecodeStream | project/huff.cpp:316-319 | decoding until the buffer is empty emits exactly the decoding of the old buffer |
| Huff.Decoder | project/huff.cpp:281-320 | the output is exactly the decoding of the archive |

## Left out

- File handling, the command line and the `exit(1)` error paths (`main`, `ifstream`/`ofstream`) are not modelled. Input and output are byte sequences.
- The header is modelled as a number in `0 .. 2^32 - 1`. The native byte order in which it is written and read is not modelled.
- TreeBuild.ExtractMin takes any node of least frequency, not the one `std::pop_heap` would pick. Ties are implementation-defined, so the exact tree shape and Huffman optimality are not modelled.
- FrequencyTable.Tally does not model 32-bit wrap-around of the `unsigned int` frequency: counts are unbounded, so inputs of 2^32 or more copies of one byte are treated as if no overflow happened.
- TreeBuild.BuildHuffmanTree adds parent frequencies without 32-bit wrap-around, for the same reason.
- Huff.Encoder requires a non-empty input. For an empty input the C++ code takes the front of an empty vector, which is undefined.
- Huff.Decoder requires an archive that `Codec.Decode` gets through: one with room for its padding, a complete tree, and no partial code at the end. On corrupt or truncated archives the C++ code reads past the buffer's ends or loops forever.
- TreeTraversal.DeserializeHuffmanTree and TreeTraversal.DecodeHuffmanTree require bits they can read in full, for the same reason.
- BitSequence.BitBuffer.PopBack models `buffer.erase(buffer.end())` as removing the last bit. Erasing the end iterator is undefined; removing the last bit is what the code evidently intends.
- The per-node `code` string fields are not modelled as node state. The path so far is a parameter of `TreeTraversal.SerializeHuffmanTree`, and the rebuilt tree's fields are never read by the decoder.
- `new`/`delete`, the copy constructor, the allocation-failure check and the leaked nodes are not modelled.
- Decoded trees carry frequency 0 on every node, as the C++ `new Node()` does (`HuffmanTree.Strip`).
