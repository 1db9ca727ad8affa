/**
 * The two entry points of huff.cpp, Encoder and Decoder, on byte sequences
 * instead of files, with EncodeInputStream. Encoder counts the bytes, builds
 * the Huffman tree, writes the tree and the input's codes to a bit buffer,
 * pads it and packs it into bytes; Decoder undoes each step.
 */
module Huff {
  import opened Options
  import opened Bits
  import opened BitSequence
  import opened HuffmanTree
  import opened FrequencyTable
  import opened TreeBuild
  import opened TreeTraversal
  import opened Codec

  /**
   * EncodeInputStream: appends the code of every input byte, in order;
   * `encoder[aux]` inserts an empty code for a byte the map lacks.
   */
  method EncodeInputStream(input: seq<Byte>, buf: BitBuffer, encoder: map<Byte, seq<bool>>)
    modifies buf
    ensures buf.bits == old(buf.bits) + EncodePayload(encoder, input)
  {
    var codes := encoder;
    for i := 0 to |input|
      invariant buf.bits == old(buf.bits) + EncodePayload(encoder, input[..i])
      invariant forall y :: CodeOf(codes, y) == CodeOf(encoder, y)
    {
      var aux := input[i];
      if aux !in codes {
        codes := codes[aux := []];
      }
      assert codes[aux] == CodeOf(codes, aux);
      EncodePayloadSnoc(encoder, input[..i], aux);
      assert input[..i + 1] == input[..i] + [aux];
      buf.Append(codes[aux]);
    }
    assert input[..|input|] == input;
  }

  /** The input holds at least two different bytes. */
  ghost predicate MultiSymbol(input: seq<Byte>)
  {
    exists i, j :: 0 <= i < |input| && 0 <= j < |input| && input[i] != input[j]
  }

  /**
   * A Huffman tree of the input: each internal frequency the sum of its
   * children's, the root's the input's length, one leaf per distinct input
   * byte, each leaf's frequency its byte's count.
   */
  ghost predicate IsHuffmanTreeOf(t: Tree, input: seq<Byte>)
  {
    WellWeighted(t) && t.f == |input| && Distinct(t) &&
    (forall x :: x in Syms(t) <==> x in input) &&
    (forall l | l in Leaves(t) :: l.Leaf? && l.f == Count(input, l.sym))
  }

  /** The symbols of a counted table are the input's bytes, each once. */
  lemma TableSymbols(table: seq<Tree>, input: seq<Byte>)
    requires IsTable(table) && forall x :: Lookup(table, x) == Count(input, x)
    ensures forall x :: ForestSyms(table)[x] <= 1
    ensures forall x :: x in ForestSyms(table) <==> x in input
  {
    TableSyms(table);
    forall x
      ensures x in ForestSyms(table) <==> x in input
    {
      assert x in input <==> x in multiset(input);
    }
  }

  /** Each leaf of a counted table carries its byte's count. */
  lemma TableLeaves(table: seq<Tree>, input: seq<Byte>)
    requires IsTable(table) && forall x :: Lookup(table, x) == Count(input, x)
    ensures forall l | l in multiset(table) :: l.Leaf? && l.f == Count(input, l.sym)
  {
    forall l | l in multiset(table)
      ensures l.Leaf? && l.f == Count(input, l.sym)
    {
      var k :| 0 <= k < |table| && table[k] == l;
      TableEntry(table, k);
    }
  }

  /** The tree built from a counted table is a Huffman tree of the input. */
  lemma BuiltTree(table: seq<Tree>, input: seq<Byte>, root: Tree)
    requires IsTable(table) && forall x :: Lookup(table, x) == Count(input, x)
    requires Weight(table) == |input|
    requires WellWeighted(root) && root.f == Weight(table)
    requires Leaves(root) == multiset(table) && Syms(root) == ForestSyms(table)
    ensures IsHuffmanTreeOf(root, input)
  {
    TableSymbols(table, input);
    TableLeaves(table, input);
  }

  /** A table for a one-byte alphabet leaves no two different bytes in the input. */
  lemma OneEntryTable(table: seq<Tree>, input: seq<Byte>)
    requires IsTable(table) && forall x :: Lookup(table, x) == Count(input, x)
    requires |table| == 1
    ensures !MultiSymbol(input)
  {
    TableSymbols(table, input);
    ForestSingle(table[0]);
    assert table == [table[0]];
    forall i | 0 <= i < |input|
      ensures input[i] == table[0].sym
    {
      assert input[i] in ForestSyms(table);
    }
  }

  /** A table of two or more entries comes from an input with two different bytes. */
  lemma TwoEntryTable(table: seq<Tree>, input: seq<Byte>)
    requires IsTable(table) && forall x :: Lookup(table, x) == Count(input, x)
    requires |table| >= 2
    ensures MultiSymbol(input)
  {
    TableEntry(table, 0);
    TableEntry(table, 1);
    var a, b := table[0].sym, table[1].sym;
    assert a in multiset(input) && b in multiset(input);
    var i :| 0 <= i < |input| && input[i] == a;
    var j :| 0 <= j < |input| && input[j] == b;
    assert input[i] != input[j];
  }

  /** A tree with n leaves has an internal node exactly when n >= 2. */
  lemma ShapeOfBuilt(root: Tree, n: nat)
    requires n >= 1 && InternalCount(root) == n - 1
    ensures root.Node? <==> n >= 2
  {
  }

  /**
   * The archive of the tree built from a counted table decodes to the input
   * when the input holds two different bytes, and to nothing otherwise.
   */
  lemma BuiltArchive(table: seq<Tree>, input: seq<Byte>, root: Tree)
    requires IsTable(table) && forall x :: Lookup(table, x) == Count(input, x)
    requires |table| >= 1 && InternalCount(root) == |table| - 1
    requires IsHuffmanTreeOf(root, input)
    ensures MultiSymbol(input) ==> Decode(ArchiveOf(EncodeBits(root, input))) == Some(input)
    ensures !MultiSymbol(input) ==> Decode(ArchiveOf(EncodeBits(root, input))) == Some([])
  {
    ShapeOfBuilt(root, |table|);
    if |table| >= 2 {
      TwoEntryTable(table, input);
      forall i | 0 <= i < |input|
        ensures input[i] in Syms(root)
      {
      }
      RoundTrip(root, input);
    } else {
      OneEntryTable(table, input);
      SingleLeafLoss(root.sym, root.f, input);
    }
  }

  /**
   * The padding block of Encoder: takes the buffer's size as an `unsigned
   * int` and appends `0`s until the buffer holds whole bytes.
   */
  method PadToWholeBytes(buffer: BitBuffer) returns (length: Uint32)
    modifies buffer
    ensures length == |old(buffer.bits)| % Uint32Range
    ensures buffer.bits == old(buffer.bits) + Zeros(Padding(length))
    ensures |buffer.bits| % 8 == 0
  {
    length := |buffer.bits| % Uint32Range;
    var trimmedLength := (length / 8) * 8;
    var padding := length - trimmedLength;
    if padding != 0 {
      padding := 8 - padding;
    }
    ghost var bits := buffer.bits;
    while padding > 0
      invariant 0 <= padding <= Padding(length)
      invariant buffer.bits == bits + Zeros(Padding(length) - padding)
    {
      assert Zeros(Padding(length) - padding + 1) == Zeros(Padding(length) - padding) + [false];
      buffer.PushBack(false);
      padding := padding - 1;
    }
    PaddingOfTruncated(|bits|);
  }

  /**
   * The first half of Encoder: counts the input's bytes and builds the
   * Huffman tree from the counts, returning the one tree left in the heap.
   * Its archive decodes to the input when the input holds two different
   * bytes, and to nothing otherwise.
   */
  method HuffmanTreeOf(input: seq<Byte>) returns (root: Tree)
    requires |input| > 0
    ensures IsHuffmanTreeOf(root, input)
    ensures MultiSymbol(input) ==> Decode(ArchiveOf(EncodeBits(root, input))) == Some(input)
    ensures !MultiSymbol(input) ==> Decode(ArchiveOf(EncodeBits(root, input))) == Some([])
  {
    var table := CalculateFrequencies(input);
    assert table != [];
    var nodes := BuildHuffmanTree(table);
    root := nodes[0];
    BuiltTree(table, input, root);
    BuiltArchive(table, input, root);
  }

  /**
   * Encoder: counts the input, builds the Huffman tree, writes the tree and
   * the input's codes, pads with `0`s to a whole byte and packs the bits;
   * the header is the unpadded bit count as an `unsigned int`. The input
   * must not be empty (the C++ code then takes the front of an empty
   * vector). The archive decodes to the input whenever it holds two
   * different bytes, and to nothing otherwise.
   */
  method Encoder(input: seq<Byte>) returns (archive: Archive, ghost root: Tree)
    requires |input| > 0
    ensures IsHuffmanTreeOf(root, input)
    ensures archive == ArchiveOf(EncodeBits(root, input))
    ensures MultiSymbol(input) ==> Decode(archive) == Some(input)
    ensures !MultiSymbol(input) ==> Decode(archive) == Some([])
  {
    var top := HuffmanTreeOf(input);
    root := top;

    var buffer := new BitBuffer();
    var encoder := SerializeHuffmanTree(top, [], map[], buffer);
    assert encoder == Codes(root);
    assert buffer.bits == [] + Serialize(root) == Serialize(root);
    EncodeInputStream(input, buffer, encoder);
    assert buffer.bits == Serialize(root) + EncodePayload(Codes(root), input);
    var length := PadToWholeBytes(buffer);
    var payload := WriteBinaryCodesToStream(buffer);
    archive := Archive(length, payload);
  }

  /**
   * The padding block of Decoder: erases from the back of the buffer the
   * padding the header's bit count implies.
   */
  method TrimPadding(buffer: BitBuffer, length: Uint32)
    requires Padding(length) <= |buffer.bits|
    modifies buffer
    ensures buffer.bits == old(buffer.bits)[..|old(buffer.bits)| - Padding(length)]
  {
    var trimmedLength := (length / 8) * 8;
    var padding := length - trimmedLength;
    if padding != 0 {
      padding := 8 - padding;
    }
    ghost var bits := buffer.bits;
    while padding > 0
      invariant 0 <= padding <= Padding(length)
      invariant buffer.bits == bits[..|bits| - (Padding(length) - padding)]
    {
      buffer.PopBack();
      padding := padding - 1;
    }
  }

  /**
   * The decoding loop of Decoder: while the buffer is not empty, decodes one
   * symbol from its front and writes it out.
   */
  method DecodeStream(root: Tree, buffer: BitBuffer) returns (output: seq<Byte>)
    requires DecodeAll(root, buffer.bits).Some?
    modifies buffer
    ensures DecodeAll(root, old(buffer.bits)) == Some(output)
    ensures buffer.bits == []
  {
    output := [];
    ghost var result := DecodeAll(root, buffer.bits).value;
    while |buffer.bits| > 0
      invariant DecodeAll(root, buffer.bits).Some?
      invariant result == output + DecodeAll(root, buffer.bits).value
      decreases |buffer.bits|
    {
      ghost var before := buffer.bits;
      DecodeAllStep(root, before);
      ghost var tail := DecodeAll(root, DecodeOne(root, before).value.1).value;
      var c := DecodeHuffmanTree(root, buffer);
      assert output + DecodeAll(root, before).value == (output + [c]) + tail;
      output := output + [c];
    }
    assert DecodeAll(root, []) == Some([]);
    assert result == output + [] == output;
  }

  /**
   * Decoder: unpacks the bytes, erases the padding bits the header's count
   * implies from the back, reads the tree and decodes symbols until the
   * buffer is empty. The archive must be one the decoder can get through.
   */
  method Decoder(archive: Archive) returns (output: seq<Byte>)
    requires Decode(archive).Some?
    ensures Decode(archive) == Some(output)
  {
    var buffer := new BitBuffer();
    ReadBinaryCodesFromStream(archive.payload, buffer);
    assert buffer.bits == Unpack(archive.payload);
    DecodableArchive(archive);
    TrimPadding(buffer, archive.length);
    ghost var trimmed := buffer.bits;
    var root := DeserializeHuffmanTree(buffer);
    DecodeParsed(archive, trimmed, root, buffer.bits);
    output := DecodeStream(root, buffer);
  }
}
