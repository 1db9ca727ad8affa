/**
 * The archive format of huff.cpp and what decoding it yields: a 32-bit
 * unsigned header holding the number of meaningful bits, then those bits
 * (the serialised tree followed by the codes of the input bytes) padded
 * with `0`s to a whole number of bytes. The round trip is proved for every
 * tree with at least two leaves; for a one-leaf tree the payload is empty
 * and decoding gives nothing back.
 */
module Codec {
  import opened Options
  import opened Bits
  import opened HuffmanTree

  /** The values of an `unsigned int`. */
  const Uint32Range: nat := 0x1_0000_0000
  type Uint32 = x: int | 0 <= x < 0x1_0000_0000

  /** The archive: the header's bit count and the bytes that follow it. */
  datatype Archive = Archive(length: Uint32, payload: seq<Byte>)

  /**
   * The padding both Encoder and Decoder compute from the bit count: the
   * number of `0`s that fills the last byte, 0 when the count is already a
   * multiple of 8.
   */
  function Padding(length: nat): (p: nat)
    ensures p < 8 && (length + p) % 8 == 0
  {
    var trimmed := (length / 8) * 8;
    var padding := length - trimmed;
    if padding != 0 then 8 - padding else 0
  }

  /** The padding is the least count of bits that brings the length to a multiple of 8. */
  lemma PaddingLeast(length: nat, q: nat)
    requires (length + q) % 8 == 0
    ensures Padding(length) <= q
  {
  }

  /**
   * Truncating the bit count to 32 bits does not change the padding, since
   * 2^32 is a multiple of 8.
   */
  lemma PaddingOfTruncated(length: nat)
    ensures Padding(length % Uint32Range) == Padding(length)
  {
    var t := length % Uint32Range;
    assert length == (length / Uint32Range) * Uint32Range + t;
    assert Uint32Range == 8 * 0x2000_0000;
    assert length % 8 == t % 8;
  }

  /** n `0` bits. */
  function Zeros(n: nat): (z: seq<bool>)
    ensures |z| == n && forall i :: 0 <= i < n ==> !z[i]
  {
    seq(n, _ => false)
  }

  /**
   * `encoder[aux]` for one input byte: its code, or the empty string
   * `operator[]` inserts for a byte the map lacks.
   */
  function CodeOf(codes: map<Byte, seq<bool>>, x: Byte): seq<bool>
  {
    if x in codes then codes[x] else []
  }

  /** The codes of the input bytes, in input order (EncodeInputStream). */
  function EncodePayload(codes: map<Byte, seq<bool>>, input: seq<Byte>): seq<bool>
  {
    if input == [] then [] else CodeOf(codes, input[0]) + EncodePayload(codes, input[1..])
  }

  /** Encoding one more byte appends its code. */
  lemma {:induction false} EncodePayloadSnoc(codes: map<Byte, seq<bool>>, input: seq<Byte>, x: Byte)
    ensures EncodePayload(codes, input + [x]) == EncodePayload(codes, input) + CodeOf(codes, x)
  {
    if input == [] {
      assert [x][1..] == [];
    } else {
      assert (input + [x])[1..] == input[1..] + [x];
      EncodePayloadSnoc(codes, input[1..], x);
    }
  }

  /** The bits the encoder's buffer holds before padding: the tree, then the input's codes. */
  function EncodeBits(t: Tree, input: seq<Byte>): seq<bool>
  {
    Serialize(t) + EncodePayload(Codes(t), input)
  }

  /** The archive written for a bit string: its length as an `unsigned int`, then its bytes, padded. */
  function ArchiveOf(bits: seq<bool>): (a: Archive)
    ensures 8 * |a.payload| == |bits| + Padding(|bits|)
  {
    PaddingOfTruncated(|bits|);
    Archive(|bits| % Uint32Range, Pack(bits + Zeros(Padding(|bits| % Uint32Range))))
  }

  /**
   * The Decoder loop on the bits after the tree: symbols decoded one after
   * another until no bit is left. None where a symbol runs past the end, or
   * where the tree is a single leaf and bits remain, since the loop then
   * never ends.
   */
  function DecodeAll(t: Tree, bits: seq<bool>): Option<seq<Byte>>
    decreases |bits|
  {
    if bits == [] then Some([])
    else if t.Leaf? then None
    else
      match DecodeOne(t, bits)
      case None => None
      case Some((x, rest)) =>
        match DecodeAll(t, rest)
        case None => None
        case Some(xs) => Some([x] + xs)
  }

  /** One step of the Decoder loop: a nonempty decodable rest starts with one symbol's code. */
  lemma DecodeAllStep(t: Tree, bits: seq<bool>)
    requires bits != [] && DecodeAll(t, bits).Some?
    ensures t.Node? && DecodeOne(t, bits).Some?
    ensures DecodeAll(t, DecodeOne(t, bits).value.1).Some?
    ensures DecodeAll(t, bits).value == [DecodeOne(t, bits).value.0] + DecodeAll(t, DecodeOne(t, bits).value.1).value
  {
  }

  /** The bits left once the padding the header implies is erased from the back, if there are enough. */
  function Unpadded(a: Archive): (r: Option<seq<bool>>)
    ensures r.Some? ==> |r.value| + Padding(a.length) == 8 * |a.payload|
  {
    var bits := Unpack(a.payload);
    var padding := Padding(a.length);
    if |bits| < padding then None else Some(bits[..|bits| - padding])
  }

  /** The tree read from the front of the unpadded bits, then the symbols decoded from the rest. */
  function DecodeBits(bits: seq<bool>): Option<seq<Byte>>
  {
    match ParseTree(bits)
    case None => None
    case Some((t, rest)) => DecodeAll(t, rest)
  }

  /**
   * What Decoder writes for an archive: unpack the bytes, drop the padding
   * bits from the back, read the tree, decode the rest. None where the C++
   * code would erase past the buffer's start, read past its end or loop
   * forever.
   */
  function Decode(a: Archive): Option<seq<Byte>>
  {
    match Unpadded(a)
    case None => None
    case Some(bits) => DecodeBits(bits)
  }

  /** A decodable archive has room for its padding. */
  lemma DecodableArchive(a: Archive)
    requires Decode(a).Some?
    ensures Padding(a.length) <= |Unpack(a.payload)|
  {
  }

  /**
   * A decodable archive decodes as the bits after the tree read from its
   * unpadded bits.
   */
  lemma DecodeParsed(a: Archive, trimmed: seq<bool>, t: Tree, rest: seq<bool>)
    requires Padding(a.length) <= |Unpack(a.payload)|
    requires trimmed == Unpack(a.payload)[..|Unpack(a.payload)| - Padding(a.length)]
    requires ParseTree(trimmed) == Some((t, rest))
    ensures Decode(a) == DecodeAll(t, rest)
  {
    UnpaddedOf(a, trimmed);
    DecodeUnpadded(a, trimmed);
    DecodeBitsParsed(trimmed, t, rest);
  }

  /** With room for the padding, the unpadded bits are the unpacked bits less the padding. */
  lemma UnpaddedOf(a: Archive, trimmed: seq<bool>)
    requires Padding(a.length) <= |Unpack(a.payload)|
    requires trimmed == Unpack(a.payload)[..|Unpack(a.payload)| - Padding(a.length)]
    ensures Unpadded(a) == Some(trimmed)
  {
  }

  /** An archive decodes as its unpadded bits do. */
  lemma DecodeUnpadded(a: Archive, trimmed: seq<bool>)
    requires Unpadded(a) == Some(trimmed)
    ensures Decode(a) == DecodeBits(trimmed)
  {
  }

  /** Bits beginning with a tree decode as the bits after the tree do under that tree. */
  lemma DecodeBitsParsed(bits: seq<bool>, t: Tree, rest: seq<bool>)
    requires ParseTree(bits) == Some((t, rest))
    ensures DecodeBits(bits) == DecodeAll(t, rest)
  {
  }

  /** A decodable symbol followed by a decodable rest decodes to that symbol, then the rest's symbols. */
  lemma DecodeAllCons(t: Tree, bits: seq<bool>, x: Byte, rest: seq<bool>, xs: seq<Byte>)
    requires t.Node? && bits != []
    requires DecodeOne(t, bits) == Some((x, rest)) && DecodeAll(t, rest) == Some(xs)
    ensures DecodeAll(t, bits) == Some([x] + xs)
  {
  }

  /** A nonempty sequence is its head followed by its tail. */
  lemma HeadTail(s: seq<Byte>)
    requires s != []
    ensures s == [s[0]] + s[1..]
  {
  }

  /**
   * Decoding the codes of an input whose bytes are all in a tree with at
   * least two leaves gives the input back.
   */
  lemma {:induction false} DecodePayload(t: Tree, input: seq<Byte>)
    requires t.Node?
    requires forall i :: 0 <= i < |input| ==> input[i] in Syms(t)
    ensures DecodeAll(t, EncodePayload(Codes(t), input)) == Some(input)
  {
    if input != [] {
      var x := input[0];
      var tail := EncodePayload(Codes(t), input[1..]);
      DecodeCode(t, x, tail);
      CodesNonEmpty(t, x);
      DecodePayload(t, input[1..]);
      DecodeAllCons(t, Codes(t)[x] + tail, x, tail, input[1..]);
      HeadTail(input);
    }
  }

  /** Unpacking an archive and dropping the padding gives back the bits it was made of. */
  lemma ArchiveBits(bits: seq<bool>)
    ensures Unpadded(ArchiveOf(bits)) == Some(bits)
  {
    PaddingOfTruncated(|bits|);
    var padded := bits + Zeros(Padding(|bits|));
    UnpackPack(padded);
    assert padded[..|padded| - Padding(|bits|)] == bits;
  }

  /**
   * The round trip: the archive of a tree with at least two leaves and of an
   * input whose every byte is in the tree decodes to that input.
   */
  lemma RoundTrip(t: Tree, input: seq<Byte>)
    requires t.Node?
    requires forall i :: 0 <= i < |input| ==> input[i] in Syms(t)
    ensures Decode(ArchiveOf(EncodeBits(t, input))) == Some(input)
  {
    var payload := EncodePayload(Codes(t), input);
    ArchiveBits(EncodeBits(t, input));
    ParseSerialized(t, payload);
    StripKeepsSymbols(t);
    StripKeepsCodes(t, []);
    DecodePayload(Strip(t), input);
  }

  /**
   * With a one-leaf tree the symbol's code is empty, so the archive holds
   * the tree alone and decodes to no bytes at all, whatever the input.
   */
  lemma SingleLeafLoss(s: Byte, f: nat, input: seq<Byte>)
    ensures Decode(ArchiveOf(EncodeBits(Leaf(s, f), input))) == Some([])
  {
    var t := Leaf(s, f);
    EmptyCodes(s, f, input);
    ArchiveBits(EncodeBits(t, input));
    assert EncodeBits(t, input) == Serialize(t) + [];
    ParseSerialized(t, []);
  }

  /** Every code of a one-leaf tree is empty, so its payload is. */
  lemma {:induction false} EmptyCodes(s: Byte, f: nat, input: seq<Byte>)
    ensures EncodePayload(Codes(Leaf(s, f)), input) == []
  {
    if input != [] {
      EmptyCodes(s, f, input[1..]);
    }
  }
}
