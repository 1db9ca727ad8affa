/**
 * The working bit buffer of huff.cpp (a `deque<char>` of '0'/'1'), which the
 * encoder appends to and the decoder consumes from the front and trims from
 * the back, and the two loops that move it to and from a byte stream.
 */
module BitSequence {
  import opened Bits

  class BitBuffer {
    /** The bits held, front first. */
    var bits: seq<bool>

    constructor ()
      ensures bits == []
    {
      bits := [];
    }

    /** `push_back` of one bit. */
    method PushBack(b: bool)
      modifies this
      ensures bits == old(bits) + [b]
    {
      bits := bits + [b];
    }

    /** `insert(end(), ...)` of a run of bits. */
    method Append(s: seq<bool>)
      modifies this
      ensures bits == old(bits) + s
    {
      bits := bits + s;
    }

    /** `front()` followed by `erase(begin())`. */
    method PopFront() returns (b: bool)
      requires |bits| > 0
      modifies this
      ensures b == old(bits)[0] && bits == old(bits)[1..]
    {
      b := bits[0];
      bits := bits[1..];
    }

    /** `erase(begin(), begin() + n)`, returning what was erased. */
    method TakeFront(n: nat) returns (s: seq<bool>)
      requires n <= |bits|
      modifies this
      ensures s == old(bits)[..n] && bits == old(bits)[n..]
    {
      s := bits[..n];
      bits := bits[n..];
    }

    /** Removal of the last bit. */
    method PopBack()
      requires |bits| > 0
      modifies this
      ensures bits == old(bits)[..|old(bits)| - 1]
    {
      bits := bits[..|bits| - 1];
    }
  }

  /**
   * ReadBinaryCodesFromStream: appends the 8-bit code of every byte of the
   * stream, in order.
   */
  method ReadBinaryCodesFromStream(stream: seq<Byte>, buf: BitBuffer)
    modifies buf
    ensures buf.bits == old(buf.bits) + Unpack(stream)
  {
    for i := 0 to |stream|
      invariant buf.bits == old(buf.bits) + Unpack(stream[..i])
    {
      var code := CharToBinaryCode(stream[i]);
      assert stream[..i + 1] == stream[..i] + [stream[i]];
      UnpackSnoc(stream[..i], stream[i]);
      buf.Append(code);
    }
    assert stream[..|stream|] == stream;
  }

  /**
   * WriteBinaryCodesToStream: while the buffer is not empty, writes the byte
   * its first 8 bits spell and erases them. The buffer must hold whole bytes,
   * as the encoder's padding guarantees.
   */
  method WriteBinaryCodesToStream(buf: BitBuffer) returns (stream: seq<Byte>)
    requires |buf.bits| % 8 == 0
    modifies buf
    ensures stream == Pack(old(buf.bits))
    ensures buf.bits == []
  {
    stream := [];
    while |buf.bits| > 0
      invariant |buf.bits| % 8 == 0
      invariant stream + Pack(buf.bits) == Pack(old(buf.bits))
      decreases |buf.bits|
    {
      var c := ConvertBinaryCodeToChar(buf.bits);
      var _ := buf.TakeFront(8);
      stream := stream + [c];
    }
  }
}
