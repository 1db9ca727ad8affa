/**
 * Bytes and their 8-bit codes, most significant bit first, and the packing of
 * a bit string into whole bytes (huff.cpp: CharToBinaryCode,
 * ConvertBinaryCodeToChar, and the byte loops of ReadBinaryCodesFromStream and
 * WriteBinaryCodesToStream). The C++ code keeps each bit as a '0'/'1' char;
 * here a bit is a bool, true standing for '1'.
 */
module Bits {

  /** One byte of a stream: a `char` of the C++ code, read as its unsigned value. */
  type Byte = x: int | 0 <= x < 256

  /** 2 to the power n, for the bit positions of a byte and one past them. */
  function Pow2(n: nat): (p: nat)
    requires n <= 8
    ensures p >= 1 && (n > 0 ==> p == 2 * Pow2(n - 1))
  {
    if n == 0 then 1 else if n == 1 then 2 else if n == 2 then 4 else if n == 3 then 8
    else if n == 4 then 16 else if n == 5 then 32 else if n == 6 then 64 else if n == 7 then 128
    else 256
  }

  /** Whether bit y of `c`, counted from the least significant bit, is set (`c & (1 << y)`). */
  function HasBit(c: Byte, y: nat): bool
    requires y < 8
  {
    (c / Pow2(y)) % 2 == 1
  }

  /** The 8-bit code of a byte, most significant bit first. */
  function ByteToBits(c: Byte): (bits: seq<bool>)
    ensures |bits| == 8
  {
    seq(8, i requires 0 <= i < 8 => HasBit(c, 7 - i))
  }

  /** A bit as the number 0 or 1 (`code[y] - '0'`). */
  function BitValue(b: bool): Byte
  {
    if b then 1 else 0
  }

  /** `c | b` for a single bit b. */
  function OrBit(c: Byte, b: bool): Byte
  {
    if b && c % 2 == 0 then c + 1 else c
  }

  /** `c << 1` stored back into a `char`: the bit shifted out of the top is lost. */
  function ShiftLeft(c: Byte): Byte
  {
    (2 * c) % 256
  }

  /**
   * The number a bit string spells, most significant bit first, kept to its
   * low 8 bits as a `char` keeps it.
   */
  function BitsValue(bits: seq<bool>): Byte
  {
    if bits == [] then 0
    else (2 * BitsValue(bits[..|bits| - 1]) + BitValue(bits[|bits| - 1])) % 256
  }

  /** The value of the first k bits of a string, from that of the first k - 1 bits. */
  lemma PrefixStep(b: seq<bool>, k: nat)
    requires 1 <= k <= |b|
    ensures BitsValue(b[..k]) == (2 * BitsValue(b[..k - 1]) + BitValue(b[k - 1])) % 256
  {
    assert b[..k][..k - 1] == b[..k - 1];
  }

  /** Multiplying by the same natural number keeps the order. */
  lemma MulMono(x: int, y: int, m: nat)
    ensures x <= y ==> x * m <= y * m
  {
    if x <= y {
      assert y * m == x * m + (y - x) * m;
    }
  }

  /** Integer division is determined by quotient and remainder. */
  lemma DivUnique(c: nat, m: nat, a: nat, b: nat)
    requires m > 0 && c == a * m + b && b < m
    ensures c / m == a
  {
    var d := c / m;
    assert c == d * m + c % m;
    assert (d + 1) * m == d * m + m;
    assert (a + 1) * m == a * m + m;
    MulMono(d + 1, a, m);
    MulMono(a + 1, d, m);
  }

  /** Dividing by a product is dividing by each factor in turn. */
  lemma DivDiv(c: nat, a: nat, b: nat)
    requires a > 0 && b > 0
    ensures c / (a * b) == (c / a) / b
  {
    var q1, r1 := c / a, c % a;
    var q2, r2 := q1 / b, q1 % b;
    assert c == q1 * a + r1;
    assert q1 * a == q2 * (a * b) + r2 * a by {
      assert q1 == q2 * b + r2;
    }
    MulMono(r2, b - 1, a);
    assert (b - 1) * a == a * b - a;
    DivUnique(c, a * b, q2, r2 * a + r1);
  }

  /** One more bit of a byte's code doubles the value read so far and adds that bit. */
  lemma ShiftStep(c: Byte, k: nat)
    requires 1 <= k <= 8
    ensures (2 * (c / Pow2(9 - k)) + BitValue(HasBit(c, 8 - k))) % 256 == c / Pow2(8 - k)
  {
    var p := Pow2(8 - k);
    var q := c / p;
    assert Pow2(9 - k) == p * 2;
    DivDiv(c, p, 2);
    assert c == q * p + c % p;
    MulMono(1, p, q);
  }

  /** Reading the first k bits of a byte's code gives the byte divided by 2^(8 - k). */
  lemma {:induction false} BitsValueOfCodePrefix(c: Byte, k: nat)
    requires k <= 8
    ensures BitsValue(ByteToBits(c)[..k]) == c / Pow2(8 - k)
  {
    var b := ByteToBits(c);
    if k == 0 {
      assert b[..0] == [];
    } else {
      BitsValueOfCodePrefix(c, k - 1);
      PrefixStep(b, k);
      ShiftStep(c, k);
    }
  }

  /** A string of n <= 8 bits spells a number below 2^n. */
  lemma {:induction false} BitsValueBound(s: seq<bool>)
    requires |s| <= 8
    ensures BitsValue(s) < Pow2(|s|)
  {
    if s != [] {
      BitsValueBound(s[..|s| - 1]);
    }
  }

  /** Dividing `2v + b` by 2^j is dividing v by 2^(j-1), for a single bit b. */
  lemma DropLowBit(v: nat, b: bool, j: nat)
    requires 1 <= j <= 8
    ensures (2 * v + BitValue(b)) / Pow2(j) == v / Pow2(j - 1)
  {
    assert Pow2(j) == 2 * Pow2(j - 1);
    DivDiv(2 * v + BitValue(b), 2, Pow2(j - 1));
  }

  /** Bit j (from the least significant end) of the value of at most 8 bits is the j-th bit from the end. */
  lemma {:induction false} BitsValueBit(s: seq<bool>, j: nat)
    requires |s| <= 8 && j < |s|
    ensures HasBit(BitsValue(s), j) == s[|s| - 1 - j]
  {
    var init := s[..|s| - 1];
    BitsValueSnoc(s);
    if j == 0 {
      LowBit(BitsValue(init), s[|s| - 1]);
    } else {
      BitsValueBit(init, j - 1);
      HighBit(BitsValue(init), s[|s| - 1], j);
      assert init[|init| - 1 - (j - 1)] == s[|s| - 1 - j];
    }
  }

  /** Below 8 bits the value of a string needs no truncation. */
  lemma BitsValueSnoc(s: seq<bool>)
    requires 1 <= |s| <= 8
    ensures BitsValue(s) == 2 * BitsValue(s[..|s| - 1]) + BitValue(s[|s| - 1])
  {
    BitsValueBound(s[..|s| - 1]);
    assert Pow2(|s| - 1) <= 128;
  }

  /** The lowest bit of `2v + b` is b. */
  lemma LowBit(v: nat, b: bool)
    requires 2 * v + BitValue(b) < 256
    ensures HasBit(2 * v + BitValue(b), 0) == b
  {
    assert (2 * v + BitValue(b)) / Pow2(0) == 2 * v + BitValue(b);
  }

  /** Bit j of `2v + b` is bit j - 1 of v. */
  lemma HighBit(v: nat, b: bool, j: nat)
    requires 1 <= j < 8 && 2 * v + BitValue(b) < 256
    ensures HasBit(2 * v + BitValue(b), j) == HasBit(v, j - 1)
  {
    DropLowBit(v, b, j);
  }

  /** Decoding a byte's 8-bit code gives the byte back. */
  lemma ByteRoundTrip(c: Byte)
    ensures BitsValue(ByteToBits(c)) == c
  {
    BitsValueOfCodePrefix(c, 8);
    assert ByteToBits(c)[..8] == ByteToBits(c);
  }

  /** Encoding the byte that 8 bits spell gives those 8 bits back. */
  lemma BitsRoundTrip(bits: seq<bool>)
    requires |bits| == 8
    ensures ByteToBits(BitsValue(bits)) == bits
  {
    var v := BitsValue(bits);
    forall i | 0 <= i < 8
      ensures ByteToBits(v)[i] == bits[i]
    {
      BitsValueBit(bits, 7 - i);
      ShiftStep(v, i + 1);
    }
  }

  /** A suffix one element longer is that element followed by the shorter suffix. */
  lemma SuffixStep(b: seq<bool>, k: nat)
    requires 1 <= k <= |b|
    ensures b[k - 1..] == [b[k - 1]] + b[k..]
  {
  }

  /** Or-ing a bit into a shifted value is adding it. */
  lemma OrShifted(v: Byte, b: bool)
    ensures OrBit(ShiftLeft(v), b) == (2 * v + BitValue(b)) % 256
  {
  }

  /**
   * CharToBinaryCode: builds the code by inserting, for y = 0 .. 7, bit y of
   * `c` at the front of the string.
   */
  method CharToBinaryCode(c: Byte) returns (bin: seq<bool>)
    ensures bin == ByteToBits(c)
  {
    bin := [];
    for y := 0 to 8
      invariant bin == ByteToBits(c)[8 - y..]
    {
      SuffixStep(ByteToBits(c), 8 - y);
      bin := [HasBit(c, y)] + bin;
    }
  }

  /**
   * ConvertBinaryCodeToChar: reads the first 8 bits of `code`; seven times
   * it ors in a bit and shifts left, then ors in the eighth.
   */
  method ConvertBinaryCodeToChar(code: seq<bool>) returns (c: Byte)
    requires |code| >= 8
    ensures c == BitsValue(code[..8])
  {
    c := 0;
    for y := 0 to 7
      invariant c == ShiftLeft(BitsValue(code[..y]))
    {
      PrefixStep(code, y + 1);
      OrShifted(BitsValue(code[..y]), code[y]);
      c := ShiftLeft(OrBit(c, code[y]));
    }
    PrefixStep(code, 8);
    OrShifted(BitsValue(code[..7]), code[7]);
    c := OrBit(c, code[7]);
  }

  /** The bits of a byte stream, 8 per byte, in stream order (ReadBinaryCodesFromStream). */
  function Unpack(bytes: seq<Byte>): (bits: seq<bool>)
    ensures |bits| == 8 * |bytes|
  {
    if bytes == [] then [] else ByteToBits(bytes[0]) + Unpack(bytes[1..])
  }

  /** The bytes that a whole number of 8-bit groups spell, in order (WriteBinaryCodesToStream). */
  function Pack(bits: seq<bool>): (bytes: seq<Byte>)
    requires |bits| % 8 == 0
    ensures 8 * |bytes| == |bits|
  {
    if bits == [] then [] else [BitsValue(bits[..8])] + Pack(bits[8..])
  }

  /** Unpacking one more byte appends its code. */
  lemma {:induction false} UnpackSnoc(bytes: seq<Byte>, b: Byte)
    ensures Unpack(bytes + [b]) == Unpack(bytes) + ByteToBits(b)
  {
    if bytes == [] {
      assert [b][1..] == [];
    } else {
      assert (bytes + [b])[1..] == bytes[1..] + [b];
      UnpackSnoc(bytes[1..], b);
    }
  }

  /** Packing then unpacking a byte-aligned bit string gives it back. */
  lemma {:induction false} UnpackPack(bits: seq<bool>)
    requires |bits| % 8 == 0
    ensures Unpack(Pack(bits)) == bits
  {
    if bits != [] {
      UnpackPack(bits[8..]);
      BitsRoundTrip(bits[..8]);
      assert bits == bits[..8] + bits[8..];
    }
  }

  /** Unpacking then packing a byte stream gives it back. */
  lemma {:induction false} PackUnpack(bytes: seq<Byte>)
    ensures Pack(Unpack(bytes)) == bytes
  {
    if bytes != [] {
      var bits := Unpack(bytes);
      assert bits[..8] == ByteToBits(bytes[0]);
      assert bits[8..] == Unpack(bytes[1..]);
      ByteRoundTrip(bytes[0]);
      PackUnpack(bytes[1..]);
    }
  }
}
