/** Portable integer reading of the GRASS vector library, as the fidx reader uses it:
    every multi-byte value in a fidx file is a 4-byte two's-complement integer whose
    byte order is given by the file's header tag. */
module Portable {

  newtype byte = x: int | 0 <= x < 256

  /** Two's-complement 32-bit range: PORT_INT and PORT_LONG are both 4 bytes in a file. */
  predicate IsInt32(v: int) {
    -0x8000_0000 <= v < 0x8000_0000
  }

  predicate AllInt32(xs: seq<int>) {
    forall i :: 0 <= i < |xs| ==> IsInt32(xs[i])
  }

  datatype ByteOrder = LittleEndian | BigEndian

  /** Byte-order tags as stored in the fifth header byte. */
  const EndianLittle: int := 0
  const EndianBig: int := 1

  /** The byte order a header tag selects: the big-endian tag selects big-endian
      decoding, every other tag little-endian decoding. */
  function OrderOfTag(tag: int): ByteOrder {
    if tag == EndianBig then BigEndian else LittleEndian
  }

  /** The tag a writer stores for a byte order. */
  function TagOf(order: ByteOrder): byte {
    if order == BigEndian then EndianBig as byte else EndianLittle as byte
  }

  lemma OrderOfTagOf(order: ByteOrder)
    ensures OrderOfTag(TagOf(order) as int) == order
  {
  }

  /** Unsigned value of four bytes given least significant first. */
  function Word(b0: byte, b1: byte, b2: byte, b3: byte): (u: int)
    ensures 0 <= u < 0x1_0000_0000
  {
    b0 as int + 256 * (b1 as int + 256 * (b2 as int + 256 * (b3 as int)))
  }

  /** The four bytes of an unsigned 32-bit value, least significant first. */
  function WordBytes(u: int): (b: seq<byte>)
    requires 0 <= u < 0x1_0000_0000
    ensures |b| == 4
  {
    var q1 := u / 256;
    var q2 := q1 / 256;
    var q3 := q2 / 256;
    [(u % 256) as byte, (q1 % 256) as byte, (q2 % 256) as byte, q3 as byte]
  }

  function ToSigned(u: int): (v: int)
    requires 0 <= u < 0x1_0000_0000
    ensures IsInt32(v) && (v - u) % 0x1_0000_0000 == 0
  {
    if u < 0x8000_0000 then u else u - 0x1_0000_0000
  }

  function ToUnsigned(v: int): (u: int)
    requires IsInt32(v)
    ensures 0 <= u < 0x1_0000_0000 && (v - u) % 0x1_0000_0000 == 0
  {
    if v < 0 then v + 0x1_0000_0000 else v
  }

  /** The 4 bytes `b` read as a signed 32-bit integer in byte order `order`. */
  function DecodeInt32(b: seq<byte>, order: ByteOrder): (v: int)
    requires |b| == 4
    ensures IsInt32(v)
  {
    match order
    case LittleEndian => ToSigned(Word(b[0], b[1], b[2], b[3]))
    case BigEndian => ToSigned(Word(b[3], b[2], b[1], b[0]))
  }

  /** The 4 bytes a writer stores for `v` in byte order `order`. */
  function EncodeInt32(v: int, order: ByteOrder): (b: seq<byte>)
    requires IsInt32(v)
    ensures |b| == 4
  {
    var w := WordBytes(ToUnsigned(v));
    match order
    case LittleEndian => w
    case BigEndian => [w[3], w[2], w[1], w[0]]
  }

  lemma DivModStep(a: int, k: int)
    requires 0 <= a < 256
    ensures (a + 256 * k) % 256 == a && (a + 256 * k) / 256 == k
  {
  }

  lemma WordOfWordBytes(u: int)
    requires 0 <= u < 0x1_0000_0000
    ensures var b := WordBytes(u); Word(b[0], b[1], b[2], b[3]) == u
  {
    var q1 := u / 256;
    var q2 := q1 / 256;
    var q3 := q2 / 256;
    assert u == u % 256 + 256 * q1;
    assert q1 == q1 % 256 + 256 * q2;
    assert q2 == q2 % 256 + 256 * q3;
  }

  lemma WordBytesOfWord(b0: byte, b1: byte, b2: byte, b3: byte)
    ensures WordBytes(Word(b0, b1, b2, b3)) == [b0, b1, b2, b3]
  {
    var r2 := b2 as int + 256 * (b3 as int);
    var r1 := b1 as int + 256 * r2;
    var u := b0 as int + 256 * r1;
    DivModStep(b0 as int, r1);
    DivModStep(b1 as int, r2);
    DivModStep(b2 as int, b3 as int);
  }

  /** Decoding what was encoded gives back the value, in either byte order. */
  lemma DecodeEncodeInt32(v: int, order: ByteOrder)
    requires IsInt32(v)
    ensures DecodeInt32(EncodeInt32(v, order), order) == v
  {
    WordOfWordBytes(ToUnsigned(v));
  }

  /** Encoding what was decoded gives back the same 4 bytes, in either byte order. */
  lemma EncodeDecodeInt32(b: seq<byte>, order: ByteOrder)
    requires |b| == 4
    ensures EncodeInt32(DecodeInt32(b, order), order) == b
  {
    match order
    case LittleEndian =>
      WordBytesOfWord(b[0], b[1], b[2], b[3]);
    case BigEndian =>
      WordBytesOfWord(b[3], b[2], b[1], b[0]);
  }

  /** A table of 32-bit integers written one after the other. */
  function EncodeInts(xs: seq<int>, order: ByteOrder): (b: seq<byte>)
    requires AllInt32(xs)
    ensures |b| == 4 * |xs|
  {
    if xs == [] then [] else EncodeInt32(xs[0], order) + EncodeInts(xs[1..], order)
  }

  /** The 32-bit integers of `b`, four bytes each. */
  function DecodeInts(b: seq<byte>, order: ByteOrder): (xs: seq<int>)
    requires |b| % 4 == 0
    ensures |xs| == |b| / 4 && AllInt32(xs)
    decreases |b|
  {
    if b == [] then [] else [DecodeInt32(b[..4], order)] + DecodeInts(b[4..], order)
  }

  /** Entry k of a decoded table comes from bytes 4k to 4k+4. */
  lemma {:induction false} DecodeIntsAt(b: seq<byte>, order: ByteOrder, k: int)
    requires |b| % 4 == 0 && 0 <= k < |b| / 4
    ensures DecodeInts(b, order)[k] == DecodeInt32(b[4 * k .. 4 * k + 4], order)
    decreases |b|
  {
    if k > 0 {
      DecodeIntsAt(b[4..], order, k - 1);
      assert b[4..][4 * (k - 1) .. 4 * (k - 1) + 4] == b[4 * k .. 4 * k + 4];
    }
  }

  /** Reading back a written table gives the same entries, in either byte order. */
  lemma {:induction false} DecodeEncodeInts(xs: seq<int>, order: ByteOrder)
    requires AllInt32(xs)
    ensures DecodeInts(EncodeInts(xs, order), order) == xs
  {
    if xs != [] {
      var b := EncodeInts(xs, order);
      assert b[..4] == EncodeInt32(xs[0], order);
      assert b[4..] == EncodeInts(xs[1..], order);
      DecodeEncodeInt32(xs[0], order);
      DecodeEncodeInts(xs[1..], order);
    }
  }
}
