/** The feature index (fidx) file of an OGR-backed vector map: its layout, the
    version gate of the reader, and the read cursor the reader advances.

    Layout, every integer 4 bytes in the byte order of the tag:
      bytes 0-4   version major, version minor, back-compat major,
                  back-compat minor, byte-order tag (each read as a signed char)
      bytes 5-8   header length L
      at L        record count N
      at L+4      N offsets */
module Fidx {
  import opened Portable

  /** The format version this reader supports. */
  const ReaderMajor: int := 5
  const ReaderMinor: int := 0

  /** The reader's test for "written by a newer format", exactly as
      `V2_open_old_ogr` writes it: either number above the reader's, not a lexicographic order. */
  predicate NewerThanReader(major: int, minor: int) {
    major > ReaderMajor || minor > ReaderMinor
  }

  /** 4.1 counts as newer than 5.0; 5.0 and 4.0 do not. */
  lemma NewerIsNotLexicographic()
    ensures NewerThanReader(4, 1) && NewerThanReader(5, 1) && NewerThanReader(6, 0)
    ensures !NewerThanReader(5, 0) && !NewerThanReader(4, 0)
  {
  }

  /** A header byte stored in a C `char`, which is signed on the platforms this
      model assumes: bytes above 127 read as negative numbers. */
  function SignedChar(b: byte): (c: int)
    ensures -128 <= c < 128 && (c - b as int) % 256 == 0
    ensures 0 <= c <==> b < 128
  {
    if b < 128 then b as int else b as int - 256
  }

  /** Where a read past the end of the data stopped the reader. */
  datatype Stage = HeaderLength | Count | Offsets(count: int)

  /** What follows an accepted header. */
  datatype Body =
    | Loaded(offsets: seq<int>)
    | Short(stage: Stage)
    | BadSeek(length: int)
    | BadAlloc(count: int)

  /** The reader's verdict on a whole file. */
  datatype Decoding =
    | ShortHeader
    | Rejected(major: int, minor: int)
    | Parsed(warned: bool, body: Body)

  /** What the level-2 open reads from the bytes `data` of a fidx file. A seek
      to a negative header length fails (fatal in `V2_open_old_ogr`); a negative
      record count asks, with a 64-bit `size_t`, for an allocation no process can
      satisfy (fatal). Header bytes are read as signed `char`s. */
  function Decode(data: seq<byte>): Decoding {
    if |data| < 5 then ShortHeader
    else
      var major, minor := SignedChar(data[0]), SignedChar(data[1]);
      var newer := NewerThanReader(major, minor);
      if newer && NewerThanReader(SignedChar(data[2]), SignedChar(data[3])) then
        Rejected(major, minor)
      else
        var order := OrderOfTag(SignedChar(data[4]));
        Parsed(newer, DecodeBody(data, order))
  }

  /** The part of `Decode` after the five header bytes. */
  function DecodeBody(data: seq<byte>, order: ByteOrder): Body
    requires |data| >= 5
  {
    if |data| < 9 then Short(HeaderLength)
    else
      var length := DecodeInt32(data[5..9], order);
      if length < 0 then BadSeek(length)
      else if |data| < length + 4 then Short(Count)
      else
        var count := DecodeInt32(data[length..length + 4], order);
        if count < 0 then BadAlloc(count)
        else if |data| < length + 4 + 4 * count then Short(Offsets(count))
        else Loaded(DecodeInts(data[length + 4..length + 4 + 4 * count], order))
  }

  /** The version gate: the file is rejected exactly when both its version and its
      back-compat version are newer than the reader's; otherwise parsing goes on,
      with a warning exactly when only its version is newer. */
  lemma VersionGate(data: seq<byte>)
    requires |data| >= 5
    ensures var newer := NewerThanReader(SignedChar(data[0]), SignedChar(data[1]));
            var floorNewer := NewerThanReader(SignedChar(data[2]), SignedChar(data[3]));
            && (Decode(data).Rejected? <==> newer && floorNewer)
            && (Decode(data).Parsed? <==> !(newer && floorNewer))
            && (Decode(data).Parsed? ==> (Decode(data).warned <==> newer && !floorNewer))
  {
  }

  // ---------------------------------------------------------------- writer side

  /** The five header bytes a writer stores. */
  datatype Header = Header(major: byte, minor: byte, backMajor: byte, backMinor: byte,
                           order: ByteOrder)

  function HeaderBytes(h: Header): (b: seq<byte>)
    ensures |b| == 5
  {
    [h.major, h.minor, h.backMajor, h.backMinor, TagOf(h.order)]
  }

  /** A header this reader does not reject. */
  predicate Accepted(h: Header) {
    !(NewerThanReader(SignedChar(h.major), SignedChar(h.minor))
      && NewerThanReader(SignedChar(h.backMajor), SignedChar(h.backMinor)))
  }

  /** A padding and an offset table the 4-byte fields can describe. */
  predicate Encodable(pad: seq<byte>, offsets: seq<int>) {
    IsInt32(9 + |pad|) && IsInt32(|offsets|) && AllInt32(offsets)
  }

  /** A fidx file: header, header length L = 9 + |pad|, `pad` up to L, the
      record count, the offsets. */
  function Encode(h: Header, pad: seq<byte>, offsets: seq<int>): (data: seq<byte>)
    requires Encodable(pad, offsets)
    ensures |data| == 13 + |pad| + 4 * |offsets|
  {
    HeaderBytes(h) + EncodeInt32(9 + |pad|, h.order) + pad
      + EncodeInt32(|offsets|, h.order) + EncodeInts(offsets, h.order)
  }

  lemma Concat5(p: seq<byte>, q: seq<byte>, r: seq<byte>, s: seq<byte>, t: seq<byte>)
    ensures var d := p + q + r + s + t;
            var i, j := |p| + |q|, |p| + |q| + |r|;
            && d[..|p|] == p
            && d[|p|..i] == q
            && d[j..j + |s|] == s
            && d[j + |s|..] == t
  {
    var d := p + q + r + s + t;
    var i, j := |p| + |q|, |p| + |q| + |r|;
    assert d == (p + q + r) + (s + t);
    assert (p + q + r)[..|p|] == p;
    assert (p + q + r)[|p|..i] == q;
    assert (s + t)[..|s|] == s;
  }

  /** The pieces of an encoded file, by position. */
  lemma EncodeParts(h: Header, pad: seq<byte>, offsets: seq<int>)
    requires Encodable(pad, offsets)
    ensures var data := Encode(h, pad, offsets);
            var l := 9 + |pad|;
            && data[..5] == HeaderBytes(h)
            && data[5..9] == EncodeInt32(l, h.order)
            && data[l..l + 4] == EncodeInt32(|offsets|, h.order)
            && data[l + 4..] == EncodeInts(offsets, h.order)
  {
    Concat5(HeaderBytes(h), EncodeInt32(9 + |pad|, h.order), pad,
            EncodeInt32(|offsets|, h.order), EncodeInts(offsets, h.order));
  }

  /** Round trip: a file written with an accepted header is read back with result
      0, the warning exactly when its version is newer, and every offset as written,
      for either byte order. */
  lemma DecodeEncode(h: Header, pad: seq<byte>, offsets: seq<int>)
    requires Encodable(pad, offsets) && Accepted(h)
    ensures Decode(Encode(h, pad, offsets))
            == Parsed(NewerThanReader(SignedChar(h.major), SignedChar(h.minor)), Loaded(offsets))
  {
    var data := Encode(h, pad, offsets);
    var l := 9 + |pad|;
    EncodeParts(h, pad, offsets);
    assert data[4] == TagOf(h.order);
    assert OrderOfTag(SignedChar(data[4])) == h.order;
    DecodeEncodeInt32(l, h.order);
    DecodeEncodeInt32(|offsets|, h.order);
    assert data[l + 4..l + 4 + 4 * |offsets|] == data[l + 4..];
    DecodeEncodeInts(offsets, h.order);
  }

  /** Failed reads: every proper prefix of a file written with an accepted header
      makes the reader stop at a short read, neither loading a table nor failing
      fatally. */
  lemma TruncatedFails(h: Header, pad: seq<byte>, offsets: seq<int>, k: nat)
    requires Encodable(pad, offsets) && Accepted(h)
    requires k < |Encode(h, pad, offsets)|
    ensures var d := Decode(Encode(h, pad, offsets)[..k]);
            d.ShortHeader? || (d.Parsed? && d.body.Short?)
  {
    var data := Encode(h, pad, offsets);
    var cut := data[..k];
    var l := 9 + |pad|;
    EncodeParts(h, pad, offsets);
    if k >= 5 {
      assert cut[..5] == data[..5];
      assert OrderOfTag(SignedChar(cut[4])) == h.order;
      if k >= 9 {
        assert cut[5..9] == data[5..9];
        DecodeEncodeInt32(l, h.order);
        if k >= l + 4 {
          assert cut[l..l + 4] == data[l..l + 4];
          DecodeEncodeInt32(|offsets|, h.order);
        }
      }
    }
  }

  // ---------------------------------------------------------------- read cursor

  lemma SliceOfSlice(d: seq<byte>, s: int, e: int, a: int, b: int)
    requires 0 <= s <= e <= |d| && 0 <= a <= b <= e - s
    ensures d[s..e][a..b] == d[s + a..s + b]
  {
    var x, y := d[s..e][a..b], d[s + a..s + b];
    assert |x| == |y|;
    forall i | 0 <= i < |x|
      ensures x[i] == y[i]
    {
      assert x[i] == d[s..e][a + i] == d[s + a + i];
    }
  }

  /** An open fidx file: its bytes and the position of the next read. */
  class GvFile {
    const data: seq<byte>
    var pos: nat

    constructor (data: seq<byte>)
      ensures this.data == data && pos == 0
    {
      this.data := data;
      this.pos := 0;
    }

    /** A read of `n` bytes: it succeeds only when all `n` are there; a short read
        consumes what is left. */
    method ReadBytes(n: nat) returns (ok: bool, buf: seq<byte>)
      modifies this
      ensures ok == (old(pos) + n <= |data|)
      ensures ok ==> |buf| == n && buf == data[old(pos)..old(pos) + n] && pos == old(pos) + n
      ensures !ok ==> pos == if old(pos) < |data| then |data| else old(pos)
    {
      ok := pos + n <= |data|;
      if ok {
        buf := data[pos..pos + n];
        pos := pos + n;
      } else {
        buf := [];
        // Past the end the cursor stays where a seek put it.
        pos := if pos < |data| then |data| else pos;
      }
    }

    /** A read of one 4-byte integer in byte order `order`. */
    method ReadInt32(order: ByteOrder) returns (ok: bool, v: int)
      modifies this
      ensures ok == (old(pos) + 4 <= |data|)
      ensures ok ==> v == DecodeInt32(data[old(pos)..old(pos) + 4], order) && pos == old(pos) + 4
    {
      var b;
      ok, b := ReadBytes(4);
      v := if ok then DecodeInt32(b, order) else 0;
    }

    /** A read of `n` 4-byte integers into `buf`, converted one by one; on a short
        read `buf` is left as it was. */
    method ReadInt32s(buf: array<int>, n: nat, order: ByteOrder) returns (ok: bool)
      requires buf.Length == n
      modifies this, buf
      ensures ok == (old(pos) + 4 * n <= |data|)
      ensures ok ==> buf[..] == DecodeInts(data[old(pos)..old(pos) + 4 * n], order)
                     && pos == old(pos) + 4 * n
      ensures !ok ==> buf[..] == old(buf[..])
                      && pos == if old(pos) < |data| then |data| else old(pos)
    {
      var start := pos;
      ok := start + 4 * n <= |data|;
      if !ok {
        // As in `ReadBytes`: past the end the cursor stays where a seek put it.
        pos := if pos < |data| then |data| else pos;
        return;
      }
      var i := 0;
      while i < n
        invariant 0 <= i <= n
        invariant forall j :: 0 <= j < i ==> buf[j] == DecodeInt32(data[start + 4 * j..start + 4 * j + 4], order)
      {
        buf[i] := DecodeInt32(data[start + 4 * i..start + 4 * i + 4], order);
        i := i + 1;
      }
      pos := start + 4 * n;
      ghost var chunk := data[start..start + 4 * n];
      forall j | 0 <= j < n
        ensures buf[j] == DecodeInts(chunk, order)[j]
      {
        DecodeIntsAt(chunk, order, j);
        SliceOfSlice(data, start, start + 4 * n, 4 * j, 4 * j + 4);
      }
    }

    /** An absolute seek (fseek with SEEK_SET): it fails for a negative position
        and may go past the end of the data. */
    method Seek(offset: int) returns (ok: bool)
      modifies this
      ensures ok == (offset >= 0)
      ensures pos == if ok then offset else old(pos)
    {
      ok := offset >= 0;
      if ok {
        pos := offset;
      }
    }
  }
}
