/**
 * The ArCOM wire format: how each of the six fixed-width integer types is laid
 * out as bytes on the serial link.  Every value travels as exactly as many bytes
 * as its type is wide, least-significant byte first, with no tag, no length
 * prefix and no padding.  Signed values travel as their two's-complement bit
 * pattern.  Sequences of values travel as the concatenation of their elements'
 * encodings, in index order.
 */
module Wire {

  type uint8  = x: int | 0 <= x < 0x100
  type uint16 = x: int | 0 <= x < 0x1_0000
  type uint32 = x: int | 0 <= x < 0x1_0000_0000
  type int8   = x: int | -0x80 <= x < 0x80
  type int16  = x: int | -0x8000 <= x < 0x8000
  type int32  = x: int | -0x8000_0000 <= x < 0x8000_0000

  /** 256 to the power n: the number of distinct n-byte patterns. */
  function Pow256(n: nat): (p: int)
    ensures p >= 1
  {
    if n == 0 then 1 else 0x100 * Pow256(n - 1)
  }

  // ---------------------------------------------------------------------------
  // Unsigned little-endian byte order
  // ---------------------------------------------------------------------------

  /** The n-byte little-endian encoding of v: byte k holds bits 8k..8k+7 of v. */
  function EncodeLE(v: nat, n: nat): (bs: seq<uint8>)
    requires v < Pow256(n)
    ensures |bs| == n
  {
    if n == 0 then [] else [v % 0x100] + EncodeLE(v / 0x100, n - 1)
  }

  /** The number whose little-endian encoding is bs: bs[0] + 256*bs[1] + 65536*bs[2] + ... */
  function DecodeLE(bs: seq<uint8>): (v: nat)
    ensures v < Pow256(|bs|)
  {
    if bs == [] then 0 else bs[0] + 0x100 * DecodeLE(bs[1..])
  }

  /** Decoding undoes encoding, for every number that fits in n bytes. */
  lemma {:induction false} DecodeEncodeLE(v: nat, n: nat)
    requires v < Pow256(n)
    ensures DecodeLE(EncodeLE(v, n)) == v
  {
    if n > 0 {
      var bs := EncodeLE(v, n);
      assert bs[1..] == EncodeLE(v / 0x100, n - 1);
      DecodeEncodeLE(v / 0x100, n - 1);
    }
  }

  /** Encoding undoes decoding: every n-byte pattern is the encoding of the number it decodes to. */
  lemma {:induction false} EncodeDecodeLE(bs: seq<uint8>)
    ensures EncodeLE(DecodeLE(bs), |bs|) == bs
  {
    if bs != [] {
      var v := DecodeLE(bs);
      assert v == bs[0] + 0x100 * DecodeLE(bs[1..]);
      assert v % 0x100 == bs[0];
      assert v / 0x100 == DecodeLE(bs[1..]);
      EncodeDecodeLE(bs[1..]);
      assert bs == [bs[0]] + bs[1..];
    }
  }

  /** The two-byte encoding is the low byte followed by the high byte. */
  lemma EncodeLE2(v: nat)
    requires v < 0x1_0000
    ensures EncodeLE(v, 2) == [v % 0x100, (v / 0x100) % 0x100]
  {
    assert Pow256(2) == 0x1_0000;
    assert EncodeLE(v / 0x100, 1) == [(v / 0x100) % 0x100] + EncodeLE(v / 0x100 / 0x100, 0);
  }

  /** The four-byte encoding holds bits 0-7, 8-15, 16-23 and 24-31, in that order. */
  lemma EncodeLE4(v: nat)
    requires v < 0x1_0000_0000
    ensures EncodeLE(v, 4) ==
      [v % 0x100, (v / 0x100) % 0x100, (v / 0x1_0000) % 0x100, (v / 0x100_0000) % 0x100]
  {
    assert Pow256(4) == 0x1_0000_0000;
    var v1 := v / 0x100;
    var v2 := v1 / 0x100;
    var v3 := v2 / 0x100;
    assert v2 == v / 0x1_0000;
    assert v3 == v / 0x100_0000;
    assert EncodeLE(v3, 1) == [v3 % 0x100] + EncodeLE(v3 / 0x100, 0);
    assert EncodeLE(v2, 2) == [v2 % 0x100] + EncodeLE(v3, 1);
    assert EncodeLE(v1, 3) == [v1 % 0x100] + EncodeLE(v2, 2);
  }

  /** Two bytes decode to b0 + 256*b1. */
  lemma DecodeLE2(bs: seq<uint8>)
    requires |bs| == 2
    ensures DecodeLE(bs) == bs[0] as int + 0x100 * (bs[1] as int)
  {
    assert DecodeLE(bs[1..]) == bs[1] + 0x100 * DecodeLE(bs[2..]);
  }

  /** Four bytes decode to b0 + 256*b1 + 65536*b2 + 16777216*b3. */
  lemma DecodeLE4(bs: seq<uint8>)
    requires |bs| == 4
    ensures DecodeLE(bs) == bs[0] as int + 0x100 * (bs[1] as int) + 0x1_0000 * (bs[2] as int) + 0x100_0000 * (bs[3] as int)
  {
    assert DecodeLE(bs[3..]) == bs[3] + 0x100 * DecodeLE(bs[4..]);
    assert DecodeLE(bs[2..]) == bs[2] + 0x100 * DecodeLE(bs[3..]);
    assert DecodeLE(bs[1..]) == bs[1] + 0x100 * DecodeLE(bs[2..]);
  }

  // ---------------------------------------------------------------------------
  // Two's complement
  // ---------------------------------------------------------------------------

  /** v fits in n bytes as a signed two's-complement number. */
  predicate SignedFits(v: int, n: nat) {
    -Pow256(n) <= 2 * v < Pow256(n)
  }

  /** The n-byte two's-complement bit pattern of v, read as an unsigned number. */
  function ToTwos(v: int, n: nat): (u: nat)
    requires SignedFits(v, n)
    ensures u < Pow256(n)
  {
    if v < 0 then v + Pow256(n) else v
  }

  /** The signed number whose n-byte two's-complement bit pattern is u. */
  function FromTwos(u: nat, n: nat): (v: int)
    requires u < Pow256(n)
    ensures SignedFits(v, n)
  {
    if 2 * u < Pow256(n) then u else u - Pow256(n)
  }

  /** Reinterpreting a signed value's bit pattern as signed gives the value back. */
  lemma FromToTwos(v: int, n: nat)
    requires SignedFits(v, n)
    ensures FromTwos(ToTwos(v, n), n) == v
  {
  }

  /** Every bit pattern is the two's-complement pattern of the value it reads as. */
  lemma ToFromTwos(u: nat, n: nat)
    requires u < Pow256(n)
    ensures ToTwos(FromTwos(u, n), n) == u
  {
  }

  // ---------------------------------------------------------------------------
  // The six scalar types
  // ---------------------------------------------------------------------------

  /** The integer types ArCOM transfers: unsigned and signed, 8, 16 and 32 bits. */
  datatype Kind = U8 | U16 | U32 | I8 | I16 | I32 {

    /** The number of bytes a value of this type takes on the wire. */
    function Width(): (w: nat)
      ensures 1 <= w <= 4
    {
      match this
      case U8 | I8 => 1
      case U16 | I16 => 2
      case U32 | I32 => 4
    }

    predicate Signed() {
      I8? || I16? || I32?
    }

    /** The number of distinct bit patterns of this type: 256 to the power of its width. */
    function Modulus(): (m: int)
      ensures m == Pow256(Width())
    {
      assert Pow256(1) == 0x100;
      assert Pow256(2) == 0x1_0000;
      assert Pow256(4) == 0x1_0000_0000;
      match this
      case U8 | I8 => 0x100
      case U16 | I16 => 0x1_0000
      case U32 | I32 => 0x1_0000_0000
    }

    /** v is a value of this type (the range of the corresponding C type). */
    predicate InRange(v: int) {
      if Signed() then -Modulus() <= 2 * v < Modulus() else 0 <= v < Modulus()
    }
  }

  /** The ranges of the six kinds are those of the C types uint8_t .. int32_t. */
  lemma InRangeIsCRange(v: int)
    ensures U8.InRange(v) <==> 0 <= v <= 0xFF
    ensures U16.InRange(v) <==> 0 <= v <= 0xFFFF
    ensures U32.InRange(v) <==> 0 <= v <= 0xFFFF_FFFF
    ensures I8.InRange(v) <==> -0x80 <= v <= 0x7F
    ensures I16.InRange(v) <==> -0x8000 <= v <= 0x7FFF
    ensures I32.InRange(v) <==> -0x8000_0000 <= v <= 0x7FFF_FFFF
  {
  }

  /** The bit pattern a value of type t has in memory, read as an unsigned number. */
  function Pattern(t: Kind, v: int): (u: nat)
    requires t.InRange(v)
    ensures u < Pow256(t.Width())
  {
    if t.Signed() then ToTwos(v, t.Width()) else v
  }

  /** The value of type t whose bit pattern, read as an unsigned number, is u. */
  function FromPattern(t: Kind, u: nat): (v: int)
    requires u < Pow256(t.Width())
    ensures t.InRange(v)
  {
    if t.Signed() then FromTwos(u, t.Width()) else u
  }

  /** The wire bytes of v as a value of type t. */
  function Encode(t: Kind, v: int): (bs: seq<uint8>)
    requires t.InRange(v)
    ensures |bs| == t.Width()
  {
    EncodeLE(Pattern(t, v), t.Width())
  }

  /** The value of type t that the bytes bs stand for. */
  function Decode(t: Kind, bs: seq<uint8>): (v: int)
    requires |bs| == t.Width()
    ensures t.InRange(v)
  {
    FromPattern(t, DecodeLE(bs))
  }

  /** Round trip: decoding the encoding of any value of type t gives that value,
      so no two values share an encoding. */
  lemma DecodeEncode(t: Kind, v: int)
    requires t.InRange(v)
    ensures Decode(t, Encode(t, v)) == v
  {
    DecodeEncodeLE(Pattern(t, v), t.Width());
    if t.Signed() {
      FromToTwos(v, t.Width());
    }
  }

  /** Round trip the other way: every byte pattern of the right width is the
      encoding of the value it decodes to, so no two patterns decode to the same
      value and every pattern a peer can send stands for some value. */
  lemma EncodeDecode(t: Kind, bs: seq<uint8>)
    requires |bs| == t.Width()
    ensures Encode(t, Decode(t, bs)) == bs
  {
    var u := DecodeLE(bs);
    if t.Signed() {
      ToFromTwos(u, t.Width());
    }
    assert Pattern(t, Decode(t, bs)) == u;
    EncodeDecodeLE(bs);
  }

  /** Unsigned 16- and 32-bit values travel low byte first, e.g. 0x1234 as 34 12. */
  lemma UnsignedByteOrder()
    ensures Encode(U16, 0x1234) == [0x34, 0x12]
    ensures Encode(U32, 0xAABB_CCDD) == [0xDD, 0xCC, 0xBB, 0xAA]
    ensures Encode(U16, 0xFFFF) == [0xFF, 0xFF]
    ensures Encode(U32, 0) == [0, 0, 0, 0]
  {
    EncodeLE2(0x1234);
    EncodeLE4(0xAABB_CCDD);
    EncodeLE2(0xFFFF);
    EncodeLE4(0);
  }

  /** Signed values travel as their two's-complement pattern: -1 is all ones, the
      minimum has only the top bit set; the same byte 0xFF reads as -1 signed and
      as 255 unsigned. */
  lemma SignedReinterpretation()
    ensures Encode(I8, -1) == [0xFF]
    ensures Encode(I16, -1) == [0xFF, 0xFF]
    ensures Encode(I32, -1) == [0xFF, 0xFF, 0xFF, 0xFF]
    ensures Encode(I32, -0x8000_0000) == [0, 0, 0, 0x80]
    ensures Encode(I16, 0x7FFF) == [0xFF, 0x7F]
    ensures Decode(I8, [0xFF]) == -1
    ensures Decode(U8, [0xFF]) == 255
    ensures Decode(I32, [0xFF, 0xFF, 0xFF, 0xFF]) == -1
  {
    EncodeLE2(0xFFFF);
    EncodeLE4(0xFFFF_FFFF);
    EncodeLE4(0x8000_0000);
    EncodeLE2(0x7FFF);
    DecodeLE4([0xFF, 0xFF, 0xFF, 0xFF]);
  }

  // ---------------------------------------------------------------------------
  // Sequences of values
  // ---------------------------------------------------------------------------

  predicate AllInRange(t: Kind, s: seq<int>) {
    forall i :: 0 <= i < |s| ==> t.InRange(s[i])
  }

  /** The wire bytes of the values s, one after another in index order. */
  function EncodeAll(t: Kind, s: seq<int>): (bs: seq<uint8>)
    requires AllInRange(t, s)
    ensures |bs| == |s| * t.Width()
  {
    if s == [] then [] else Encode(t, s[0]) + EncodeAll(t, s[1..])
  }

  /** The values of type t that the bytes bs stand for, one per whole W-byte
      chunk, in order; a trailing partial chunk stands for nothing. */
  function DecodeAll(t: Kind, bs: seq<uint8>): (s: seq<int>)
    ensures AllInRange(t, s)
  {
    if |bs| < t.Width() then []
    else [Decode(t, bs[..t.Width()])] + DecodeAll(t, bs[t.Width()..])
  }

  /** Encoding one more value appends its encoding. */
  lemma {:induction false} EncodeAllSnoc(t: Kind, s: seq<int>, x: int)
    requires AllInRange(t, s) && t.InRange(x)
    ensures AllInRange(t, s + [x])
    ensures EncodeAll(t, s + [x]) == EncodeAll(t, s) + Encode(t, x)
  {
    if s != [] {
      assert (s + [x])[1..] == s[1..] + [x];
      EncodeAllSnoc(t, s[1..], x);
    }
  }

  /** Multiplying by a width preserves order. */
  lemma MulMono(a: nat, b: nat, w: nat)
    requires a <= b
    ensures a * w <= b * w
  {
  }

  /** Chunk i of bs is chunk i - 1 of bs with its first chunk dropped. */
  lemma ChunkShift(bs: seq<uint8>, w: nat, i: nat)
    requires 0 < i && i * w + w <= |bs|
    ensures w <= |bs| && (i - 1) * w + w <= |bs[w..]|
    ensures bs[w..][(i - 1) * w .. (i - 1) * w + w] == bs[i * w .. i * w + w]
  {
    assert (i - 1) * w + w == i * w;
  }

  /** Chunk i lies inside the first n chunks when i < n. */
  lemma ChunkInside(w: nat, i: nat, n: nat)
    requires i < n
    ensures i * w + w <= n * w
  {
    MulMono(i + 1, n, w);
    assert (i + 1) * w == i * w + w;
  }

  /** Bytes i*W .. i*W+W-1 of an encoded sequence are the encoding of element i. */
  lemma {:induction false} EncodeAllAt(t: Kind, s: seq<int>, i: nat)
    requires AllInRange(t, s)
    requires i < |s|
    ensures i * t.Width() + t.Width() <= |EncodeAll(t, s)|
    ensures EncodeAll(t, s)[i * t.Width() .. i * t.Width() + t.Width()] == Encode(t, s[i])
  {
    var w := t.Width();
    var bs := EncodeAll(t, s);
    ChunkInside(w, i, |s|);
    assert bs == Encode(t, s[0]) + EncodeAll(t, s[1..]);
    if i > 0 {
      ChunkShift(bs, w, i);
      assert bs[w..] == EncodeAll(t, s[1..]);
      EncodeAllAt(t, s[1..], i - 1);
      assert s[1..][i - 1] == s[i];
    }
  }

  /** Every whole chunk is decoded: value i is the decoding of bytes i*W .. i*W+W-1. */
  lemma {:induction false} DecodeAllAt(t: Kind, bs: seq<uint8>, i: nat)
    requires i * t.Width() + t.Width() <= |bs|
    ensures i < |DecodeAll(t, bs)|
    ensures DecodeAll(t, bs)[i] == Decode(t, bs[i * t.Width() .. i * t.Width() + t.Width()])
  {
    var w := t.Width();
    if i > 0 {
      ChunkShift(bs, w, i);
      DecodeAllAt(t, bs[w..], i - 1);
    }
  }

  /** Taking w bytes at offset a, two ways. */
  lemma SliceAt(bs: seq<uint8>, a: nat, w: nat)
    requires a + w <= |bs|
    ensures bs[a..][..w] == bs[a..a + w]
    ensures bs[a..][w..] == bs[a + w..]
  {
  }

  /** The first n*W bytes decode to exactly n values, value k coming from bytes
      k*W .. k*W+W-1. */
  lemma DecodeAllEach(t: Kind, bs: seq<uint8>, n: nat)
    requires n * t.Width() <= |bs|
    ensures |DecodeAll(t, bs[..n * t.Width()])| == n
    ensures forall k :: 0 <= k < n ==>
      k * t.Width() + t.Width() <= |bs| &&
      DecodeAll(t, bs[..n * t.Width()])[k] == Decode(t, bs[k * t.Width() .. k * t.Width() + t.Width()])
  {
    var w := t.Width();
    var prefix := bs[..n * w];
    DecodeAllLength(t, prefix, n);
    forall k | 0 <= k < n
      ensures k * w + w <= |bs|
      ensures DecodeAll(t, prefix)[k] == Decode(t, bs[k * w .. k * w + w])
    {
      ChunkInside(w, k, n);
      DecodeAllAt(t, prefix, k);
      assert prefix[k * w .. k * w + w] == bs[k * w .. k * w + w];
    }
  }

  /** n*W bytes decode to exactly n values. */
  lemma {:induction false} DecodeAllLength(t: Kind, bs: seq<uint8>, n: nat)
    requires |bs| == n * t.Width()
    ensures |DecodeAll(t, bs)| == n
  {
    if n > 0 {
      ChunkInside(t.Width(), 0, n);
      ChunkCount(t.Width(), n);
      DecodeAllLength(t, bs[t.Width()..], n - 1);
    }
  }

  /** n chunks are one chunk followed by n - 1 chunks. */
  lemma ChunkCount(w: nat, n: nat)
    requires 0 < n
    ensures (n - 1) * w + w == n * w
  {
  }

  /** Array round trip: decoding the encoding of s gives back s. */
  lemma {:induction false} DecodeEncodeAll(t: Kind, s: seq<int>)
    requires AllInRange(t, s)
    ensures DecodeAll(t, EncodeAll(t, s)) == s
  {
    if s != [] {
      var w := t.Width();
      var bs := EncodeAll(t, s);
      assert bs == Encode(t, s[0]) + EncodeAll(t, s[1..]);
      assert bs[..w] == Encode(t, s[0]);
      assert bs[w..] == EncodeAll(t, s[1..]);
      DecodeEncode(t, s[0]);
      DecodeEncodeAll(t, s[1..]);
      assert s == [s[0]] + s[1..];
    }
  }

  /** Array round trip the other way: the values that bs decodes to re-encode to
      bs itself, but for a trailing partial chunk shorter than one value. */
  lemma {:induction false} EncodeDecodeAll(t: Kind, bs: seq<uint8>)
    ensures EncodeAll(t, DecodeAll(t, bs)) <= bs
    ensures |bs| - |EncodeAll(t, DecodeAll(t, bs))| < t.Width()
  {
    var w := t.Width();
    if |bs| >= w {
      var s := DecodeAll(t, bs);
      assert s[0] == Decode(t, bs[..w]);
      assert s[1..] == DecodeAll(t, bs[w..]);
      EncodeDecode(t, bs[..w]);
      EncodeDecodeAll(t, bs[w..]);
      assert bs == bs[..w] + bs[w..];
    }
  }

  /** Unsigned 8-bit values are their own wire bytes: writeUint8 and writeByte
      (and their array forms, and the matching reads) agree byte for byte. */
  lemma {:induction false} Uint8IsByte(s: seq<uint8>)
    ensures AllInRange(U8, s)
    ensures EncodeAll(U8, s) == s
    ensures DecodeAll(U8, s) == s
  {
    if s != [] {
      assert Encode(U8, s[0]) == [s[0]];
      assert Decode(U8, s[..1]) == s[0];
      Uint8IsByte(s[1..]);
      assert s == [s[0]] + s[1..];
    }
  }

  /** A 16-bit array goes element by element, each least significant byte first;
      reading back takes whole two-byte chunks in order. */
  lemma ArrayOrderExample()
    ensures EncodeAll(U16, [0x1234, 0xABCD]) == [0x34, 0x12, 0xCD, 0xAB]
    ensures DecodeAll(I16, [0xFF, 0xFF, 0x00, 0x80]) == [-1, -0x8000]
  {
    EncodeLE2(0x1234);
    EncodeLE2(0xABCD);
    assert [0x1234, 0xABCD][1..] == [0xABCD];
    var bs: seq<uint8> := [0xFF, 0xFF, 0x00, 0x80];
    DecodeLE2(bs[..2]);
    DecodeLE2(bs[2..][..2]);
    assert bs[2..][2..] == [];
  }
}
