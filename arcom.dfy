/**
 * The firmware side of ArCOM (Arduino/ArCOM.cpp): an object that writes and
 * reads the six fixed-width integer types, singly and as arrays, over the
 * SerialUSB port.
 *
 * The port is modelled by two byte sequences: `out`, every byte written so far,
 * in order, and `inp`, the bytes the peer has sent that have not been read yet.
 * The `typeBuffer` union of the original is modelled by its byte view, a
 * four-byte array; reading or assigning one of its integer members is `Member`
 * or `SetMember`, which interpret the first W bytes little-endian, as on the ARM
 * target.  The busy-wait before each byte read becomes the precondition that
 * the bytes the call will read have already arrived.
 */
module Arduino {
  import opened Wire

  class ArCOM {
    /** Every byte written to the port, in the order written. */
    var out: seq<uint8>
    /** The bytes received from the port and not yet read, oldest first. */
    var inp: seq<uint8>
    /** The byte view of the typeBuffer union shared by all operations. */
    const typeBuffer: array<uint8>

    ghost predicate Valid()
      reads this
    {
      typeBuffer.Length == 4
    }

    /** A port on which nothing has been written and `input` is waiting to be read. */
    constructor (input: seq<uint8>)
      ensures Valid() && fresh(typeBuffer)
      ensures out == [] && inp == input
    {
      out := [];
      inp := input;
      typeBuffer := new uint8[4];
    }

    // -------------------------------------------------------------------------
    // The port and the union
    // -------------------------------------------------------------------------

    /** SerialUSB.write of one byte: it goes to the end of the output. */
    method SerialWrite(b: uint8)
      modifies this
      ensures out == old(out) + [b]
      ensures inp == old(inp)
    {
      out := out + [b];
    }

    /** SerialUSB.read once a byte is available: it takes the oldest unread byte. */
    method SerialRead() returns (b: uint8)
      requires inp != []
      modifies this
      ensures b == old(inp)[0]
      ensures inp == old(inp)[1..]
      ensures out == old(out)
    {
      b := inp[0];
      inp := inp[1..];
    }

    /** Reading member t of the typeBuffer union: its first W bytes, least significant first. */
    function Member(t: Kind): (r: int)
      requires Valid()
      reads this, typeBuffer
      ensures t.InRange(r)
      ensures Encode(t, r) == typeBuffer[..t.Width()]
    {
      EncodeDecode(t, typeBuffer[..t.Width()]);
      Decode(t, typeBuffer[..t.Width()])
    }

    /** Assigning v to member t of the typeBuffer union: its first W bytes become
        the little-endian bit pattern of v and the others keep their values. */
    method SetMember(t: Kind, v: int)
      requires Valid() && t.InRange(v)
      modifies typeBuffer
      ensures typeBuffer[..t.Width()] == Encode(t, v)
      ensures typeBuffer[t.Width()..] == old(typeBuffer[t.Width()..])
    {
      var bs := Encode(t, v);
      forall k | 0 <= k < t.Width() {
        typeBuffer[k] := bs[k];
      }
    }

    /** The run of writes of the union's first n bytes, byteArray[0] first, that
        follows every assignment to a member in the original. */
    method SendTypeBuffer(n: nat)
      requires Valid() && (n == 1 || n == 2 || n == 4)
      modifies this
      ensures out == old(out) + typeBuffer[..n]
      ensures inp == old(inp)
    {
      SerialWrite(typeBuffer[0]);
      if n >= 2 {
        SerialWrite(typeBuffer[1]);
      }
      if n == 4 {
        SerialWrite(typeBuffer[2]);
        SerialWrite(typeBuffer[3]);
      }
    }

    // -------------------------------------------------------------------------
    // Scalar writes
    // -------------------------------------------------------------------------

    /** Sends one byte as it is. */
    method WriteByte(b: uint8)
      modifies this
      ensures out == old(out) + [b]
      ensures inp == old(inp)
    {
      SerialWrite(b);
    }

    /** Sends an unsigned 8-bit value as its single wire byte. */
    method WriteUint8(v: uint8)
      modifies this
      ensures out == old(out) + Encode(U8, v)
      ensures inp == old(inp)
    {
      SerialWrite(v);
    }

    /** Sends v as 2 bytes, least significant first, cutting it up by shifts. */
    method WriteUint16(v: uint16)
      modifies this
      ensures out == old(out) + Encode(U16, v)
      ensures out == old(out) + [v % 0x100, v / 0x100]
      ensures inp == old(inp)
    {
      SerialWrite(v % 0x100);
      SerialWrite((v / 0x100) % 0x100);
      EncodeLE2(v);
    }

    /** Sends v as 4 bytes, least significant first, cutting it up by shifts. */
    method WriteUint32(v: uint32)
      modifies this
      ensures out == old(out) + Encode(U32, v)
      ensures out == old(out) + [v % 0x100, (v / 0x100) % 0x100, (v / 0x1_0000) % 0x100, v / 0x100_0000]
      ensures inp == old(inp)
    {
      SerialWrite(v % 0x100);
      SerialWrite((v / 0x100) % 0x100);
      SerialWrite((v / 0x1_0000) % 0x100);
      SerialWrite((v / 0x100_0000) % 0x100);
      EncodeLE4(v);
    }

    /** Sends v as its 1-byte two's-complement pattern, read off the union after
        assigning v to its int8 member. */
    method WriteInt8(v: int8)
      requires Valid()
      modifies this, typeBuffer
      ensures out == old(out) + Encode(I8, v)
      ensures inp == old(inp)
      ensures typeBuffer[..1] == Encode(I8, v) && typeBuffer[1..] == old(typeBuffer[1..])
    {
      SetMember(I8, v);
      SendTypeBuffer(1);
    }

    /** Sends v as its 2-byte two's-complement pattern, read off the union after
        assigning v to its int16 member. */
    method WriteInt16(v: int16)
      requires Valid()
      modifies this, typeBuffer
      ensures out == old(out) + Encode(I16, v)
      ensures inp == old(inp)
      ensures typeBuffer[..2] == Encode(I16, v) && typeBuffer[2..] == old(typeBuffer[2..])
    {
      SetMember(I16, v);
      SendTypeBuffer(2);
    }

    /** Sends v as its 4-byte two's-complement pattern, read off the union after
        assigning v to its int32 member. */
    method WriteInt32(v: int32)
      requires Valid()
      modifies this, typeBuffer
      ensures out == old(out) + Encode(I32, v)
      ensures inp == old(inp)
      ensures typeBuffer[..4] == Encode(I32, v) && typeBuffer[4..] == old(typeBuffer[4..])
    {
      SetMember(I32, v);
      SendTypeBuffer(4);
    }

    // -------------------------------------------------------------------------
    // Scalar reads
    // -------------------------------------------------------------------------

    /** Takes the next byte as it is. */
    method ReadByte() returns (b: uint8)
      requires |inp| >= 1
      modifies this
      ensures b == old(inp)[0]
      ensures inp == old(inp)[1..] && out == old(out)
    {
      b := SerialRead();
    }

    /** Takes the next byte as an unsigned 8-bit value. */
    method ReadUint8() returns (v: uint8)
      requires |inp| >= 1
      modifies this
      ensures v == Decode(U8, old(inp)[..1])
      ensures inp == old(inp)[1..] && out == old(out)
    {
      v := SerialRead();
    }

    /** Collects the next 2 bytes in the union and reads back its uint16 member, an unsigned value. */
    method ReadUint16() returns (v: uint16)
      requires Valid() && |inp| >= 2
      modifies this, typeBuffer
      ensures v == Decode(U16, old(inp)[..2])
      ensures v == old(inp)[0] as int + 0x100 * (old(inp)[1] as int)
      ensures inp == old(inp)[2..] && out == old(out)
      ensures typeBuffer[..] == old(inp)[..2] + old(typeBuffer[2..])
    {
      var b := SerialRead();
      typeBuffer[0] := b;
      b := SerialRead();
      typeBuffer[1] := b;
      assert typeBuffer[..2] == old(inp)[..2];
      assert typeBuffer[..] == typeBuffer[..2] + typeBuffer[2..];
      v := Member(U16);
      DecodeLE2(typeBuffer[..2]);
    }

    /** Collects the next 4 bytes in the union and reads back its uint32 member, an unsigned value. */
    method ReadUint32() returns (v: uint32)
      requires Valid() && |inp| >= 4
      modifies this, typeBuffer
      ensures v == Decode(U32, old(inp)[..4])
      ensures v == old(inp)[0] as int + 0x100 * (old(inp)[1] as int)
        + 0x1_0000 * (old(inp)[2] as int) + 0x100_0000 * (old(inp)[3] as int)
      ensures inp == old(inp)[4..] && out == old(out)
      ensures typeBuffer[..] == old(inp)[..4] + old(typeBuffer[4..])
    {
      var b := SerialRead();
      typeBuffer[0] := b;
      b := SerialRead();
      typeBuffer[1] := b;
      b := SerialRead();
      typeBuffer[2] := b;
      b := SerialRead();
      typeBuffer[3] := b;
      assert typeBuffer[..4] == old(inp)[..4];
      assert typeBuffer[..] == typeBuffer[..4] + typeBuffer[4..];
      v := Member(U32);
      DecodeLE4(typeBuffer[..4]);
    }

    /** Collects the next byte in the union and reads back its int8 member, a two's-complement value. */
    method ReadInt8() returns (v: int8)
      requires Valid() && |inp| >= 1
      modifies this, typeBuffer
      ensures v == Decode(I8, old(inp)[..1])
      ensures inp == old(inp)[1..] && out == old(out)
      ensures typeBuffer[..] == old(inp)[..1] + old(typeBuffer[1..])
    {
      var b := SerialRead();
      typeBuffer[0] := b;
      assert typeBuffer[..1] == old(inp)[..1];
      assert typeBuffer[..] == typeBuffer[..1] + typeBuffer[1..];
      v := Member(I8);
    }

    /** Collects the next 2 bytes in the union and reads back its int16 member, a two's-complement value. */
    method ReadInt16() returns (v: int16)
      requires Valid() && |inp| >= 2
      modifies this, typeBuffer
      ensures v == Decode(I16, old(inp)[..2])
      ensures inp == old(inp)[2..] && out == old(out)
      ensures typeBuffer[..] == old(inp)[..2] + old(typeBuffer[2..])
    {
      var b := SerialRead();
      typeBuffer[0] := b;
      b := SerialRead();
      typeBuffer[1] := b;
      assert typeBuffer[..2] == old(inp)[..2];
      assert typeBuffer[..] == typeBuffer[..2] + typeBuffer[2..];
      v := Member(I16);
    }

    /** Collects the next 4 bytes in the union and reads back its int32 member, a two's-complement value. */
    method ReadInt32() returns (v: int32)
      requires Valid() && |inp| >= 4
      modifies this, typeBuffer
      ensures v == Decode(I32, old(inp)[..4])
      ensures inp == old(inp)[4..] && out == old(out)
      ensures typeBuffer[..] == old(inp)[..4] + old(typeBuffer[4..])
    {
      var b := SerialRead();
      typeBuffer[0] := b;
      b := SerialRead();
      typeBuffer[1] := b;
      b := SerialRead();
      typeBuffer[2] := b;
      b := SerialRead();
      typeBuffer[3] := b;
      assert typeBuffer[..4] == old(inp)[..4];
      assert typeBuffer[..] == typeBuffer[..4] + typeBuffer[4..];
      v := Member(I32);
    }

    // -------------------------------------------------------------------------
    // Array writes
    // -------------------------------------------------------------------------

    /** Sends numArray[0..nValues) as they are, one byte per element, in index order. */
    method WriteByteArray(numArray: array<uint8>, nValues: nat)
      requires nValues <= numArray.Length
      modifies this
      ensures out == old(out) + numArray[..nValues]
      ensures inp == old(inp)
    {
      for i := 0 to nValues
        invariant out == old(out) + numArray[..i]
        invariant inp == old(inp)
      {
        WriteByte(numArray[i]);
        assert numArray[..i + 1] == numArray[..i] + [numArray[i]];
      }
    }

    /** Sends numArray[0..nValues) as unsigned 8-bit values, in index order. */
    method WriteUint8Array(numArray: array<uint8>, nValues: nat)
      requires nValues <= numArray.Length
      modifies this
      ensures out == old(out) + EncodeAll(U8, numArray[..nValues])
      ensures inp == old(inp)
    {
      for i := 0 to nValues
        invariant out == old(out) + EncodeAll(U8, numArray[..i])
        invariant inp == old(inp)
      {
        WriteUint8(numArray[i]);
        EncodeAllSnoc(U8, numArray[..i], numArray[i]);
        assert numArray[..i + 1] == numArray[..i] + [numArray[i]];
      }
    }

    /** Sends numArray[0..nValues) in index order, each exactly as WriteInt8 does. */
    method WriteInt8Array(numArray: array<int8>, nValues: nat)
      requires Valid() && nValues <= numArray.Length
      modifies this, typeBuffer
      ensures out == old(out) + EncodeAll(I8, numArray[..nValues])
      ensures inp == old(inp)
      ensures typeBuffer[..1] ==
        if nValues == 0 then old(typeBuffer[..1]) else Encode(I8, numArray[nValues - 1])
      ensures typeBuffer[1..] == old(typeBuffer[1..])
    {
      for i := 0 to nValues
        invariant out == old(out) + EncodeAll(I8, numArray[..i])
        invariant inp == old(inp)
        invariant typeBuffer[..1] == if i == 0 then old(typeBuffer[..1]) else Encode(I8, numArray[i - 1])
        invariant typeBuffer[1..] == old(typeBuffer[1..])
      {
        WriteInt8(numArray[i]);
        EncodeAllSnoc(I8, numArray[..i], numArray[i]);
        assert numArray[..i + 1] == numArray[..i] + [numArray[i]];
      }
    }

    /** Sends numArray[0..nValues) in index order, each by assigning it to the union's uint16 member and sending the member's 2 bytes. */
    method WriteUint16Array(numArray: array<uint16>, nValues: nat)
      requires Valid() && nValues <= numArray.Length
      modifies this, typeBuffer
      ensures out == old(out) + EncodeAll(U16, numArray[..nValues])
      ensures inp == old(inp)
      ensures typeBuffer[..2] ==
        if nValues == 0 then old(typeBuffer[..2]) else Encode(U16, numArray[nValues - 1])
      ensures typeBuffer[2..] == old(typeBuffer[2..])
    {
      for i := 0 to nValues
        invariant out == old(out) + EncodeAll(U16, numArray[..i])
        invariant inp == old(inp)
        invariant typeBuffer[..2] == if i == 0 then old(typeBuffer[..2]) else Encode(U16, numArray[i - 1])
        invariant typeBuffer[2..] == old(typeBuffer[2..])
      {
        SetMember(U16, numArray[i]);
        SendTypeBuffer(2);
        EncodeAllSnoc(U16, numArray[..i], numArray[i]);
        assert numArray[..i + 1] == numArray[..i] + [numArray[i]];
      }
    }

    /** Sends numArray[0..nValues) in index order, each exactly as WriteInt16 does. */
    method WriteInt16Array(numArray: array<int16>, nValues: nat)
      requires Valid() && nValues <= numArray.Length
      modifies this, typeBuffer
      ensures out == old(out) + EncodeAll(I16, numArray[..nValues])
      ensures inp == old(inp)
      ensures typeBuffer[..2] ==
        if nValues == 0 then old(typeBuffer[..2]) else Encode(I16, numArray[nValues - 1])
      ensures typeBuffer[2..] == old(typeBuffer[2..])
    {
      for i := 0 to nValues
        invariant out == old(out) + EncodeAll(I16, numArray[..i])
        invariant inp == old(inp)
        invariant typeBuffer[..2] == if i == 0 then old(typeBuffer[..2]) else Encode(I16, numArray[i - 1])
        invariant typeBuffer[2..] == old(typeBuffer[2..])
      {
        WriteInt16(numArray[i]);
        EncodeAllSnoc(I16, numArray[..i], numArray[i]);
        assert numArray[..i + 1] == numArray[..i] + [numArray[i]];
      }
    }

    /** Sends numArray[0..nValues) in index order, each by assigning it to the union's uint32 member and sending the member's 4 bytes. */
    method WriteUint32Array(numArray: array<uint32>, nValues: nat)
      requires Valid() && nValues <= numArray.Length
      modifies this, typeBuffer
      ensures out == old(out) + EncodeAll(U32, numArray[..nValues])
      ensures inp == old(inp)
      ensures typeBuffer[..4] ==
        if nValues == 0 then old(typeBuffer[..4]) else Encode(U32, numArray[nValues - 1])
      ensures typeBuffer[4..] == old(typeBuffer[4..])
    {
      for i := 0 to nValues
        invariant out == old(out) + EncodeAll(U32, numArray[..i])
        invariant inp == old(inp)
        invariant typeBuffer[..4] == if i == 0 then old(typeBuffer[..4]) else Encode(U32, numArray[i - 1])
        invariant typeBuffer[4..] == old(typeBuffer[4..])
      {
        SetMember(U32, numArray[i]);
        SendTypeBuffer(4);
        EncodeAllSnoc(U32, numArray[..i], numArray[i]);
        assert numArray[..i + 1] == numArray[..i] + [numArray[i]];
      }
    }

    /** Sends numArray[0..nValues) in index order, each exactly as WriteInt32 does. */
    method WriteInt32Array(numArray: array<int32>, nValues: nat)
      requires Valid() && nValues <= numArray.Length
      modifies this, typeBuffer
      ensures out == old(out) + EncodeAll(I32, numArray[..nValues])
      ensures inp == old(inp)
      ensures typeBuffer[..4] ==
        if nValues == 0 then old(typeBuffer[..4]) else Encode(I32, numArray[nValues - 1])
      ensures typeBuffer[4..] == old(typeBuffer[4..])
    {
      for i := 0 to nValues
        invariant out == old(out) + EncodeAll(I32, numArray[..i])
        invariant inp == old(inp)
        invariant typeBuffer[..4] == if i == 0 then old(typeBuffer[..4]) else Encode(I32, numArray[i - 1])
        invariant typeBuffer[4..] == old(typeBuffer[4..])
      {
        WriteInt32(numArray[i]);
        EncodeAllSnoc(I32, numArray[..i], numArray[i]);
        assert numArray[..i + 1] == numArray[..i] + [numArray[i]];
      }
    }

    // -------------------------------------------------------------------------
    // Array reads
    // -------------------------------------------------------------------------

    /** Stores the next nValues bytes, as they are, into numArray[0..nValues), in index order. */
    method ReadByteArray(numArray: array<uint8>, nValues: nat)
      requires nValues <= numArray.Length && |inp| >= nValues
      modifies this, numArray
      ensures numArray[..nValues] == old(inp)[..nValues]
      ensures numArray[nValues..] == old(numArray[nValues..])
      ensures inp == old(inp)[nValues..] && out == old(out)
    {
      for i := 0 to nValues
        invariant inp == old(inp)[i..] && out == old(out)
        invariant forall k :: 0 <= k < i ==> numArray[k] == old(inp)[k]
        invariant numArray[nValues..] == old(numArray[nValues..])
      {
        numArray[i] := ReadByte();
      }
      assert numArray[..nValues] == old(inp)[..nValues];
    }

    /** Stores the next nValues bytes, as unsigned 8-bit values, into numArray[0..nValues), in index order. */
    method ReadUint8Array(numArray: array<uint8>, nValues: nat)
      requires nValues <= numArray.Length && |inp| >= nValues
      modifies this, numArray
      ensures numArray[..nValues] == DecodeAll(U8, old(inp)[..nValues])
      ensures numArray[nValues..] == old(numArray[nValues..])
      ensures inp == old(inp)[nValues..] && out == old(out)
    {
      ghost var values := DecodeAll(U8, old(inp)[..nValues]);
      DecodeAllEach(U8, old(inp), nValues);
      for i := 0 to nValues
        invariant inp == old(inp)[i..] && out == old(out)
        invariant forall k :: 0 <= k < i ==> numArray[k] == values[k]
        invariant numArray[nValues..] == old(numArray[nValues..])
      {
        SliceAt(old(inp), i, 1);
        numArray[i] := ReadUint8();
      }
      assert numArray[..nValues] == values;
    }

    /** Reads nValues elements in index order, each exactly as ReadInt8 does,
        storing element i into numArray[i]. */
    method ReadInt8Array(numArray: array<int8>, nValues: nat)
      requires Valid() && nValues <= numArray.Length && |inp| >= nValues
      modifies this, typeBuffer, numArray
      ensures numArray[..nValues] == DecodeAll(I8, old(inp)[..nValues])
      ensures numArray[nValues..] == old(numArray[nValues..])
      ensures inp == old(inp)[nValues..] && out == old(out)
      ensures typeBuffer[..] ==
        if nValues == 0 then old(typeBuffer[..])
        else old(inp)[nValues - 1 .. nValues] + old(typeBuffer[1..])
    {
      ghost var values := DecodeAll(I8, old(inp)[..nValues]);
      DecodeAllEach(I8, old(inp), nValues);
      for i := 0 to nValues
        invariant inp == old(inp)[i..] && out == old(out)
        invariant forall k :: 0 <= k < i ==> numArray[k] == values[k]
        invariant numArray[nValues..] == old(numArray[nValues..])
        invariant typeBuffer[..] ==
          if i == 0 then old(typeBuffer[..]) else old(inp)[i - 1 .. i] + old(typeBuffer[1..])
      {
        SliceAt(old(inp), i, 1);
        numArray[i] := ReadInt8();
      }
      assert numArray[..nValues] == values;
    }

    /** Reads nValues elements in index order, each exactly as ReadUint16 does,
        storing element i into numArray[i]. */
    method ReadUint16Array(numArray: array<uint16>, nValues: nat)
      requires Valid() && nValues <= numArray.Length && |inp| >= 2 * nValues
      modifies this, typeBuffer, numArray
      ensures numArray[..nValues] == DecodeAll(U16, old(inp)[..2 * nValues])
      ensures numArray[nValues..] == old(numArray[nValues..])
      ensures inp == old(inp)[2 * nValues..] && out == old(out)
      ensures typeBuffer[..] ==
        if nValues == 0 then old(typeBuffer[..])
        else old(inp)[2 * nValues - 2 .. 2 * nValues] + old(typeBuffer[2..])
    {
      ghost var values := DecodeAll(U16, old(inp)[..2 * nValues]);
      DecodeAllEach(U16, old(inp), nValues);
      for i := 0 to nValues
        invariant inp == old(inp)[2 * i..] && out == old(out)
        invariant forall k :: 0 <= k < i ==> numArray[k] == values[k]
        invariant numArray[nValues..] == old(numArray[nValues..])
        invariant typeBuffer[..] ==
          if i == 0 then old(typeBuffer[..]) else old(inp)[2 * i - 2 .. 2 * i] + old(typeBuffer[2..])
      {
        SliceAt(old(inp), 2 * i, 2);
        numArray[i] := ReadUint16();
      }
      assert numArray[..nValues] == values;
    }

    /** Reads nValues elements in index order, each exactly as ReadInt16 does,
        storing element i into numArray[i]. */
    method ReadInt16Array(numArray: array<int16>, nValues: nat)
      requires Valid() && nValues <= numArray.Length && |inp| >= 2 * nValues
      modifies this, typeBuffer, numArray
      ensures numArray[..nValues] == DecodeAll(I16, old(inp)[..2 * nValues])
      ensures numArray[nValues..] == old(numArray[nValues..])
      ensures inp == old(inp)[2 * nValues..] && out == old(out)
      ensures typeBuffer[..] ==
        if nValues == 0 then old(typeBuffer[..])
        else old(inp)[2 * nValues - 2 .. 2 * nValues] + old(typeBuffer[2..])
    {
      ghost var values := DecodeAll(I16, old(inp)[..2 * nValues]);
      DecodeAllEach(I16, old(inp), nValues);
      for i := 0 to nValues
        invariant inp == old(inp)[2 * i..] && out == old(out)
        invariant forall k :: 0 <= k < i ==> numArray[k] == values[k]
        invariant numArray[nValues..] == old(numArray[nValues..])
        invariant typeBuffer[..] ==
          if i == 0 then old(typeBuffer[..]) else old(inp)[2 * i - 2 .. 2 * i] + old(typeBuffer[2..])
      {
        SliceAt(old(inp), 2 * i, 2);
        numArray[i] := ReadInt16();
      }
      assert numArray[..nValues] == values;
    }

    /** Reads nValues elements in index order, each exactly as ReadUint32 does,
        storing element i into numArray[i]. */
    method ReadUint32Array(numArray: array<uint32>, nValues: nat)
      requires Valid() && nValues <= numArray.Length && |inp| >= 4 * nValues
      modifies this, typeBuffer, numArray
      ensures numArray[..nValues] == DecodeAll(U32, old(inp)[..4 * nValues])
      ensures numArray[nValues..] == old(numArray[nValues..])
      ensures inp == old(inp)[4 * nValues..] && out == old(out)
      ensures typeBuffer[..] ==
        if nValues == 0 then old(typeBuffer[..])
        else old(inp)[4 * nValues - 4 .. 4 * nValues] + old(typeBuffer[4..])
    {
      ghost var values := DecodeAll(U32, old(inp)[..4 * nValues]);
      DecodeAllEach(U32, old(inp), nValues);
      for i := 0 to nValues
        invariant inp == old(inp)[4 * i..] && out == old(out)
        invariant forall k :: 0 <= k < i ==> numArray[k] == values[k]
        invariant numArray[nValues..] == old(numArray[nValues..])
        invariant typeBuffer[..] ==
          if i == 0 then old(typeBuffer[..]) else old(inp)[4 * i - 4 .. 4 * i] + old(typeBuffer[4..])
      {
        SliceAt(old(inp), 4 * i, 4);
        numArray[i] := ReadUint32();
      }
      assert numArray[..nValues] == values;
    }

    /** Reads nValues elements in index order, each exactly as ReadInt32 does,
        storing element i into numArray[i]. */
    method ReadInt32Array(numArray: array<int32>, nValues: nat)
      requires Valid() && nValues <= numArray.Length && |inp| >= 4 * nValues
      modifies this, typeBuffer, numArray
      ensures numArray[..nValues] == DecodeAll(I32, old(inp)[..4 * nValues])
      ensures numArray[nValues..] == old(numArray[nValues..])
      ensures inp == old(inp)[4 * nValues..] && out == old(out)
      ensures typeBuffer[..] ==
        if nValues == 0 then old(typeBuffer[..])
        else old(inp)[4 * nValues - 4 .. 4 * nValues] + old(typeBuffer[4..])
    {
      ghost var values := DecodeAll(I32, old(inp)[..4 * nValues]);
      DecodeAllEach(I32, old(inp), nValues);
      for i := 0 to nValues
        invariant inp == old(inp)[4 * i..] && out == old(out)
        invariant forall k :: 0 <= k < i ==> numArray[k] == values[k]
        invariant numArray[nValues..] == old(numArray[nValues..])
        invariant typeBuffer[..] ==
          if i == 0 then old(typeBuffer[..]) else old(inp)[4 * i - 4 .. 4 * i] + old(typeBuffer[4..])
      {
        SliceAt(old(inp), 4 * i, 4);
        numArray[i] := ReadInt32();
      }
      assert numArray[..nValues] == values;
    }
  }
}
