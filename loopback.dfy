/**
 * Both ends of an ArCOM link.  The bytes one ArCOM object writes are what a
 * second one, on the other side of the cable, receives; these methods prove that
 * a value survives the trip when both ends call the matching pair of operations
 * (writeUint16 on one side, readUint16 on the other, and so on), and that a
 * message built from several calls is read back field by field.
 */
module Loopback {
  import opened Wire
  import opened Arduino

  /** A uint8 written with WriteByte is read back unchanged with ReadByte. */
  method ByteRoundTrip(v: uint8) returns (r: uint8)
    ensures r == v
  {
    var device := new ArCOM([]);
    device.WriteByte(v);
    assert device.out == Encode(U8, v);
    assert device.out[..1] == device.out;
    var host := new ArCOM(device.out);
    r := host.ReadByte();
  }

  /** A uint8 written with WriteUint8 is read back unchanged with ReadUint8. */
  method Uint8RoundTrip(v: uint8) returns (r: uint8)
    ensures r == v
  {
    var device := new ArCOM([]);
    device.WriteUint8(v);
    assert device.out == Encode(U8, v);
    assert device.out[..1] == device.out;
    var host := new ArCOM(device.out);
    r := host.ReadUint8();
    DecodeEncode(U8, v);
  }

  /** A uint16 written with WriteUint16 is read back unchanged with ReadUint16. */
  method Uint16RoundTrip(v: uint16) returns (r: uint16)
    ensures r == v
  {
    var device := new ArCOM([]);
    device.WriteUint16(v);
    assert device.out == Encode(U16, v);
    assert device.out[..2] == device.out;
    var host := new ArCOM(device.out);
    r := host.ReadUint16();
    DecodeEncode(U16, v);
  }

  /** A uint32 written with WriteUint32 is read back unchanged with ReadUint32. */
  method Uint32RoundTrip(v: uint32) returns (r: uint32)
    ensures r == v
  {
    var device := new ArCOM([]);
    device.WriteUint32(v);
    assert device.out == Encode(U32, v);
    assert device.out[..4] == device.out;
    var host := new ArCOM(device.out);
    r := host.ReadUint32();
    DecodeEncode(U32, v);
  }

  /** An int8 written with WriteInt8 is read back unchanged with ReadInt8. */
  method Int8RoundTrip(v: int8) returns (r: int8)
    ensures r == v
  {
    var device := new ArCOM([]);
    device.WriteInt8(v);
    assert device.out == Encode(I8, v);
    assert device.out[..1] == device.out;
    var host := new ArCOM(device.out);
    r := host.ReadInt8();
    DecodeEncode(I8, v);
  }

  /** An int16 written with WriteInt16 is read back unchanged with ReadInt16. */
  method Int16RoundTrip(v: int16) returns (r: int16)
    ensures r == v
  {
    var device := new ArCOM([]);
    device.WriteInt16(v);
    assert device.out == Encode(I16, v);
    assert device.out[..2] == device.out;
    var host := new ArCOM(device.out);
    r := host.ReadInt16();
    DecodeEncode(I16, v);
  }

  /** An int32 written with WriteInt32 is read back unchanged with ReadInt32. */
  method Int32RoundTrip(v: int32) returns (r: int32)
    ensures r == v
  {
    var device := new ArCOM([]);
    device.WriteInt32(v);
    assert device.out == Encode(I32, v);
    assert device.out[..4] == device.out;
    var host := new ArCOM(device.out);
    r := host.ReadInt32();
    DecodeEncode(I32, v);
  }

  /** An array of uint8 written with WriteByteArray is read back unchanged, in order,
      with ReadByteArray. */
  method ByteArrayRoundTrip(values: seq<uint8>) returns (received: seq<uint8>)
    ensures received == values
  {
    var a := new uint8[|values|](i requires 0 <= i < |values| => values[i]);
    assert a[..|values|] == values;
    var device := new ArCOM([]);
    device.WriteByteArray(a, |values|);
    var sent := device.out;
    assert sent == values;
    assert |sent| == |values|;
    var host := new ArCOM(sent);
    var b := new uint8[|values|];
    host.ReadByteArray(b, |values|);
    assert sent[..|values|] == sent;
    assert b[..|values|] == sent;
    assert b[..] == b[..|values|];
    received := b[..];
  }

  /** An array of uint8 written with WriteUint8Array is read back unchanged, in order,
      with ReadUint8Array. */
  method Uint8ArrayRoundTrip(values: seq<uint8>) returns (received: seq<uint8>)
    ensures received == values
  {
    var a := new uint8[|values|](i requires 0 <= i < |values| => values[i]);
    assert a[..|values|] == values;
    var device := new ArCOM([]);
    device.WriteUint8Array(a, |values|);
    var sent := device.out;
    assert sent == EncodeAll(U8, values);
    assert |sent| == |values|;
    var host := new ArCOM(sent);
    var b := new uint8[|values|];
    host.ReadUint8Array(b, |values|);
    assert sent[..|values|] == sent;
    assert b[..|values|] == DecodeAll(U8, sent);
    assert b[..] == b[..|values|];
    received := b[..];
    Uint8IsByte(values);
    assert DecodeAll(U8, sent) == values;
  }

  /** An array of uint16 written with WriteUint16Array is read back unchanged, in order,
      with ReadUint16Array. */
  method Uint16ArrayRoundTrip(values: seq<uint16>) returns (received: seq<uint16>)
    ensures received == values
  {
    var a := new uint16[|values|](i requires 0 <= i < |values| => values[i]);
    assert a[..|values|] == values;
    var device := new ArCOM([]);
    device.WriteUint16Array(a, |values|);
    var sent := device.out;
    assert sent == EncodeAll(U16, values);
    assert |sent| == 2 * |values|;
    var host := new ArCOM(sent);
    var b := new uint16[|values|];
    host.ReadUint16Array(b, |values|);
    assert sent[..2 * |values|] == sent;
    assert b[..|values|] == DecodeAll(U16, sent);
    assert b[..] == b[..|values|];
    received := b[..];
    DecodeEncodeAll(U16, values);
    assert DecodeAll(U16, sent) == values;
  }

  /** An array of uint32 written with WriteUint32Array is read back unchanged, in order,
      with ReadUint32Array. */
  method Uint32ArrayRoundTrip(values: seq<uint32>) returns (received: seq<uint32>)
    ensures received == values
  {
    var a := new uint32[|values|](i requires 0 <= i < |values| => values[i]);
    assert a[..|values|] == values;
    var device := new ArCOM([]);
    device.WriteUint32Array(a, |values|);
    var sent := device.out;
    assert sent == EncodeAll(U32, values);
    assert |sent| == 4 * |values|;
    var host := new ArCOM(sent);
    var b := new uint32[|values|];
    host.ReadUint32Array(b, |values|);
    assert sent[..4 * |values|] == sent;
    assert b[..|values|] == DecodeAll(U32, sent);
    assert b[..] == b[..|values|];
    received := b[..];
    DecodeEncodeAll(U32, values);
    assert DecodeAll(U32, sent) == values;
  }

  /** An array of int8 written with WriteInt8Array is read back unchanged, in order,
      with ReadInt8Array. */
  method Int8ArrayRoundTrip(values: seq<int8>) returns (received: seq<int8>)
    ensures received == values
  {
    var a := new int8[|values|](i requires 0 <= i < |values| => values[i]);
    assert a[..|values|] == values;
    var device := new ArCOM([]);
    device.WriteInt8Array(a, |values|);
    var sent := device.out;
    assert sent == EncodeAll(I8, values);
    assert |sent| == |values|;
    var host := new ArCOM(sent);
    var b := new int8[|values|];
    host.ReadInt8Array(b, |values|);
    assert sent[..|values|] == sent;
    assert b[..|values|] == DecodeAll(I8, sent);
    assert b[..] == b[..|values|];
    received := b[..];
    DecodeEncodeAll(I8, values);
    assert DecodeAll(I8, sent) == values;
  }

  /** An array of int16 written with WriteInt16Array is read back unchanged, in order,
      with ReadInt16Array. */
  method Int16ArrayRoundTrip(values: seq<int16>) returns (received: seq<int16>)
    ensures received == values
  {
    var a := new int16[|values|](i requires 0 <= i < |values| => values[i]);
    assert a[..|values|] == values;
    var device := new ArCOM([]);
    device.WriteInt16Array(a, |values|);
    var sent := device.out;
    assert sent == EncodeAll(I16, values);
    assert |sent| == 2 * |values|;
    var host := new ArCOM(sent);
    var b := new int16[|values|];
    host.ReadInt16Array(b, |values|);
    assert sent[..2 * |values|] == sent;
    assert b[..|values|] == DecodeAll(I16, sent);
    assert b[..] == b[..|values|];
    received := b[..];
    DecodeEncodeAll(I16, values);
    assert DecodeAll(I16, sent) == values;
  }

  /** An array of int32 written with WriteInt32Array is read back unchanged, in order,
      with ReadInt32Array. */
  method Int32ArrayRoundTrip(values: seq<int32>) returns (received: seq<int32>)
    ensures received == values
  {
    var a := new int32[|values|](i requires 0 <= i < |values| => values[i]);
    assert a[..|values|] == values;
    var device := new ArCOM([]);
    device.WriteInt32Array(a, |values|);
    var sent := device.out;
    assert sent == EncodeAll(I32, values);
    assert |sent| == 4 * |values|;
    var host := new ArCOM(sent);
    var b := new int32[|values|];
    host.ReadInt32Array(b, |values|);
    assert sent[..4 * |values|] == sent;
    assert b[..|values|] == DecodeAll(I32, sent);
    assert b[..] == b[..|values|];
    received := b[..];
    DecodeEncodeAll(I32, values);
    assert DecodeAll(I32, sent) == values;
  }

  /** A message of a one-byte code, a 16-bit count and a signed 32-bit value,
      written field by field, is read back field by field: each read takes
      exactly the bytes of its own field. */
  method MessageRoundTrip(code: uint8, count: uint16, x: int32)
    returns (c: uint8, n: uint16, y: int32)
    ensures c == code && n == count && y == x
  {
    var device := new ArCOM([]);
    device.WriteUint8(code);
    device.WriteUint16(count);
    device.WriteInt32(x);
    ghost var e1, e2, e3 := Encode(U8, code), Encode(U16, count), Encode(I32, x);
    assert device.out == e1 + e2 + e3;
    var host := new ArCOM(device.out);
    assert host.inp[..1] == e1 && host.inp[1..] == e2 + e3;
    c := host.ReadUint8();
    assert host.inp[..2] == e2 && host.inp[2..] == e3;
    n := host.ReadUint16();
    assert host.inp[..4] == e3;
    y := host.ReadInt32();
    DecodeEncode(U8, code);
    DecodeEncode(U16, count);
    DecodeEncode(I32, x);
  }
}
