# ArCOM codec in Dafny

ArCOM is the small serial-communication adapter that Sanworks firmware uses to
exchange typed numbers with a host over the Arduino `SerialUSB` port. The
firmware side (`Arduino/ArCOM.cpp`) writes and reads the six fixed-width integer
types: unsigned and signed, 8, 16 and 32 bits. It handles them one at a time or
as arrays. A value travels as exactly as many bytes as its type is wide,
least-significant byte first, with no tag, length or padding. Signed values
travel as their two's-complement bit pattern. An array travels as its first
`nValues` elements, one after another in index order.

The project has three modules:

- `Wire` (`wire.dfy`) is the wire format as pure functions.
  - `EncodeLE`/`DecodeLE` map numbers to and from little-endian byte strings.
  - `ToTwos`/`FromTwos` map signed values to and from their bit patterns.
  - `Encode`/`Decode` handle one value of a `Kind` (`U8` … `I32`).
  - `EncodeAll`/`DecodeAll` handle a sequence of values.
  - Lemmas prove the round trips both ways, byte positions, lengths and concrete byte layouts.
- `Arduino` (`arcom.dfy`) is the class `ArCOM` with one method per operation of the original.
  - The port is two fields: `out` holds every byte written, in order. `inp` holds the bytes received and not yet read.
  - The `typeBuffer` union is the field `typeBuffer`, its four-byte view, as an `array<uint8>`.
  - Assigning to a member of the union is `SetMember`: it writes the member's little-endian bit pattern into the first W bytes. Reading a member is `Member`: it decodes those bytes back.
  - Unsigned scalar writes cut the value up with shifts, as the original does. Signed writes go through the union. Multi-byte and signed reads collect bytes into the union and read a member back. The Byte and Uint8 reads take the byte from the port directly, as the original does.
  - Array methods loop over `numArray[0..nValues)`. Where the loop body of the original is the body of a scalar method (every array method except the unsigned 16- and 32-bit writes, whose loops store through the union while the scalar writes shift), the loop calls that method.
  - Each method states its whole new state: the bytes appended to `out` or consumed from `inp`, the value returned or stored in `numArray`, and the new contents of `typeBuffer`.
- `Loopback` (`loopback.dfy`) connects two `ArCOM` objects. The bytes one writes are the input of the other.
  - Each matching write/read pair gives back the value or array it was given, for every value of the type.
  - So does a message of several fields.

## Model

| member | source | states |
|---|---|---|
| Wire.EncodeLE | Arduino/ArCOM.cpp:30-40 | the n-byte little-endian encoding of a number below 256^n is exactly n bytes |
| Wire.DecodeLE | Arduino/ArCOM.cpp:49-67 | n bytes read least-significant first give a number below 256^n |
| Wire.DecodeEncodeLE | Arduino/ArCOM.cpp:30-40 | decoding the n-byte little-endian encoding of any v < 256^n gives v |
| Wire.EncodeDecodeLE | Arduino/ArCOM.cpp:49-67 | every byte string is the little-endian encoding of the number it decodes to |
| Wire.EncodeLE2 | Arduino/ArCOM.cpp:30-33 | the two wire bytes of a 16-bit value are `(byte)v` then `(byte)(v >> 8)` |
| Wire.EncodeLE4 | Arduino/ArCOM.cpp:35-40 | the four wire bytes of a 32-bit value are bits 0-7, 8-15, 16-23, 24-31, in that order |
| Wire.DecodeLE2 | Arduino/ArCOM.cpp:49-55 | two bytes read as b0 + 256·b1 |
| Wire.DecodeLE4 | Arduino/ArCOM.cpp:57-67 | four bytes read as b0 + 256·b1 + 65536·b2 + 16777216·b3 |
| Wire.ToTwos | Arduino/ArCOM.cpp:69-86 | the two's-complement bit pattern of a signed value that fits in n bytes is an n-byte unsigned number |
| Wire.FromTwos | Arduino/ArCOM.cpp:88-110 | reading any n-byte pattern as a signed number gives a value that fits in n bytes |
| Wire.FromToTwos | Arduino/ArCOM.cpp:69-110 | reading back a signed value's bit pattern as signed gives the value |
| Wire.ToFromTwos | Arduino/ArCOM.cpp:69-110 | every bit pattern is the pattern of the signed value it reads as |
| Wire.Kind.Width | Arduino/ArCOM.cpp:30-110 | every type takes between one and four bytes on the wire |
| Wire.Kind.Modulus | Arduino/ArCOM.cpp:69-110 | a type has 256^W distinct bit patterns, W its width |
| Wire.InRangeIsCRange | Arduino/ArCOM.cpp:27-110 | the range of each kind is exactly that of the C type it stands for: 0..255, 0..65535, 0..4294967295, -128..127, -32768..32767, -2147483648..2147483647 |
| Wire.Pattern | Arduino/ArCOM.cpp:69-86 | the in-memory bit pattern of a value of type t fits in t's width |
| Wire.FromPattern | Arduino/ArCOM.cpp:88-110 | the value a bit pattern stands for lies in the range of the C type |
| Wire.Encode | Arduino/ArCOM.cpp:24-86 | a value of type t takes exactly t's width in bytes (1, 2 or 4) on the wire |
| Wire.Decode | Arduino/ArCOM.cpp:41-110 | any W bytes read as a value within the range of type t |
| Wire.DecodeEncode | Arduino/ArCOM.cpp:30-110 | scalar round trip: decoding the wire bytes of any value of any of the six types gives that value, including 0, -1, the minimum and the maximum; so distinct values have distinct encodings |
| Wire.EncodeDecode | Arduino/ArCOM.cpp:30-110 | every W-byte string is the encoding of the value it decodes to, so distinct byte strings decode to distinct values and every byte string stands for some value |
| Wire.UnsignedByteOrder | Arduino/ArCOM.cpp:30-40 | 0x1234 goes as 34 12, 0xAABBCCDD as DD CC BB AA, 0xFFFF as FF FF, 0 as 00 00 00 00 |
| Wire.SignedReinterpretation | Arduino/ArCOM.cpp:41-110 | -1 goes as all-ones bytes at each width, the 32-bit minimum as 00 00 00 80; byte FF reads as -1 signed and 255 unsigned |
| Wire.EncodeAll | Arduino/ArCOM.cpp:111-158 | n values of width W take exactly n·W bytes on the wire |
| Wire.DecodeAll | Arduino/ArCOM.cpp:159-221 | every value read from bytes lies in the range of the element type |
| Wire.EncodeAllSnoc | Arduino/ArCOM.cpp:111-158 | sending one more element appends exactly its encoding after the earlier ones |
| Wire.EncodeAllAt | Arduino/ArCOM.cpp:111-158 | bytes i·W .. i·W+W-1 of an encoded array are the encoding of element i |
| Wire.DecodeAllAt | Arduino/ArCOM.cpp:159-221 | value i read from a byte string is the decoding of bytes i·W .. i·W+W-1 |
| Wire.DecodeAllEach | Arduino/ArCOM.cpp:159-221 | the first n·W bytes decode to exactly n values, value k from bytes k·W .. k·W+W-1 |
| Wire.DecodeAllLength | Arduino/ArCOM.cpp:159-221 | n·W bytes decode to exactly n values |
| Wire.DecodeEncodeAll | Arduino/ArCOM.cpp:111-221 | array round trip: decoding the encoding of any sequence of values of a type gives the sequence back |
| Wire.EncodeDecodeAll | Arduino/ArCOM.cpp:159-221 | the values read from bytes re-encode to a prefix of those bytes that leaves less than one element unread |
| Wire.Uint8IsByte | Arduino/ArCOM.cpp:24-29 | unsigned 8-bit values are their own wire bytes, so the Byte and Uint8 operations agree, singly and on arrays |
| Wire.ArrayOrderExample | Arduino/ArCOM.cpp:127-133 | [0x1234, 0xABCD] goes as 34 12 CD AB; FF FF 00 80 reads as the 16-bit signed values [-1, -32768] |
| Arduino.ArCOM.SerialWrite | Arduino/ArCOM.cpp:25 | writing one byte appends it to the output and consumes nothing |
| Arduino.ArCOM.SerialRead | Arduino/ArCOM.cpp:42-43 | reading one byte takes the oldest unread byte and writes nothing |
| Arduino.ArCOM.Member | Arduino/ArCOM.cpp:49-110 | reading member t of the union gives a value in t's range whose encoding is exactly the union's first W bytes |
| Arduino.ArCOM.SetMember | Arduino/ArCOM.cpp:70 | assigning v to a member of the union puts its little-endian bit pattern in the first W bytes and leaves the others unchanged (a target assumption, see Left out) |
| Arduino.ArCOM.SendTypeBuffer | Arduino/ArCOM.cpp:82-85 | writing the union's bytes 0 .. n-1 appends exactly those bytes, in order |
| Arduino.ArCOM.WriteByte | Arduino/ArCOM.cpp:24-26 | appends the byte as it is |
| Arduino.ArCOM.WriteUint8 | Arduino/ArCOM.cpp:27-29 | appends the value's one wire byte |
| Arduino.ArCOM.WriteUint16 | Arduino/ArCOM.cpp:30-33 | appends exactly the two bytes v mod 256 and v div 256, which are the value's wire bytes; consumes nothing |
| Arduino.ArCOM.WriteUint32 | Arduino/ArCOM.cpp:35-40 | appends exactly the value's four bytes, least significant first; consumes nothing |
| Arduino.ArCOM.ReadByte | Arduino/ArCOM.cpp:41-44 | returns the next input byte and consumes exactly it |
| Arduino.ArCOM.ReadUint8 | Arduino/ArCOM.cpp:45-48 | returns the next input byte read as unsigned and consumes exactly it |
| Arduino.ArCOM.ReadUint16 | Arduino/ArCOM.cpp:49-55 | consumes exactly two bytes and returns b0 + 256·b1; output unchanged; the union holds the two bytes |
| Arduino.ArCOM.ReadUint32 | Arduino/ArCOM.cpp:57-67 | consumes exactly four bytes and returns b0 + 256·b1 + 65536·b2 + 16777216·b3; output unchanged; the union holds the bytes |
| Arduino.ArCOM.WriteInt8 | Arduino/ArCOM.cpp:69-72 | appends the one-byte two's-complement pattern of v and leaves it in the union |
| Arduino.ArCOM.WriteInt16 | Arduino/ArCOM.cpp:74-78 | appends the two-byte two's-complement pattern of v, low byte first, and leaves it in the union |
| Arduino.ArCOM.WriteInt32 | Arduino/ArCOM.cpp:80-86 | appends the four-byte two's-complement pattern of v, low byte first, and leaves it in the union |
| Arduino.ArCOM.ReadInt8 | Arduino/ArCOM.cpp:88-92 | consumes exactly one byte and returns it read as two's complement |
| Arduino.ArCOM.ReadInt16 | Arduino/ArCOM.cpp:93-99 | consumes exactly two bytes and returns them read as a little-endian two's-complement value |
| Arduino.ArCOM.ReadInt32 | Arduino/ArCOM.cpp:100-110 | consumes exactly four bytes and returns them read as a little-endian two's-complement value |
| Arduino.ArCOM.WriteByteArray | Arduino/ArCOM.cpp:111-115 | appends numArray[0..nValues) as they are, in index order; nValues = 0 appends nothing |
| Arduino.ArCOM.WriteUint8Array | Arduino/ArCOM.cpp:116-120 | appends the encodings of numArray[0..nValues), in index order |
| Arduino.ArCOM.WriteInt8Array | Arduino/ArCOM.cpp:121-126 | appends the encodings of numArray[0..nValues), in index order; the union holds the last element |
| Arduino.ArCOM.WriteUint16Array | Arduino/ArCOM.cpp:127-133 | appends the encodings of numArray[0..nValues), 2·nValues bytes in index order; the union holds the last element |
| Arduino.ArCOM.WriteInt16Array | Arduino/ArCOM.cpp:134-140 | appends the encodings of numArray[0..nValues), in index order; the union holds the last element |
| Arduino.ArCOM.WriteUint32Array | Arduino/ArCOM.cpp:141-149 | appends the encodings of numArray[0..nValues), 4·nValues bytes in index order; the union holds the last element |
| Arduino.ArCOM.WriteInt32Array | Arduino/ArCOM.cpp:150-158 | appends the encodings of numArray[0..nValues), in index order; the union holds the last element |
| Arduino.ArCOM.ReadByteArray | Arduino/ArCOM.cpp:159-164 | stores the next nValues bytes in numArray[0..nValues) and consumes exactly them; later elements unchanged |
| Arduino.ArCOM.ReadUint8Array | Arduino/ArCOM.cpp:165-170 | numArray[0..nValues) becomes the decoding of the next nValues bytes; later elements and output unchanged |
| Arduino.ArCOM.ReadInt8Array | Arduino/ArCOM.cpp:171-177 | numArray[i] becomes byte i read as two's complement; exactly nValues bytes consumed; later elements unchanged |
| Arduino.ArCOM.ReadUint16Array | Arduino/ArCOM.cpp:178-186 | numArray[0..nValues) becomes the decoding of the next 2·nValues bytes; exactly those consumed; later elements unchanged; the union holds the last chunk |
| Arduino.ArCOM.ReadInt16Array | Arduino/ArCOM.cpp:187-195 | numArray[0..nValues) becomes the decoding of the next 2·nValues bytes; exactly those consumed; later elements unchanged; the union holds the last chunk |
| Arduino.ArCOM.ReadUint32Array | Arduino/ArCOM.cpp:196-208 | numArray[0..nValues) becomes the decoding of the next 4·nValues bytes; exactly those consumed; later elements unchanged; the union holds the last chunk |
| Arduino.ArCOM.ReadInt32Array | Arduino/ArCOM.cpp:209-221 | numArray[0..nValues) becomes the decoding of the next 4·nValues bytes; exactly those consumed; later elements unchanged; the union holds the last chunk |
| Loopback.ByteRoundTrip | Arduino/ArCOM.cpp:24-44 | a byte sent with writeByte is received unchanged by readByte |
| Loopback.Uint8RoundTrip | Arduino/ArCOM.cpp:27-48 | a uint8 sent with writeUint8 is received unchanged by readUint8 |
| Loopback.Uint16RoundTrip | Arduino/ArCOM.cpp:30-55 | every uint16 sent with writeUint16 is received unchanged by readUint16 |
| Loopback.Uint32RoundTrip | Arduino/ArCOM.cpp:35-67 | every uint32 sent with writeUint32 is received unchanged by readUint32 |
| Loopback.Int8RoundTrip | Arduino/ArCOM.cpp:69-92 | every int8 sent with writeInt8 is received unchanged by readInt8 |
| Loopback.Int16RoundTrip | Arduino/ArCOM.cpp:74-99 | every int16 sent with writeInt16 is received unchanged by readInt16 |
| Loopback.Int32RoundTrip | Arduino/ArCOM.cpp:80-110 | every int32 sent with writeInt32 is received unchanged by readInt32 |
| Loopback.ByteArrayRoundTrip | Arduino/ArCOM.cpp:111-164 | an array sent with writeByteArray is received unchanged, in order, by readByteArray |
| Loopback.Uint8ArrayRoundTrip | Arduino/ArCOM.cpp:116-170 | an array sent with writeUint8Array is received unchanged, in order, by readUint8Array |
| Loopback.Uint16ArrayRoundTrip | Arduino/ArCOM.cpp:127-186 | an array sent with writeUint16Array is received unchanged, in order, by readUint16Array |
| Loopback.Uint32ArrayRoundTrip | Arduino/ArCOM.cpp:141-208 | an array sent with writeUint32Array is received unchanged, in order, by readUint32Array |
| Loopback.Int8ArrayRoundTrip | Arduino/ArCOM.cpp:121-177 | an array sent with writeInt8Array is received unchanged, in order, by readInt8Array |
| Loopback.Int16ArrayRoundTrip | Arduino/ArCOM.cpp:134-195 | an array sent with writeInt16Array is received unchanged, in order, by readInt16Array |
| Loopback.Int32ArrayRoundTrip | Arduino/ArCOM.cpp:150-221 | an array sent with writeInt32Array is received unchanged, in order, by readInt32Array |
| Loopback.MessageRoundTrip | Arduino/ArCOM.cpp:27-110 | a uint8, a uint16 and an int32 written in turn are read back in turn, each read taking exactly its own field's bytes |

## Left out

- The `SerialUSB` transport is reduced to the two byte sequences. Baud rate, buffering, flushing and write failures are hardware I/O.
- The busy-wait `while (SerialUSB.available() == 0) {}` before each byte read is not modelled. Each read instead requires that all the bytes it will take have already arrived. On a silent peer the original blocks forever, and the model does not capture that.
- The memory layout of the `typeBuffer` union is not modelled. Its declaration in `Arduino/ArCOM.h` is not part of this model. The model assumes the ARM target: little-endian, two's-complement, `long` 32 bits wide. Under those assumptions byte k of every member is bits 8k..8k+7 of its pattern. The model also assumes that storing a narrower member keeps the union's other bytes as they were. The C standard leaves those bytes unspecified, and no wire byte depends on them.
- Calls with `nValues` larger than the array's real length are undefined behaviour in C. Every array method requires `nValues <= numArray.Length`.
- `nValues` is `unsigned int` in the original. The model takes it as an unbounded `nat`, and the `int i` loop counters of some array loops as unbounded too. Arrays longer than 2^31 elements, where the original's signed counter would overflow, are not modelled.
- Concurrent use of one `ArCOM` object, and so of its shared `typeBuffer`, is not modelled. The model is single-threaded.
- `Python2/ArCOM_example.py` is a host-side demonstration. It opens a port and calls a Python module that is not part of this model, so it has no logic to model.
- The `ArCOM` constructor and the header are not part of this model. The Dafny constructor only sets up an idle port with a given input.
