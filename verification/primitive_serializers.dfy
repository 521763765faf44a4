/** `VarLongSerializer`, `VarIntSerializer` and `ULongVarIntSerializer`.

Each serializer dispatches on the kind of encoder or decoder it is handed: a
JSON encoder gets the literal number, graphene's binary `IOEncoder` gets a
varint, and anything else reaches `TODO()`. Only JSON decoders are supported;
every other decoder reaches `TODO()`.

The varint readers `ReadVarLong`, `ReadVarInt` and `ReadULongVarInt` are an
ASSUMED EXTENSION: the source has no binary decoding at all. They exist to
state what the assumed LEB128 layout of the binary output makes recoverable.
 */
module PrimitiveSerializers {
  import opened Wrappers
  import opened KotlinInt
  import opened Leb128
  import opened Tokens

  /** `IOEncoder.encodeVarLong`, assumed: LEB128 of the `Long`'s 64-bit pattern. */
  function EncodeVarLong(v: int64): (bs: seq<byte>)
    ensures 1 <= |bs| <= 10
    ensures |bs| == 1 <==> 0 <= v < 128
    ensures v < 0 ==> |bs| == 10
  {
    var n := LongToULong(v);
    EncodeLength64(n);
    assert Pow128(9) == TWO_63;
    if v < 0 then EncodeLengthAtLeast(n, 9); Leb128.Encode(n) else Leb128.Encode(n)
  }

  /** `IOEncoder.encodeVarInt`, assumed: LEB128 of the `Int`'s 32-bit pattern. */
  function EncodeVarInt(v: int32): (bs: seq<byte>)
    ensures 1 <= |bs| <= 5
    ensures |bs| == 1 <==> 0 <= v < 128
    ensures v < 0 ==> |bs| == 5
  {
    var n := IntToUInt(v);
    assert Pow128(5) == 0x8_0000_0000;
    EncodeLength(n, 5);
    assert Pow128(4) == 0x1000_0000;
    if v < 0 then EncodeLengthAtLeast(n, 4); Leb128.Encode(n) else Leb128.Encode(n)
  }

  /** A JSON decoder's `decodeLong`/`decodeInt`/unsigned read: the number literal
      at the front of the stream, rejected when it lies outside `[lo, hi)`. */
  function ReadNum(ts: seq<Token>, lo: int, hi: int): (r: Result<(int, seq<Token>)>)
    ensures r.Ok? <==> |ts| > 0 && ts[0].Num? && lo <= ts[0].value < hi
    ensures r.Ok? ==> lo <= r.value.0 < hi && [Num(r.value.0)] + r.value.1 == ts
    ensures r.Err? ==> r.error == Malformed
  {
    if |ts| > 0 && ts[0].Num? && lo <= ts[0].value < hi then
      assert [ts[0]] + ts[1..] == ts;
      Ok((ts[0].value, ts[1..]))
    else Err(Malformed)
  }

  // ----- VarLongSerializer -----

  /** `VarLongSerializer.serialize`. */
  function SerializeVarLong(mode: Mode, value: int64): (r: Result<seq<Token>>)
    ensures r.Err? <==> mode == Other
    ensures r.Err? ==> r.error == NotImplemented
    ensures mode == Json ==> r.Ok? && DeserializeVarLong(Json, r.value) == Ok((value, []))
    ensures mode == IO ==> r.Ok? && 1 <= |r.value| <= 10 && r.value == Bytes(EncodeVarLong(value))
  {
    match mode
    case Json => Ok([Num(value)])
    case IO =>
      EncodeLength64(LongToULong(value));
      Ok(Bytes(EncodeVarLong(value)))
    case Other => Err(NotImplemented)
  }

  /** `VarLongSerializer.deserialize`. */
  function DeserializeVarLong(mode: Mode, ts: seq<Token>): (r: Result<(int64, seq<Token>)>)
    ensures mode != Json ==> r == Err(NotImplemented)
    ensures mode == Json ==> (r.Ok? <==> |ts| > 0 && ts[0].Num? && -TWO_63 <= ts[0].value < TWO_63)
    ensures r.Ok? ==> [Num(r.value.0)] + r.value.1 == ts
  {
    if mode == Json then
      var p :- ReadNum(ts, -TWO_63, TWO_63);
      Ok((p.0, p.1))
    else Err(NotImplemented)
  }

  /** ASSUMED EXTENSION: reads back a binary `Long` written by `encodeVarLong`. */
  function ReadVarLong(ts: seq<Token>): (r: Result<(int64, seq<Token>)>)
    ensures r.Ok? ==> exists k :: 1 <= k <= |ts| && r.value.1 == ts[k..]
  {
    var p :- Leb128.Decode(LeadingBytes(ts));
    if p.0 < TWO_64 then Ok((ULongToLong(p.0), ts[p.1..])) else Err(MalformedVarint)
  }

  lemma ReadVarLongOfEncoding(value: int64, rest: seq<Token>)
    ensures ReadVarLong(Bytes(EncodeVarLong(value)) + rest) == Ok((value, rest))
  {
    var bs := EncodeVarLong(value);
    var ts := Bytes(bs) + rest;
    LeadingBytesOfBytes(bs, rest);
    DecodeEncode(LongToULong(value), LeadingBytes(rest));
    assert ts[|bs|..] == rest;
    LongBitPattern(value, LongToULong(value));
  }

  // ----- VarIntSerializer -----

  /** `VarIntSerializer.serialize`. */
  function SerializeVarInt(mode: Mode, value: int32): (r: Result<seq<Token>>)
    ensures r.Err? <==> mode == Other
    ensures r.Err? ==> r.error == NotImplemented
    ensures mode == Json ==> r.Ok? && DeserializeVarInt(Json, r.value) == Ok((value, []))
    ensures mode == IO ==> r.Ok? && 1 <= |r.value| <= 5 && r.value == Bytes(EncodeVarInt(value))
  {
    match mode
    case Json => Ok([Num(value)])
    case IO =>
      assert Pow128(5) == 0x8_0000_0000;
      EncodeLength(IntToUInt(value), 5);
      Ok(Bytes(EncodeVarInt(value)))
    case Other => Err(NotImplemented)
  }

  /** `VarIntSerializer.deserialize`. */
  function DeserializeVarInt(mode: Mode, ts: seq<Token>): (r: Result<(int32, seq<Token>)>)
    ensures mode != Json ==> r == Err(NotImplemented)
    ensures mode == Json ==> (r.Ok? <==> |ts| > 0 && ts[0].Num? && -TWO_31 <= ts[0].value < TWO_31)
    ensures r.Ok? ==> [Num(r.value.0)] + r.value.1 == ts
  {
    if mode == Json then
      var p :- ReadNum(ts, -TWO_31, TWO_31);
      Ok((p.0, p.1))
    else Err(NotImplemented)
  }

  /** ASSUMED EXTENSION: reads back a binary `Int` written by `encodeVarInt`. */
  function ReadVarInt(ts: seq<Token>): (r: Result<(int32, seq<Token>)>)
    ensures r.Ok? ==> exists k :: 1 <= k <= |ts| && r.value.1 == ts[k..]
  {
    var p :- Leb128.Decode(LeadingBytes(ts));
    if p.0 < TWO_32 then Ok((UIntToInt(p.0), ts[p.1..])) else Err(MalformedVarint)
  }

  lemma ReadVarIntOfEncoding(value: int32, rest: seq<Token>)
    ensures ReadVarInt(Bytes(EncodeVarInt(value)) + rest) == Ok((value, rest))
  {
    var bs := EncodeVarInt(value);
    var ts := Bytes(bs) + rest;
    LeadingBytesOfBytes(bs, rest);
    DecodeEncode(IntToUInt(value), LeadingBytes(rest));
    assert ts[|bs|..] == rest;
    IntBitPattern(value, IntToUInt(value));
  }

  // ----- ULongVarIntSerializer -----

  /** `ULongVarIntSerializer.serialize`: JSON gets the unsigned literal, the
      binary encoder gets `encodeVarLong(value.toLong())`. */
  function SerializeULongVarInt(mode: Mode, value: uint64): (r: Result<seq<Token>>)
    ensures r.Err? <==> mode == Other
    ensures r.Err? ==> r.error == NotImplemented
    ensures mode == Json ==> r.Ok? && DeserializeULongVarInt(Json, r.value) == Ok((value, []))
    ensures mode == IO ==> r.Ok? && 1 <= |r.value| <= 10 && r.value == Bytes(Leb128.Encode(value))
  {
    match mode
    case Json => Ok([Num(value)])
    case IO =>
      LongBitPattern(ULongToLong(value), value);
      EncodeLength64(value);
      Ok(Bytes(EncodeVarLong(ULongToLong(value))))
    case Other => Err(NotImplemented)
  }

  /** `ULongVarIntSerializer.deserialize`. */
  function DeserializeULongVarInt(mode: Mode, ts: seq<Token>): (r: Result<(uint64, seq<Token>)>)
    ensures mode != Json ==> r == Err(NotImplemented)
    ensures mode == Json ==> (r.Ok? <==> |ts| > 0 && ts[0].Num? && 0 <= ts[0].value < TWO_64)
    ensures r.Ok? ==> [Num(r.value.0)] + r.value.1 == ts
  {
    if mode == Json then
      var p :- ReadNum(ts, 0, TWO_64);
      Ok((p.0, p.1))
    else Err(NotImplemented)
  }

  /** ASSUMED EXTENSION: reads back a binary `ULong` written by `ULongVarIntSerializer`. */
  function ReadULongVarInt(ts: seq<Token>): (r: Result<(uint64, seq<Token>)>)
    ensures r.Ok? ==> exists k :: 1 <= k <= |ts| && r.value.1 == ts[k..]
  {
    var p :- Leb128.Decode(LeadingBytes(ts));
    if p.0 < TWO_64 then Ok((p.0, ts[p.1..])) else Err(MalformedVarint)
  }

  lemma ReadULongVarIntOfEncoding(value: uint64, rest: seq<Token>)
    ensures ReadULongVarInt(Bytes(Leb128.Encode(value)) + rest) == Ok((value, rest))
  {
    var bs := Leb128.Encode(value);
    var ts := Bytes(bs) + rest;
    LeadingBytesOfBytes(bs, rest);
    DecodeEncode(value, LeadingBytes(rest));
    assert ts[|bs|..] == rest;
  }

  // ----- Relations between the three serializers -----

  /** Every primitive serializer reads back in JSON what it wrote, with any
      following tokens left untouched. */
  lemma JsonRoundTrips(l: int64, i: int32, u: uint64, rest: seq<Token>)
    ensures DeserializeVarLong(Json, SerializeVarLong(Json, l).value + rest) == Ok((l, rest))
    ensures DeserializeVarInt(Json, SerializeVarInt(Json, i).value + rest) == Ok((i, rest))
    ensures DeserializeULongVarInt(Json, SerializeULongVarInt(Json, u).value + rest) == Ok((u, rest))
  {
    assert ([Num(l)] + rest)[1..] == rest;
    assert ([Num(i)] + rest)[1..] == rest;
    assert ([Num(u)] + rest)[1..] == rest;
  }

  /** ASSUMED EXTENSION: the binary output of every primitive serializer is
      self-delimiting: the varint readers recover the value and stop at its end. */
  lemma BinaryRoundTrips(l: int64, i: int32, u: uint64, rest: seq<Token>)
    ensures ReadVarLong(SerializeVarLong(IO, l).value + rest) == Ok((l, rest))
    ensures ReadVarInt(SerializeVarInt(IO, i).value + rest) == Ok((i, rest))
    ensures ReadULongVarInt(SerializeULongVarInt(IO, u).value + rest) == Ok((u, rest))
  {
    ReadVarLongOfEncoding(l, rest);
    ReadVarIntOfEncoding(i, rest);
    LongBitPattern(ULongToLong(u), u);
    ReadULongVarIntOfEncoding(u, rest);
  }

  /** `ULongVarIntSerializer` writes `value.toLong()`: its binary output is the
      varint of the unsigned value itself, which for values below 2^63 is
      exactly what `VarLongSerializer` writes for the same number; above that
      it is what `VarLongSerializer` writes for the negative `Long` with the
      same bits. */
  lemma ULongAgreesWithVarLong(u: uint64, mode: Mode)
    ensures u < TWO_63 ==> SerializeULongVarInt(mode, u) == SerializeVarLong(mode, u)
    ensures u >= TWO_63 ==> SerializeULongVarInt(IO, u) == SerializeVarLong(IO, u - TWO_64)
  {
    LongBitPattern(ULongToLong(u), u);
  }

  /** For non-negative values `VarIntSerializer` and `VarLongSerializer` write
      the same output in every mode. */
  lemma VarIntAgreesWithVarLong(v: int32, mode: Mode)
    requires v >= 0
    ensures SerializeVarInt(mode, v) == SerializeVarLong(mode, v)
  {
  }

  /** The varint boundary cases of a binary `Long`, and a negative `Long`
      taking the full ten bytes. */
  lemma VarLongBoundaries()
    ensures SerializeVarLong(IO, 0) == Ok([Byte(0x00)])
    ensures SerializeVarLong(IO, 127) == Ok([Byte(0x7F)])
    ensures SerializeVarLong(IO, 128) == Ok([Byte(0x80), Byte(0x01)])
    ensures |SerializeVarLong(IO, -1).value| == 10
  {
    EncodeBoundaries();
    assert Bytes([0x00]) == [Byte(0x00)];
    assert Bytes([0x7F]) == [Byte(0x7F)];
    assert Bytes([0x80, 0x01]) == [Byte(0x80), Byte(0x01)];
    assert Pow128(9) == 0x8000_0000_0000_0000;
    EncodeLengthAtLeast(TWO_64 - 1, 9);
  }

  /** ASSUMED EXTENSION: a byte stream that ends while every byte still has the
      continuation bit set is rejected as a malformed varint. */
  lemma ReadVarLongRejectsTruncated(bs: seq<byte>)
    requires AllContinue(bs)
    ensures ReadVarLong(Bytes(bs)) == Err(MalformedVarint)
  {
    LeadingBytesOfBytes(bs, []);
    DecodeFailsIffUnterminated(bs);
    assert Bytes(bs) + [] == Bytes(bs);
    assert bs + [] == bs;
  }
}
