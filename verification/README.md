# Static variants of bitshares-kit, in Dafny

This project models the static-variant codec of the Kotlin library
bitshares-kit, and its use for vesting policies.

A *static variant* is a closed, ordered list of alternative classes. An
instance is written as a two-element LIST:

- element 0 is the *tag*, the position of the instance's class in the list;
- element 1 is the instance itself, written by its class's own serializer.

The model covers the following parts of the library:

- `StaticVarSerialDescriptor` (`Descriptors`): element names and indices, the
  per-element queries and their `require`s, `equals`, `hashCode` in 32-bit
  `Int` arithmetic, and `toString`.
- `VarLongSerializer`, `VarIntSerializer` and `ULongVarIntSerializer`
  (`PrimitiveSerializers`). Each dispatches on the kind of encoder or decoder
  it is handed. A JSON encoder gets the literal number. Graphene's binary
  `IOEncoder` gets a varint. Anything else reaches `TODO()`, which the model
  reports as `NotImplemented`.
- `StaticVarSerializer` (`StaticVarCodec`), which covers:
  - the tag as `classList.indexOf(value::class)`;
  - construction, with `classListInternal` and the declared descriptor;
  - `getSerializer`;
  - `serialize` and `deserialize`;
  - the position comparator.
- `VestingPolicyInitializerSerializer` (`Vesting`): the three vesting
  policies and the serializers generated for their classes.

Supporting modules:

- `Wrappers`: `Option`, `Result` and the exceptions of the source.
- `KotlinInt`: `Int`, `Long`, `UInt` and `ULong`, and their bit-pattern
  conversions.
- `Decimal`: `Int.toString` and `String.toIntOrNull`.
- `Leb128`: the assumed varint layout.
- `Tokens`: what an encoder writes.

### How the model stands in for the library

- Encoders and decoders become a `Mode` (`Json`, `IO` or `Other`) plus a
  stream of `Token`s. In JSON these are structural events; in binary they are
  bytes.
- An encoder step yields an `Emit`: the tokens written, plus the exception
  that stopped the write, if any. Writes made before a failure stay in the
  output.
- Reflection becomes explicit parameters of `StaticVarSerializer`:
  - `classOf` stands for `value::class`;
  - `derived` stands for `serializerOrNull()`;
  - `fallback` is the explicit serializer map.
- A class serializer becomes a `Handler`: its descriptor, an encode function
  and a decode function.

### Assumptions about code outside the model

- **Varint layout.** `IOEncoder.encodeVarLong` and `encodeVarInt` are not
  part of this model. Their byte layout is assumed to be unsigned LEB128
  (DWARF Version 4, section 7.6) of the value's 64-bit (or 32-bit) two's
  complement pattern.
- **Binary framing.** `IOEncoder` is not part of this model. It is assumed
  to write nothing for `beginStructure` and `endStructure`, and nothing for
  field names: binary output is the concatenation of the field values alone.
  `Open`, `Close` and `JsonOnly` encode this assumption. The binary layout
  and binary round-trip lemmas rest on it, as do the binary halves of
  `Vesting.PolicyTags` and `Vesting.InstantCarriesNoData`.
- **Binary decoding.** The source cannot decode binary input. The following
  members are therefore labelled ASSUMED EXTENSION:
  - `Leb128.Decode`;
  - `ReadVarLong`, `ReadVarInt` and `ReadULongVarInt`;
  - `DeserializeBinary`;
  - the binary round-trip lemmas.

  They state only what the assumed layout makes recoverable.

## Model

| member | source | states |
|---|---|---|
| KotlinInt.WrapInt32 | src/main/java/graphene/serializers/StaticVariantSerializer.kt:58-62 | `Int` arithmetic yields the unique 32-bit value congruent to the exact result modulo 2^32, and the exact value when it fits |
| KotlinInt.ULongToLong | src/main/java/graphene/serializers/StaticVariantSerializer.kt:102 | `ULong.toLong()` keeps the bit pattern (congruent modulo 2^64) and changes the number exactly when it is at least 2^63 |
| KotlinInt.LongBitPattern | src/main/java/graphene/serializers/StaticVariantSerializer.kt:102 | `ULong.toLong()` and `Long.toULong()` are mutually inverse: a `Long` and a `ULong` correspond exactly when they share a 64-bit pattern |
| KotlinInt.IntBitPattern | src/main/java/graphene/serializers/StaticVariantSerializer.kt:86 | `Int.toUInt()` and `UInt.toInt()` are mutually inverse: an `Int` and a `UInt` correspond exactly when they share a 32-bit pattern |
| Decimal.IntToString | src/main/java/graphene/serializers/StaticVariantSerializer.kt:32 | `Int.toString` is the canonical decimal text: '-' exactly for negative numbers, never a '+', and no leading zero unless the number is 0 |
| Decimal.ToIntOrNull | src/main/java/graphene/serializers/StaticVariantSerializer.kt:33-34 | `toIntOrNull` accepts only an optional sign followed by at least one decimal digit, and then exactly when the signed value lies in the `Int` range; the result is that signed value, so "+7" and "007" read as 7; every other text gives null |
| Decimal.DigitsValueOfNatToDigits | src/main/java/graphene/serializers/StaticVariantSerializer.kt:32-34 | the digits written for a natural number read back as that number |
| Decimal.ToIntOrNullOfIntToString | src/main/java/graphene/serializers/StaticVariantSerializer.kt:32-34 | parsing the decimal text of any `Int` gives that `Int` back |
| Decimal.ToIntOrNullRejectsNonDigit | src/main/java/graphene/serializers/StaticVariantSerializer.kt:33-34 | a text with a non-digit after its optional sign is not a number |
| Decimal.ToIntOrNullExamples | src/main/java/graphene/serializers/StaticVariantSerializer.kt:33-34 | a leading '+', leading zeros and "-0" are accepted: "+7" and "007" give 7, "-0" gives 0 |
| Decimal.ToIntOrNullRefusesOverflow | src/main/java/graphene/serializers/StaticVariantSerializer.kt:33-34 | numeric text one past either end of the `Int` range (2147483648, -2147483649) gives null, while -2147483648 is read |
| Leb128.Encode | src/main/java/graphene/serializers/StaticVariantSerializer.kt:71 | (assumed layout) a varint is non-empty, ends in a byte without the continuation bit, is one byte exactly below 128, and never ends in a redundant zero byte |
| Leb128.EncodeContinuesUntilLast | src/main/java/graphene/serializers/StaticVariantSerializer.kt:71 | (assumed layout) every byte of a varint except the last carries the continuation bit |
| Leb128.Decode | src/main/java/graphene/serializers/StaticVariantSerializer.kt:71 | (assumed extension) a varint read ends at a consumed byte without the continuation bit, within the input, and fails only with MalformedVarint |
| Leb128.DecodeStopsAtFirstTerminator | src/main/java/graphene/serializers/StaticVariantSerializer.kt:71 | (assumed extension) every byte the reader consumed before the last carries the continuation bit |
| Leb128.DecodeFailsIffUnterminated | src/main/java/graphene/serializers/StaticVariantSerializer.kt:71 | (assumed extension) reading fails exactly when every input byte carries the continuation bit: truncated input is rejected |
| Leb128.DecodeEncode | src/main/java/graphene/serializers/StaticVariantSerializer.kt:71 | (assumed extension) reading a varint gives back the encoded value and its exact length, whatever follows |
| Leb128.EncodeDecoded | src/main/java/graphene/serializers/StaticVariantSerializer.kt:71 | (assumed extension) any varint without a redundant trailing zero is the encoding of the value it denotes: the layout is canonical |
| Leb128.EncodeLength | src/main/java/graphene/serializers/StaticVariantSerializer.kt:71 | values below 128^k take at most k bytes |
| Leb128.EncodeLengthAtLeast | src/main/java/graphene/serializers/StaticVariantSerializer.kt:71 | values of at least 128^k take more than k bytes |
| Leb128.EncodeLength64 | src/main/java/graphene/serializers/StaticVariantSerializer.kt:71 | any 64-bit pattern takes at most ten bytes |
| Leb128.EncodeBoundaries | src/main/java/graphene/serializers/StaticVariantSerializer.kt:71 | 0 and 127 take one byte, 128 takes two (0x80 0x01), 300 is 0xAC 0x02 |
| PrimitiveSerializers.SerializeVarLong | src/main/java/graphene/serializers/StaticVariantSerializer.kt:68-73 | fails exactly for an unsupported encoder; JSON output reads back as the same `Long`; binary output is the 1 to 10 varint bytes of the value's bit pattern |
| PrimitiveSerializers.DeserializeVarLong | src/main/java/graphene/serializers/StaticVariantSerializer.kt:74-78 | only a JSON decoder is supported; it reads one number in `Long` range |
| PrimitiveSerializers.EncodeVarLong | src/main/java/graphene/serializers/StaticVariantSerializer.kt:71 | (assumed layout) `encodeVarLong` writes 1 to 10 bytes, one byte exactly for 0..127, and ten bytes for every negative `Long` |
| PrimitiveSerializers.ReadVarLong | src/main/java/graphene/serializers/StaticVariantSerializer.kt:71 | (assumed extension) a binary `Long` read consumes at least one token and returns the input after it |
| PrimitiveSerializers.SerializeVarInt | src/main/java/graphene/serializers/StaticVariantSerializer.kt:83-88 | as for `Long`, with `Int` range and at most 5 varint bytes |
| PrimitiveSerializers.DeserializeVarInt | src/main/java/graphene/serializers/StaticVariantSerializer.kt:89-93 | only a JSON decoder is supported; it reads one number in `Int` range |
| PrimitiveSerializers.EncodeVarInt | src/main/java/graphene/serializers/StaticVariantSerializer.kt:86 | (assumed layout) `encodeVarInt` writes 1 to 5 bytes, one byte exactly for 0..127, and five bytes for every negative `Int` |
| PrimitiveSerializers.ReadVarInt | src/main/java/graphene/serializers/StaticVariantSerializer.kt:86 | (assumed extension) a binary `Int` read consumes at least one token and returns the input after it |
| PrimitiveSerializers.SerializeULongVarInt | src/main/java/graphene/serializers/StaticVariantSerializer.kt:99-104 | fails exactly for an unsupported encoder; JSON output reads back as the same `ULong`; binary output is the varint of the unsigned value |
| PrimitiveSerializers.DeserializeULongVarInt | src/main/java/graphene/serializers/StaticVariantSerializer.kt:105-109 | only a JSON decoder is supported; it reads one number in `ULong` range |
| PrimitiveSerializers.ReadULongVarInt | src/main/java/graphene/serializers/StaticVariantSerializer.kt:102 | (assumed extension) a binary `ULong` read consumes at least one token and returns the input after it |
| PrimitiveSerializers.ReadVarLongOfEncoding | src/main/java/graphene/serializers/StaticVariantSerializer.kt:71 | (assumed extension) the varint of a `Long` reads back as that `Long`, leaving what follows |
| PrimitiveSerializers.ReadVarIntOfEncoding | src/main/java/graphene/serializers/StaticVariantSerializer.kt:86 | (assumed extension) the varint of an `Int` reads back as that `Int`, leaving what follows |
| PrimitiveSerializers.ReadULongVarIntOfEncoding | src/main/java/graphene/serializers/StaticVariantSerializer.kt:102 | (assumed extension) the varint of a `ULong` reads back as that `ULong`, leaving what follows |
| PrimitiveSerializers.JsonRoundTrips | src/main/java/graphene/serializers/StaticVariantSerializer.kt:66-110 | each of the three serializers reads back in JSON what it wrote, leaving the following tokens untouched |
| PrimitiveSerializers.BinaryRoundTrips | src/main/java/graphene/serializers/StaticVariantSerializer.kt:66-110 | (assumed extension) each binary output is self-delimiting and reads back as the written value |
| PrimitiveSerializers.ULongAgreesWithVarLong | src/main/java/graphene/serializers/StaticVariantSerializer.kt:99-104 | below 2^63 the `ULong` serializer writes exactly what the `Long` serializer writes in every mode; from 2^63 its binary output is the `Long` serializer's output for the negative number with the same bits |
| PrimitiveSerializers.VarIntAgreesWithVarLong | src/main/java/graphene/serializers/StaticVariantSerializer.kt:81-88 | a non-negative `Int` is written exactly as the same `Long` would be, in every mode |
| PrimitiveSerializers.VarLongBoundaries | src/main/java/graphene/serializers/StaticVariantSerializer.kt:71 | binary tags 0, 127 and 128 are 0x00, 0x7F and 0x80 0x01; the tag -1 takes ten bytes |
| PrimitiveSerializers.ReadVarLongRejectsTruncated | src/main/java/graphene/serializers/StaticVariantSerializer.kt:71 | (assumed extension) bytes that all carry the continuation bit are a malformed varint |
| Descriptors.ElementName | src/main/java/graphene/serializers/StaticVariantSerializer.kt:32 | an element's name is the canonical decimal text of its index (sign only for a negative index, no '+', no leading zero), which `getElementIndex` maps back to the same index, for every `Int` index |
| Descriptors.ElementNamesOfElements | src/main/java/graphene/serializers/StaticVariantSerializer.kt:32 | the two elements are named "0" and "1" |
| Descriptors.ElementIndex | src/main/java/graphene/serializers/StaticVariantSerializer.kt:33-34 | a name is accepted exactly when it is numeric text whose signed value fits in an `Int`, and then maps to that value, without a check against the element count; any other name, including an out-of-range number, gives IllegalArgument "<name> is not a valid map index" |
| Descriptors.ElementIndexOutOfIntRange | src/main/java/graphene/serializers/StaticVariantSerializer.kt:33-34 | "2147483648" is refused as a map index, while "-2147483648" is read as -2^31 |
| Descriptors.IsElementOptional | src/main/java/graphene/serializers/StaticVariantSerializer.kt:35-38 | refused exactly for negative indices, with the `require` message; otherwise false |
| Descriptors.ElementAnnotations | src/main/java/graphene/serializers/StaticVariantSerializer.kt:39-42 | refused exactly for negative indices, with the `require` message; otherwise empty |
| Descriptors.ElementDescriptor | src/main/java/graphene/serializers/StaticVariantSerializer.kt:43-50 | defined exactly for indices 0 and 1: the `Long` tag descriptor, then the payload's; negative indices fail the `require`, the rest are "Unreached" |
| Descriptors.ElementQueriesAgree | src/main/java/graphene/serializers/StaticVariantSerializer.kt:31-50 | the queries agree on which indices exist: both existing elements resolve name and descriptor, and the per-element queries refuse the same indices |
| Descriptors.Equals | src/main/java/graphene/serializers/StaticVariantSerializer.kt:51-57 | two descriptors are equal exactly when the other is a static-variant descriptor over an equal payload descriptor |
| Descriptors.StringHash | src/main/java/graphene/serializers/StaticVariantSerializer.kt:59 | `String.hashCode` is congruent modulo 2^32 to the polynomial hash with base 31 |
| Descriptors.HashCode | src/main/java/graphene/serializers/StaticVariantSerializer.kt:58-62 | the hash is congruent modulo 2^32 to 31 * hash("StaticVar") + the payload descriptor's hash |
| Descriptors.EqualsConsistentWithHashCode | src/main/java/graphene/serializers/StaticVariantSerializer.kt:51-62 | equal descriptors have equal hashes; equality is symmetric and depends only on the payload descriptor |
| Descriptors.ToString | src/main/java/graphene/serializers/StaticVariantSerializer.kt:63 | the text is "StaticVar(", then the payload descriptor's text, then ")" |
| StaticVarCodec.IndexOf | src/main/java/graphene/serializers/StaticVariantSerializer.kt:127 | `indexOf` is the first position holding the class, or -1 exactly when the class is not listed |
| StaticVarCodec.TagOf | src/main/java/graphene/serializers/StaticVariantSerializer.kt:145 | the tag is -1 exactly for an unlisted class, and otherwise the first position of the value's class |
| StaticVarCodec.InternalHandler | src/main/java/graphene/serializers/StaticVariantSerializer.kt:119-122 | a `classListInternal` entry prefers the fallback map, then the generated serializer, and otherwise fails naming the class |
| StaticVarCodec.InternalHandlers | src/main/java/graphene/serializers/StaticVariantSerializer.kt:119-122 | the list succeeds exactly when every class resolves, position by position, and otherwise fails with the error of the first class that does not resolve, every class before it having resolved |
| StaticVarCodec.Construct | src/main/java/graphene/serializers/StaticVariantSerializer.kt:119-123 | construction succeeds exactly for a non-empty list whose classes all resolve; the declared descriptor wraps the FIRST alternative's descriptor; an empty list gives NoSuchElement |
| StaticVarCodec.GetSerializer | src/main/java/graphene/serializers/StaticVariantSerializer.kt:131-135 | a tag outside the list is IndexOutOfBounds; inside it, the generated serializer is returned when there is one, otherwise the fallback map's entry, and a null-pointer failure when neither exists |
| StaticVarCodec.ConstructedNeverNull | src/main/java/graphene/serializers/StaticVariantSerializer.kt:119-135 | once construction has succeeded, every tag inside the list finds a serializer: the `!!` never meets null |
| StaticVarCodec.ResolutionSites | src/main/java/graphene/serializers/StaticVariantSerializer.kt:119-135 | the two resolution sites agree unless a class has both a generated and a fallback serializer, in which case they pick different ones |
| StaticVarCodec.Serialize | src/main/java/graphene/serializers/StaticVariantSerializer.kt:143-150 | an unsupported encoder fails before writing; a complete write implies the class is listed and has a handler |
| StaticVarCodec.SerializeJsonLayout | src/main/java/graphene/serializers/StaticVariantSerializer.kt:143-150 | JSON output is `[`, the tag, the payload's output, and `]` only if the payload was written without failure |
| StaticVarCodec.SerializeBinaryLayout | src/main/java/graphene/serializers/StaticVariantSerializer.kt:143-150 | binary output is the tag's varint immediately followed by the payload's output, with the payload's failure |
| StaticVarCodec.SerializeJsonWritesTagFirst | src/main/java/graphene/serializers/StaticVariantSerializer.kt:144-146 | JSON output starts with `[` and the tag, and a complete write ends with `]` |
| StaticVarCodec.SerializeBinaryWritesTagFirst | src/main/java/graphene/serializers/StaticVariantSerializer.kt:144-148 | the varint at the front of binary output is the tag, and the payload starts right after it |
| StaticVarCodec.SerializeUnlistedWritesTag | src/main/java/graphene/serializers/StaticVariantSerializer.kt:145-147 | an unlisted class writes the tag -1 and then fails with IndexOutOfBounds(-1): a partial write |
| StaticVarCodec.Deserialize | src/main/java/graphene/serializers/StaticVariantSerializer.kt:136-142 | only a JSON decoder is supported; success implies a tag inside the list; a tag outside the list is IndexOutOfBounds of that tag |
| StaticVarCodec.DeserializeBinary | src/main/java/graphene/serializers/StaticVariantSerializer.kt:136-142 | (assumed extension) success implies a varint tag inside the list |
| StaticVarCodec.JsonRoundTrip | src/main/java/graphene/serializers/StaticVariantSerializer.kt:136-150 | decoding what `serialize` wrote in JSON gives back the value, leaving what follows, whenever the tagged alternative's handler round-trips |
| StaticVarCodec.BinaryRoundTrip | src/main/java/graphene/serializers/StaticVariantSerializer.kt:136-150 | (assumed extension) the same for binary output: the varint tag is self-delimiting |
| StaticVarCodec.DeserializeYieldsTaggedAlternative | src/main/java/graphene/serializers/StaticVariantSerializer.kt:136-141 | a decoded value belongs to the class its tag names, provided that class's handler only yields its own class |
| StaticVarCodec.Compare | src/main/java/graphene/serializers/StaticVariantSerializer.kt:126-128 | zero exactly for the same class or two unlisted classes; an unlisted class sorts before every listed class instead of failing |
| StaticVarCodec.CompareFollowsPosition | src/main/java/graphene/serializers/StaticVariantSerializer.kt:126-128 | without duplicate classes, the comparison's sign is the order of the two list positions, in all three directions |
| StaticVarCodec.CompareIsTotalPreorder | src/main/java/graphene/serializers/StaticVariantSerializer.kt:126-128 | the comparator is reflexive, total, transitive and antisymmetric in sign |
| Vesting.PolicyTags | src/main/java/graphene/protocol/Vesting.kt:32-38 | Linear has tag 0, Cdd tag 1 and Instant tag 2; the tag opens the JSON array and is the first binary byte |
| Vesting.TagOutOfRange | src/main/java/graphene/protocol/Vesting.kt:33-37 | decoding a tag below 0 or at least 3 fails with IndexOutOfBounds of that tag |
| Vesting.ResolvesToDerived | src/main/java/graphene/protocol/Vesting.kt:32-38 | without a fallback map every position resolves to its class's generated serializer, at both resolution sites |
| Vesting.DeclaredDescriptor | src/main/java/graphene/protocol/Vesting.kt:12-38 | construction succeeds and the declared descriptor is StaticVar of the Linear class's descriptor |
| Vesting.PolicyOrdering | src/main/java/graphene/protocol/Vesting.kt:13-37 | Linear sorts before Cdd, which sorts before Instant; two policies of the same kind compare equal whatever their fields |
| Vesting.FieldRoundTrip | src/main/java/graphene/protocol/Vesting.kt:15-24 | a named field reads back what it wrote, whatever follows it |
| Vesting.FieldLayout | src/main/java/graphene/protocol/Vesting.kt:15-24 | a field whose value is written without failure is its name (in JSON only) followed by that value |
| Vesting.EncodeLinear | src/main/java/graphene/protocol/Vesting.kt:12-18 | the generated Linear serializer refuses any other policy with ClassCast and nothing written; in JSON its output opens an object and, when complete, closes it |
| Vesting.DecodeLinear | src/main/java/graphene/protocol/Vesting.kt:12-18 | the generated Linear deserializer yields only Linear policies, and in JSON refuses input that does not open an object |
| Vesting.EncodeCdd | src/main/java/graphene/protocol/Vesting.kt:20-25 | the generated Cdd serializer refuses any other policy with ClassCast and nothing written; in JSON its output opens an object and, when complete, closes it |
| Vesting.DecodeCdd | src/main/java/graphene/protocol/Vesting.kt:20-25 | the generated Cdd deserializer yields only Cdd policies, and in JSON refuses input that does not open an object |
| Vesting.EncodeInstant | src/main/java/graphene/protocol/Vesting.kt:27-30 | the generated Instant serializer refuses any other policy with ClassCast; the Instant policy itself is written without failure, as nothing at all in binary |
| Vesting.DecodeInstant | src/main/java/graphene/protocol/Vesting.kt:27-30 | the generated Instant deserializer consumes nothing in binary and exactly an empty object in JSON, and yields the Instant policy |
| Vesting.Serializer | src/main/java/graphene/protocol/Vesting.kt:32-38 | the serializer lists three classes, none twice, and every vesting policy's class is among them |
| Vesting.LinearLayout | src/main/java/graphene/protocol/Vesting.kt:12-18 | when the field serializers write the values without failure, the Linear payload is `begin_timestamp`, `vesting_cliff_seconds` and `vesting_duration_seconds`, in that order, each name followed by its value; in binary it is the three values alone, in that order |
| Vesting.LinearRoundTrip | src/main/java/graphene/protocol/Vesting.kt:12-18 | the Linear payload reads back, given timestamp and `UInt32` serializers that round-trip this policy's three field values |
| Vesting.CddLayout | src/main/java/graphene/protocol/Vesting.kt:20-25 | when the field serializers write the values without failure, the Cdd payload is `start_claim`, then `vesting_seconds`, each name followed by its value; in binary it is the two values alone, in that order |
| Vesting.CddRoundTrip | src/main/java/graphene/protocol/Vesting.kt:20-25 | the Cdd payload reads back, given field serializers that round-trip this policy's two field values |
| Vesting.InstantRoundTrip | src/main/java/graphene/protocol/Vesting.kt:27-30 | the empty Instant payload reads back |
| Vesting.TaggedHandlerOfPolicy | src/main/java/graphene/protocol/Vesting.kt:32-38 | the handler selected by each policy's tag round-trips that policy whenever the field serializers round-trip its field values |
| Vesting.JsonPolicyRoundTrip | src/main/java/graphene/protocol/Vesting.kt:9-38 | every vesting policy whose field values the field serializers round-trip survives a JSON round trip through the static variant |
| Vesting.BinaryPolicyRoundTrip | src/main/java/graphene/protocol/Vesting.kt:9-38 | (assumed extension) every vesting policy whose field values the field serializers round-trip survives a binary round trip |
| Vesting.InstantCarriesNoData | src/main/java/graphene/protocol/Vesting.kt:27-30 | the Instant policy is its tag byte alone in binary, and `[2, {}]` in JSON |

## Left out

- The varint writer of `IOEncoder` is not part of this model. Its layout is assumed to be unsigned LEB128.
- Binary decoding does not exist in the source. Every binary reader here is an assumed extension.
- Most of the kotlinx.serialization machinery is abstracted:
  - `Encoder`/`Decoder` and `encodeStructure`/`decodeStructure`;
  - JSON text syntax, which becomes structural tokens;
  - the element indices a structure decoder reports.
- A generated class decoder in JSON accepts fields in any order. The model reads them only in declared order.
- Reflection is abstracted: `serializer()`, `serializerOrNull()` and `KClass` identity become parameters.
- `typeList` (line 125) is computed but never used, so it is not modelled.
- The conversions `toInt32` and `toInt64` (graphene.protocol) are not part of this model. The tag's range is checked on the full `Long`, so a tag of 2^32 or more is not truncated before the list lookup.
- `TimePointSecSerializer`, `Instant` and the `UInt32` serializer are not part of this model. They are passed in as `FieldCodecs`, and timestamps are whole seconds of unbounded range. The wire range of a timestamp is left to the passed-in serializer: the vesting round-trip lemmas ask it to round-trip only the policy's own field values.
- `InstantVestingPolicyInitializer.reserved` is modelled as not serialized, which is the evident intent of `@Transient`. Whether the `Transient` in scope is the one kotlinx.serialization honours (no import for it is present) is not modelled.
- Decimal.ToIntOrNull: accepts ASCII digits only. Other Unicode decimal digits that Kotlin also accepts are not modelled.
- Descriptors.StringHash: hashes Dafny characters, not UTF-16 code units, so it differs from Java for characters outside the Basic Multilingual Plane. "StaticVar" is ASCII.
- Descriptors.HashCode and Descriptors.ToString: the payload descriptor's own `hashCode` and `toString` are parameters.
- Descriptor equality of the serialization library is modelled as structural equality of descriptors.
- For the encoder and decoder kinds that reach `TODO()`, the structure framing that `encodeStructure` may already have written is not modelled. Such a `serialize` fails with nothing written.
- Two failure behaviours are kept as the code has them:
  - An unlisted class is written with tag -1 before the lookup fails, so the failure leaves a partial write.
  - The comparator orders an unlisted class before every listed one instead of failing.
