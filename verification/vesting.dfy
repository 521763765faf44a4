/** `VestingPolicyInitializerSerializer`: a static variant of three vesting policies.

The alternatives, in their wire order, are the linear policy (tag 0), the
coin-days-destroyed policy (tag 1) and the instant policy (tag 2). No fallback
map is supplied, so every alternative is written by the serializer the
compiler plugin generates for its class. Those generated serializers are
modelled here from the classes' declared fields; the serializers of the field
types (`TimePointSecSerializer` for timestamps, the `UInt32` serializer) are
not part of this model and are passed in as `FieldCodecs`.
 */
module Vesting {
  import opened Wrappers
  import opened KotlinInt
  import opened Tokens
  import opened Descriptors
  import opened PrimitiveSerializers
  import opened StaticVarCodec

  /** A `kotlinx.datetime.Instant` as `TimePointSecSerializer` sees it: whole seconds. */
  type Timestamp = int

  /** The sealed class `VestingPolicyInitializer` and its three subclasses. */
  datatype VestingPolicyInitializer =
    | Linear(beginTimestamp: Timestamp, vestingCliffSeconds: uint32, vestingDurationSeconds: uint32)
    | Cdd(startClaim: Timestamp, vestingSeconds: uint32)
    | InstantPolicy

  const LINEAR_CLASS: ClassId := "graphene.protocol.LinearVestingPolicyInitializer"
  const CDD_CLASS: ClassId := "graphene.protocol.CddVestingPolicyInitializer"
  const INSTANT_CLASS: ClassId := "graphene.protocol.InstantVestingPolicyInitializer"

  /** The fixed alternative list; its order is the wire order of the tags. */
  const CLASS_LIST: ClassList := [LINEAR_CLASS, CDD_CLASS, INSTANT_CLASS]

  /** The generated descriptors: the serial name and the `@SerialName` of each
      serialized field, in declaration order. `reserved` is `@Transient`. */
  const LINEAR_DESCRIPTOR: Descriptor :=
    Class(LINEAR_CLASS, ["begin_timestamp", "vesting_cliff_seconds", "vesting_duration_seconds"])
  const CDD_DESCRIPTOR: Descriptor := Class(CDD_CLASS, ["start_claim", "vesting_seconds"])
  const INSTANT_DESCRIPTOR: Descriptor := Class(INSTANT_CLASS, [])

  /** `value::class`. */
  function ClassOf(v: VestingPolicyInitializer): ClassId {
    match v
    case Linear(_, _, _) => LINEAR_CLASS
    case Cdd(_, _) => CDD_CLASS
    case InstantPolicy => INSTANT_CLASS
  }

  /** The intended wire position of each kind of policy, stated independently
      of the list lookup. */
  function PolicyIndex(v: VestingPolicyInitializer): nat {
    match v
    case Linear(_, _, _) => 0
    case Cdd(_, _) => 1
    case InstantPolicy => 2
  }

  /** The serializers of the two field types. */
  datatype FieldCodecs = FieldCodecs(timePointSec: Handler<Timestamp>, uint32: Handler<uint32>)

  // ----- The generated class serializers -----

  /** A structural token that only JSON writes (braces and field names). */
  function JsonOnly(mode: Mode, t: Token): seq<Token> {
    if mode == Json then [t] else []
  }

  /** Read a token that only JSON writes. */
  function ExpectJsonOnly(mode: Mode, ts: seq<Token>, t: Token): (r: Result<seq<Token>>)
    ensures r.Ok? ==> ts == JsonOnly(mode, t) + r.value
  {
    if mode == Json then Expect(ts, t) else Ok(ts)
  }

  /** One serialized field: its name (in JSON), then its value written by `h`. */
  function Field<X>(mode: Mode, name: string, h: Handler<X>, x: X): Emit {
    Wrote(JsonOnly(mode, Key(name))).Then(h.encode(mode, x))
  }

  /** Read one field: its name (in JSON), then its value with `h`. */
  function ReadField<X>(mode: Mode, ts: seq<Token>, name: string, h: Handler<X>): Result<(X, seq<Token>)> {
    var afterName :- ExpectJsonOnly(mode, ts, Key(name));
    h.decode(mode, afterName)
  }

  /** The generated serializer of `LinearVestingPolicyInitializer`: an object
      of the three fields. The static variant hands it only Linear values; any
      other value fails the cast before anything is written. */
  function EncodeLinear(fc: FieldCodecs, mode: Mode, v: VestingPolicyInitializer): (r: Emit)
    ensures !v.Linear? ==> r == Emit([], Some(ClassCast))
    ensures v.Linear? && mode == Json ==> |r.out| > 0 && r.out[0] == BeginObject
    ensures v.Linear? && mode == Json && r.failure.None? ==> r.out[|r.out| - 1] == EndObject
  {
    match v
    case Linear(begin, cliff, duration) =>
      Wrote(JsonOnly(mode, BeginObject))
        .Then(Field(mode, LINEAR_DESCRIPTOR.elementNames[0], fc.timePointSec, begin))
        .Then(Field(mode, LINEAR_DESCRIPTOR.elementNames[1], fc.uint32, cliff))
        .Then(Field(mode, LINEAR_DESCRIPTOR.elementNames[2], fc.uint32, duration))
        .Then(Wrote(JsonOnly(mode, EndObject)))
    case _ => Emit([], Some(ClassCast))
  }

  function DecodeLinear(fc: FieldCodecs, mode: Mode, ts: seq<Token>): (r: Result<(VestingPolicyInitializer, seq<Token>)>)
    ensures r.Ok? ==> r.value.0.Linear?
    ensures mode == Json && !(|ts| > 0 && ts[0] == BeginObject) ==> r == Err(Malformed)
  {
    var afterOpen :- ExpectJsonOnly(mode, ts, BeginObject);
    var begin :- ReadField(mode, afterOpen, LINEAR_DESCRIPTOR.elementNames[0], fc.timePointSec);
    var cliff :- ReadField(mode, begin.1, LINEAR_DESCRIPTOR.elementNames[1], fc.uint32);
    var duration :- ReadField(mode, cliff.1, LINEAR_DESCRIPTOR.elementNames[2], fc.uint32);
    var afterClose :- ExpectJsonOnly(mode, duration.1, EndObject);
    Ok((Linear(begin.0, cliff.0, duration.0), afterClose))
  }

  /** The generated serializer of `CddVestingPolicyInitializer`: an object of the two fields. */
  function EncodeCdd(fc: FieldCodecs, mode: Mode, v: VestingPolicyInitializer): (r: Emit)
    ensures !v.Cdd? ==> r == Emit([], Some(ClassCast))
    ensures v.Cdd? && mode == Json ==> |r.out| > 0 && r.out[0] == BeginObject
    ensures v.Cdd? && mode == Json && r.failure.None? ==> r.out[|r.out| - 1] == EndObject
  {
    match v
    case Cdd(start, seconds) =>
      Wrote(JsonOnly(mode, BeginObject))
        .Then(Field(mode, CDD_DESCRIPTOR.elementNames[0], fc.timePointSec, start))
        .Then(Field(mode, CDD_DESCRIPTOR.elementNames[1], fc.uint32, seconds))
        .Then(Wrote(JsonOnly(mode, EndObject)))
    case _ => Emit([], Some(ClassCast))
  }

  function DecodeCdd(fc: FieldCodecs, mode: Mode, ts: seq<Token>): (r: Result<(VestingPolicyInitializer, seq<Token>)>)
    ensures r.Ok? ==> r.value.0.Cdd?
    ensures mode == Json && !(|ts| > 0 && ts[0] == BeginObject) ==> r == Err(Malformed)
  {
    var afterOpen :- ExpectJsonOnly(mode, ts, BeginObject);
    var start :- ReadField(mode, afterOpen, CDD_DESCRIPTOR.elementNames[0], fc.timePointSec);
    var seconds :- ReadField(mode, start.1, CDD_DESCRIPTOR.elementNames[1], fc.uint32);
    var afterClose :- ExpectJsonOnly(mode, seconds.1, EndObject);
    Ok((Cdd(start.0, seconds.0), afterClose))
  }

  /** The instant policy has no serialized field. */
  function EncodeInstant(mode: Mode, v: VestingPolicyInitializer): (r: Emit)
    ensures !v.InstantPolicy? ==> r == Emit([], Some(ClassCast))
    ensures v.InstantPolicy? ==> r.failure.None? && (mode == Json <==> |r.out| > 0)
  {
    match v
    case InstantPolicy => Wrote(JsonOnly(mode, BeginObject) + JsonOnly(mode, EndObject))
    case _ => Emit([], Some(ClassCast))
  }

  function DecodeInstant(mode: Mode, ts: seq<Token>): (r: Result<(VestingPolicyInitializer, seq<Token>)>)
    ensures mode != Json ==> r == Ok((InstantPolicy, ts))
    ensures mode == Json ==> (r.Ok? <==> |ts| >= 2 && ts[0] == BeginObject && ts[1] == EndObject)
    ensures r.Ok? ==> r.value.0 == InstantPolicy
  {
    var ts1 :- ExpectJsonOnly(mode, ts, BeginObject);
    var ts2 :- ExpectJsonOnly(mode, ts1, EndObject);
    Ok((InstantPolicy, ts2))
  }

  function LinearHandler(fc: FieldCodecs): Handler<VestingPolicyInitializer> {
    Handler(LINEAR_DESCRIPTOR, (m, v) => EncodeLinear(fc, m, v), (m, ts) => DecodeLinear(fc, m, ts))
  }

  function CddHandler(fc: FieldCodecs): Handler<VestingPolicyInitializer> {
    Handler(CDD_DESCRIPTOR, (m, v) => EncodeCdd(fc, m, v), (m, ts) => DecodeCdd(fc, m, ts))
  }

  function InstantHandler(): Handler<VestingPolicyInitializer> {
    Handler(INSTANT_DESCRIPTOR, (m, v) => EncodeInstant(m, v), (m, ts) => DecodeInstant(m, ts))
  }

  /** `serializerOrNull()` over the three classes: each has a generated serializer. */
  function Derived(fc: FieldCodecs): ClassId -> Option<Handler<VestingPolicyInitializer>> {
    c =>
      if c == LINEAR_CLASS then Some(LinearHandler(fc))
      else if c == CDD_CLASS then Some(CddHandler(fc))
      else if c == INSTANT_CLASS then Some(InstantHandler())
      else None
  }

  /** `VestingPolicyInitializerSerializer`, without a fallback map. The list
      covers every subclass of the sealed class, once each. */
  function Serializer(fc: FieldCodecs): (r: StaticVarSerializer<VestingPolicyInitializer>)
    ensures |r.classList| == 3 && NoDuplicates(r.classList)
    ensures forall v :: r.classOf(v) in r.classList
  {
    StaticVarSerializer(CLASS_LIST, map[], Derived(fc), ClassOf)
  }

  // ----- Tags, lookup and descriptor -----

  lemma ClassListHasNoDuplicates()
    ensures NoDuplicates(CLASS_LIST)
  {
  }

  /** Linear encodes with tag 0, Cdd with tag 1, Instant with tag 2: the tag
      is the first element of the JSON array and the first byte in binary. */
  lemma PolicyTags(fc: FieldCodecs, v: VestingPolicyInitializer)
    ensures TagOf(Serializer(fc), v) == PolicyIndex(v)
    ensures Serialize(Serializer(fc), Json, v).out[..2] == [BeginList, Num(PolicyIndex(v))]
    ensures Serialize(Serializer(fc), IO, v).out[0] == Byte(PolicyIndex(v))
  {
    var s := Serializer(fc);
    assert TagOf(s, v) == PolicyIndex(v) by {
      assert CLASS_LIST[PolicyIndex(v)] == ClassOf(v);
      ClassListHasNoDuplicates();
    }
    SerializeJsonWritesTagFirst(s, v);
    SerializeBinaryLayout(s, v);
    assert EncodeVarLong(PolicyIndex(v)) == [PolicyIndex(v)];
  }

  /** A tag outside [0, 3) never decodes to a policy. */
  lemma TagOutOfRange(fc: FieldCodecs, tag: int64, rest: seq<Token>)
    requires tag < 0 || tag >= 3
    ensures Deserialize(Serializer(fc), Json, [BeginList, Num(tag)] + rest) == Err(IndexOutOfBounds(tag))
  {
  }

  /** Without a fallback map every position resolves to its class's generated
      serializer, at both resolution sites. */
  lemma ResolvesToDerived(fc: FieldCodecs, tag: int64)
    requires 0 <= tag < 3
    ensures GetSerializer(Serializer(fc), tag) == Ok(Derived(fc)(CLASS_LIST[tag]).value)
    ensures InternalHandler(Serializer(fc), CLASS_LIST[tag]) == GetSerializer(Serializer(fc), tag)
  {
  }

  /** The declared descriptor is `StaticVar(<Linear's descriptor>)`: Linear is
      the first alternative. */
  lemma DeclaredDescriptor(fc: FieldCodecs)
    ensures Construct(Serializer(fc)).Ok?
    ensures Construct(Serializer(fc)).value.descriptor == StaticVar(LINEAR_DESCRIPTOR)
  {
    var s := Serializer(fc);
    forall i | 0 <= i < |CLASS_LIST|
      ensures InternalHandler(s, CLASS_LIST[i]).Ok?
    {
    }
  }

  // ----- Ordering -----

  /** Every Linear policy sorts before every Cdd policy, which sorts before
      every Instant policy; two policies of the same kind compare equal
      whatever their fields. */
  lemma PolicyOrdering(fc: FieldCodecs, a: VestingPolicyInitializer, b: VestingPolicyInitializer)
    ensures Compare(Serializer(fc), a, b) < 0 <==> PolicyIndex(a) < PolicyIndex(b)
    ensures Compare(Serializer(fc), a, b) == 0 <==> PolicyIndex(a) == PolicyIndex(b)
  {
    ClassListHasNoDuplicates();
    assert CLASS_LIST[PolicyIndex(a)] == ClassOf(a);
    assert CLASS_LIST[PolicyIndex(b)] == ClassOf(b);
    CompareFollowsPosition(Serializer(fc), a, b, PolicyIndex(a), PolicyIndex(b));
  }

  // ----- Round trips -----

  /** The field serializers write each field value of `v` without failure and
      read it back, whatever follows. Only the values `v` holds are asked for,
      so a field serializer with a bounded wire type (a 32-bit `time_point_sec`,
      say) qualifies for every policy whose values it can carry. */
  ghost predicate FieldsRoundTrip(fc: FieldCodecs, mode: Mode, v: VestingPolicyInitializer) {
    match v
    case Linear(begin, cliff, duration) =>
      && HandlerRoundTrips(fc.timePointSec, mode, begin)
      && HandlerRoundTrips(fc.uint32, mode, cliff)
      && HandlerRoundTrips(fc.uint32, mode, duration)
    case Cdd(start, seconds) =>
      && HandlerRoundTrips(fc.timePointSec, mode, start)
      && HandlerRoundTrips(fc.uint32, mode, seconds)
    case InstantPolicy => true
  }

  /** The field serializers write each field value of `v` without failure.
      This is all the layout of a policy needs: it says nothing about reading back. */
  predicate FieldsWrite(fc: FieldCodecs, mode: Mode, v: VestingPolicyInitializer) {
    match v
    case Linear(begin, cliff, duration) =>
      && fc.timePointSec.encode(mode, begin).failure.None?
      && fc.uint32.encode(mode, cliff).failure.None?
      && fc.uint32.encode(mode, duration).failure.None?
    case Cdd(start, seconds) =>
      && fc.timePointSec.encode(mode, start).failure.None?
      && fc.uint32.encode(mode, seconds).failure.None?
    case InstantPolicy => true
  }

  lemma ExpectJsonOnlyPrefix(mode: Mode, t: Token, rest: seq<Token>)
    ensures ExpectJsonOnly(mode, JsonOnly(mode, t) + rest, t) == Ok(rest)
  {
    if mode == Json {
      assert ([t] + rest)[1..] == rest;
    } else {
      assert [] + rest == rest;
    }
  }

  /** Concatenation regrouped to the right, as the decoder consumes it. */
  lemma Regroup(a: seq<Token>, b: seq<Token>, c: seq<Token>, d: seq<Token>, e: seq<Token>, rest: seq<Token>)
    ensures a + b + c + d + e + rest == a + (b + (c + (d + (e + rest))))
    ensures a + b + c + d + rest == a + (b + (c + (d + rest)))
  {
  }

  /** A field that writes its value without failure writes its name (in JSON) and then that value. */
  lemma FieldLayout<X>(mode: Mode, name: string, h: Handler<X>, x: X)
    requires h.encode(mode, x).failure.None?
    ensures Field(mode, name, h, x) == Wrote(JsonOnly(mode, Key(name)) + h.encode(mode, x).out)
  {
  }

  /** A field reads back what it wrote, whatever follows it. */
  lemma FieldRoundTrip<X>(mode: Mode, name: string, h: Handler<X>, x: X, rest: seq<Token>)
    requires HandlerRoundTrips(h, mode, x)
    ensures Field(mode, name, h, x) == Wrote(JsonOnly(mode, Key(name)) + h.encode(mode, x).out)
    ensures ReadField(mode, Field(mode, name, h, x).out + rest, name, h) == Ok((x, rest))
  {
    var k := JsonOnly(mode, Key(name));
    var out := h.encode(mode, x).out;
    assert k + out + rest == k + (out + rest);
    ExpectJsonOnlyPrefix(mode, Key(name), out + rest);
  }

  /** The Linear encoding: braces around the three fields, in declared order. */
  lemma LinearLayout(fc: FieldCodecs, mode: Mode, v: VestingPolicyInitializer)
    requires v.Linear? && FieldsWrite(fc, mode, v)
    ensures EncodeLinear(fc, mode, v) == Wrote(JsonOnly(mode, BeginObject)
      + Field(mode, LINEAR_DESCRIPTOR.elementNames[0], fc.timePointSec, v.beginTimestamp).out
      + Field(mode, LINEAR_DESCRIPTOR.elementNames[1], fc.uint32, v.vestingCliffSeconds).out
      + Field(mode, LINEAR_DESCRIPTOR.elementNames[2], fc.uint32, v.vestingDurationSeconds).out
      + JsonOnly(mode, EndObject))
    ensures mode != Json ==>
      EncodeLinear(fc, mode, v).out ==
        fc.timePointSec.encode(mode, v.beginTimestamp).out
        + fc.uint32.encode(mode, v.vestingCliffSeconds).out
        + fc.uint32.encode(mode, v.vestingDurationSeconds).out
  {
    FieldLayout(mode, LINEAR_DESCRIPTOR.elementNames[0], fc.timePointSec, v.beginTimestamp);
    FieldLayout(mode, LINEAR_DESCRIPTOR.elementNames[1], fc.uint32, v.vestingCliffSeconds);
    FieldLayout(mode, LINEAR_DESCRIPTOR.elementNames[2], fc.uint32, v.vestingDurationSeconds);
  }

  lemma {:induction false} LinearRoundTrip(fc: FieldCodecs, mode: Mode, v: VestingPolicyInitializer, rest: seq<Token>)
    requires v.Linear? && FieldsRoundTrip(fc, mode, v)
    ensures EncodeLinear(fc, mode, v).failure.None?
    ensures DecodeLinear(fc, mode, EncodeLinear(fc, mode, v).out + rest) == Ok((v, rest))
  {
    var names := LINEAR_DESCRIPTOR.elementNames;
    var o := JsonOnly(mode, BeginObject);
    var e := JsonOnly(mode, EndObject);
    var f0 := Field(mode, names[0], fc.timePointSec, v.beginTimestamp);
    var f1 := Field(mode, names[1], fc.uint32, v.vestingCliffSeconds);
    var f2 := Field(mode, names[2], fc.uint32, v.vestingDurationSeconds);
    var r2 := e + rest;
    var r1 := f2.out + r2;
    var r0 := f1.out + r1;
    FieldRoundTrip(mode, names[0], fc.timePointSec, v.beginTimestamp, r0);
    FieldRoundTrip(mode, names[1], fc.uint32, v.vestingCliffSeconds, r1);
    FieldRoundTrip(mode, names[2], fc.uint32, v.vestingDurationSeconds, r2);
    LinearLayout(fc, mode, v);
    Regroup(o, f0.out, f1.out, f2.out, e, rest);
    ExpectJsonOnlyPrefix(mode, BeginObject, f0.out + r0);
    ExpectJsonOnlyPrefix(mode, EndObject, rest);
  }

  /** The Cdd encoding: braces around the two fields, in declared order. */
  lemma CddLayout(fc: FieldCodecs, mode: Mode, v: VestingPolicyInitializer)
    requires v.Cdd? && FieldsWrite(fc, mode, v)
    ensures EncodeCdd(fc, mode, v) == Wrote(JsonOnly(mode, BeginObject)
      + Field(mode, CDD_DESCRIPTOR.elementNames[0], fc.timePointSec, v.startClaim).out
      + Field(mode, CDD_DESCRIPTOR.elementNames[1], fc.uint32, v.vestingSeconds).out
      + JsonOnly(mode, EndObject))
    ensures mode != Json ==>
      EncodeCdd(fc, mode, v).out ==
        fc.timePointSec.encode(mode, v.startClaim).out + fc.uint32.encode(mode, v.vestingSeconds).out
  {
    FieldLayout(mode, CDD_DESCRIPTOR.elementNames[0], fc.timePointSec, v.startClaim);
    FieldLayout(mode, CDD_DESCRIPTOR.elementNames[1], fc.uint32, v.vestingSeconds);
  }

  lemma {:induction false} CddRoundTrip(fc: FieldCodecs, mode: Mode, v: VestingPolicyInitializer, rest: seq<Token>)
    requires v.Cdd? && FieldsRoundTrip(fc, mode, v)
    ensures EncodeCdd(fc, mode, v).failure.None?
    ensures DecodeCdd(fc, mode, EncodeCdd(fc, mode, v).out + rest) == Ok((v, rest))
  {
    var names := CDD_DESCRIPTOR.elementNames;
    var o := JsonOnly(mode, BeginObject);
    var e := JsonOnly(mode, EndObject);
    var f0 := Field(mode, names[0], fc.timePointSec, v.startClaim);
    var f1 := Field(mode, names[1], fc.uint32, v.vestingSeconds);
    var r1 := e + rest;
    var r0 := f1.out + r1;
    FieldRoundTrip(mode, names[0], fc.timePointSec, v.startClaim, r0);
    FieldRoundTrip(mode, names[1], fc.uint32, v.vestingSeconds, r1);
    CddLayout(fc, mode, v);
    Regroup(o, f0.out, f1.out, e, [], rest);
    ExpectJsonOnlyPrefix(mode, BeginObject, f0.out + r0);
    ExpectJsonOnlyPrefix(mode, EndObject, rest);
  }

  lemma {:induction false} InstantRoundTrip(mode: Mode, rest: seq<Token>)
    ensures EncodeInstant(mode, InstantPolicy).failure.None?
    ensures DecodeInstant(mode, EncodeInstant(mode, InstantPolicy).out + rest) == Ok((InstantPolicy, rest))
  {
    var o := JsonOnly(mode, BeginObject);
    var e := JsonOnly(mode, EndObject);
    assert o + e + rest == o + (e + rest);
    ExpectJsonOnlyPrefix(mode, BeginObject, e + rest);
    ExpectJsonOnlyPrefix(mode, EndObject, rest);
  }

  /** The handler `getSerializer` selects for a policy round-trips it. */
  lemma TaggedHandlerOfPolicy(fc: FieldCodecs, mode: Mode, v: VestingPolicyInitializer)
    requires FieldsRoundTrip(fc, mode, v)
    ensures TaggedHandlerRoundTrips(Serializer(fc), mode, v)
  {
    var s := Serializer(fc);
    PolicyTags(fc, v);
    var h := GetSerializer(s, TagOf(s, v)).value;
    match v
    case Linear(_, _, _) =>
      forall rest ensures h.decode(mode, h.encode(mode, v).out + rest) == Ok((v, rest)) {
        LinearRoundTrip(fc, mode, v, rest);
      }
      LinearRoundTrip(fc, mode, v, []);
    case Cdd(_, _) =>
      forall rest ensures h.decode(mode, h.encode(mode, v).out + rest) == Ok((v, rest)) {
        CddRoundTrip(fc, mode, v, rest);
      }
      CddRoundTrip(fc, mode, v, []);
    case InstantPolicy =>
      forall rest ensures h.decode(mode, h.encode(mode, v).out + rest) == Ok((v, rest)) {
        InstantRoundTrip(mode, rest);
      }
      InstantRoundTrip(mode, []);
  }

  /** Every vesting policy survives a JSON round trip through the static
      variant, provided the field serializers round-trip its field values. */
  lemma JsonPolicyRoundTrip(fc: FieldCodecs, v: VestingPolicyInitializer, rest: seq<Token>)
    requires FieldsRoundTrip(fc, Json, v)
    ensures Serialize(Serializer(fc), Json, v).failure.None?
    ensures Deserialize(Serializer(fc), Json, Serialize(Serializer(fc), Json, v).out + rest) == Ok((v, rest))
  {
    TaggedHandlerOfPolicy(fc, Json, v);
    JsonRoundTrip(Serializer(fc), v, rest);
  }

  /** ASSUMED EXTENSION: the same in binary, under the assumed varint layout. */
  lemma BinaryPolicyRoundTrip(fc: FieldCodecs, v: VestingPolicyInitializer, rest: seq<Token>)
    requires FieldsRoundTrip(fc, IO, v)
    ensures Serialize(Serializer(fc), IO, v).failure.None?
    ensures DeserializeBinary(Serializer(fc), Serialize(Serializer(fc), IO, v).out + rest) == Ok((v, rest))
  {
    TaggedHandlerOfPolicy(fc, IO, v);
    BinaryRoundTrip(Serializer(fc), v, rest);
  }

  /** The instant policy carries no data: in binary it is its tag byte alone,
      in JSON an empty object after the tag. */
  lemma InstantCarriesNoData(fc: FieldCodecs)
    ensures Serialize(Serializer(fc), IO, InstantPolicy) == Wrote([Byte(2)])
    ensures Serialize(Serializer(fc), Json, InstantPolicy) == Wrote([BeginList, Num(2), BeginObject, EndObject, EndList])
  {
    var s := Serializer(fc);
    PolicyTags(fc, InstantPolicy);
    SerializeBinaryLayout(s, InstantPolicy);
    SerializeJsonLayout(s, InstantPolicy);
    assert EncodeVarLong(2) == [2];
  }
}
