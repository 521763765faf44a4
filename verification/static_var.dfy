/** `StaticVarSerializer`: the codec of a static variant.

A static variant is a closed, ordered list of alternative classes. An
instance is written as a two-element LIST: element 0 is the tag, the position
of the instance's class in the list (written by `VarLongSerializer`), and
element 1 is the instance itself, written by the handler of that class.

The reflection of the source is replaced by explicit parameters: `classOf`
is `value::class`, `derived` is `KClass.serializerOrNull()` (the serializer
the compiler plugin generated for a class, if any), and `fallback` is the map
of explicitly supplied serializers.
 */
module StaticVarCodec {
  import opened Wrappers
  import opened KotlinInt
  import opened Tokens
  import opened Descriptors
  import opened PrimitiveSerializers

  /** A `KClass`, identified by its qualified name. */
  type ClassId = string

  /** A Kotlin `List` holds at most `Int.MAX_VALUE` elements. */
  type ClassList = s: seq<ClassId> | |s| < 0x8000_0000

  /** A `KSerializer` of one alternative: its descriptor, and how it writes a
      value to and reads a value from each kind of encoder and decoder. */
  datatype Handler<!T> = Handler(
    descriptor: Descriptor,
    encode: (Mode, T) -> Emit,
    decode: (Mode, seq<Token>) -> Result<(T, seq<Token>)>)

  /** The construction parameters of a `StaticVarSerializer<T>`. */
  datatype StaticVarSerializer<!T> = StaticVarSerializer(
    classList: ClassList,
    fallback: map<ClassId, Handler<T>>,
    derived: ClassId -> Option<Handler<T>>,
    classOf: T -> ClassId)

  predicate NoDuplicates(list: seq<ClassId>) {
    forall i, j :: 0 <= i < j < |list| ==> list[i] != list[j]
  }

  /** `List.indexOf`: the first position of `c`, or -1 when it is not listed. */
  function IndexOf(list: seq<ClassId>, c: ClassId): (r: int)
    ensures -1 <= r < |list|
    ensures r == -1 <==> c !in list
    ensures r >= 0 ==> list[r] == c
    ensures forall k :: 0 <= k < r ==> list[k] != c
  {
    if |list| == 0 then -1
    else if list[0] == c then 0
    else
      var k := IndexOf(list[1..], c);
      if k == -1 then -1
      else k + 1
  }

  /** The tag of a value: `classList.indexOf(value::class).toInt64()`. */
  function TagOf<T>(s: StaticVarSerializer<T>, v: T): (tag: int64)
    ensures tag == -1 <==> s.classOf(v) !in s.classList
    ensures tag >= 0 ==> tag < |s.classList| && s.classList[tag] == s.classOf(v)
    ensures forall k :: 0 <= k < tag ==> s.classList[k] != s.classOf(v)
  {
    IndexOf(s.classList, s.classOf(v))
  }

  // ----- Construction -----

  /** One entry of `classListInternal`: `fallback.getOrElse(c) { c.serializer() }`,
      where `serializer()` throws for a class without a generated serializer. */
  function InternalHandler<T>(s: StaticVarSerializer<T>, c: ClassId): (r: Result<Handler<T>>)
    ensures c in s.fallback ==> r == Ok(s.fallback[c])
    ensures c !in s.fallback ==> (r.Ok? <==> s.derived(c).Some?)
    ensures c !in s.fallback && s.derived(c).Some? ==> r == Ok(s.derived(c).value)
    ensures r.Err? ==> r.error == SerializerNotFound(c)
  {
    if c in s.fallback then Ok(s.fallback[c])
    else match s.derived(c)
      case Some(h) => Ok(h)
      case None => Err(SerializerNotFound(c))
  }

  /** `classList.map { ... }`: resolves each class in order and stops at the
      first class that has no handler. */
  function InternalHandlers<T>(s: StaticVarSerializer<T>, cs: seq<ClassId>): (r: Result<seq<Handler<T>>>)
    ensures r.Ok? <==> forall i :: 0 <= i < |cs| ==> InternalHandler(s, cs[i]).Ok?
    ensures r.Ok? ==> |r.value| == |cs|
    ensures r.Ok? ==> forall i :: 0 <= i < |cs| ==> InternalHandler(s, cs[i]) == Ok(r.value[i])
    ensures r.Err? ==>
      exists i :: 0 <= i < |cs| && InternalHandler(s, cs[i]) == Err(r.error) &&
        forall k :: 0 <= k < i ==> InternalHandler(s, cs[k]).Ok?
  {
    if |cs| == 0 then Ok([])
    else
      var h :- InternalHandler(s, cs[0]);
      assert forall i :: 1 <= i < |cs| ==> cs[i] == cs[1..][i - 1];
      match InternalHandlers(s, cs[1..])
      case Err(e) =>
        var j :| 0 <= j < |cs| - 1 && InternalHandler(s, cs[1..][j]) == Err(e) &&
          forall k :: 0 <= k < j ==> InternalHandler(s, cs[1..][k]).Ok?;
        assert InternalHandler(s, cs[j + 1]) == Err(e);
        assert forall k :: 0 <= k < j + 1 ==> InternalHandler(s, cs[k]).Ok?;
        Err(e)
      case Ok(hs) => Ok([h] + hs)
  }

  /** What a successfully constructed serializer retains. */
  datatype Construction<!T> = Construction(handlers: seq<Handler<T>>, descriptor: Descriptor)

  /** Object construction: resolve `classListInternal`, then build the declared
      descriptor from the FIRST alternative's handler (`first()` throws on an
      empty list). */
  function Construct<T>(s: StaticVarSerializer<T>): (r: Result<Construction<T>>)
    ensures r.Ok? <==> |s.classList| > 0 && forall i :: 0 <= i < |s.classList| ==> InternalHandler(s, s.classList[i]).Ok?
    ensures r.Ok? ==> |r.value.handlers| == |s.classList|
    ensures r.Ok? ==> forall i :: 0 <= i < |s.classList| ==> InternalHandler(s, s.classList[i]) == Ok(r.value.handlers[i])
    ensures r.Ok? ==> r.value.descriptor == StaticVar(InternalHandler(s, s.classList[0]).value.descriptor)
    ensures |s.classList| == 0 ==> r.Err? && r.error == NoSuchElement
  {
    var hs :- InternalHandlers(s, s.classList);
    if |hs| == 0 then Err(NoSuchElement)
    else Ok(Construction(hs, StaticVar(hs[0].descriptor)))
  }

  // ----- Handler lookup -----

  /** `getSerializer(tag)`: `classList[tag]` (out of bounds for a tag outside the
      list), then the derived serializer, else the fallback (`!!` on null). */
  function GetSerializer<T>(s: StaticVarSerializer<T>, tag: int64): (r: Result<Handler<T>>)
    ensures r.Ok? <==> 0 <= tag < |s.classList| && (s.derived(s.classList[tag]).Some? || s.classList[tag] in s.fallback)
    ensures !(0 <= tag < |s.classList|) ==> r.Err? && r.error == IndexOutOfBounds(tag)
    ensures 0 <= tag < |s.classList| && r.Err? ==> r.error == NullPointer
    ensures 0 <= tag < |s.classList| && s.derived(s.classList[tag]).Some? ==>
      r == Ok(s.derived(s.classList[tag]).value)
    ensures 0 <= tag < |s.classList| && s.derived(s.classList[tag]).None? && s.classList[tag] in s.fallback ==>
      r == Ok(s.fallback[s.classList[tag]])
  {
    if !(0 <= tag < |s.classList|) then Err(IndexOutOfBounds(tag))
    else
      var c := s.classList[tag];
      match s.derived(c)
      case Some(h) => Ok(h)
      case None => if c in s.fallback then Ok(s.fallback[c]) else Err(NullPointer)
  }

  /** Once construction has succeeded, every class of the list has a
      serializer, so the `!!` of `getSerializer` never meets null for a tag
      inside the list. */
  lemma ConstructedNeverNull<T>(s: StaticVarSerializer<T>, tag: int64)
    requires Construct(s).Ok? && 0 <= tag < |s.classList|
    ensures GetSerializer(s, tag).Ok?
  {
    assert InternalHandler(s, s.classList[tag]).Ok?;
  }

  /** The two resolution sites agree except when a class has both a derived
      serializer and a fallback: then `getSerializer` (used to encode and decode)
      takes the derived one while `classListInternal` (used for the declared
      descriptor) takes the fallback. */
  lemma ResolutionSites<T>(s: StaticVarSerializer<T>, tag: int64)
    requires 0 <= tag < |s.classList|
    ensures var c := s.classList[tag];
      s.derived(c).Some? && c in s.fallback ==>
        GetSerializer(s, tag) == Ok(s.derived(c).value) && InternalHandler(s, c) == Ok(s.fallback[c])
    ensures var c := s.classList[tag];
      !(s.derived(c).Some? && c in s.fallback) ==>
        (GetSerializer(s, tag).Ok? <==> InternalHandler(s, c).Ok?) &&
        (GetSerializer(s, tag).Ok? ==> GetSerializer(s, tag) == InternalHandler(s, c))
  {
  }

  // ----- Encoding -----

  /** The structure delimiters `encodeStructure`/`decodeStructure` produce for a
      LIST descriptor: a JSON array, and nothing in binary. */
  function Open(mode: Mode): seq<Token> {
    if mode == Json then [BeginList] else []
  }

  function Close(mode: Mode): seq<Token> {
    if mode == Json then [EndList] else []
  }

  /** A primitive write as an encoder step. */
  function Step(r: Result<seq<Token>>): Emit {
    match r
    case Ok(ts) => Wrote(ts)
    case Err(e) => Emit([], Some(e))
  }

  /** The payload write of element 1, after the handler lookup. */
  function PayloadStep<T>(s: StaticVarSerializer<T>, mode: Mode, tag: int64, v: T): Emit {
    match GetSerializer(s, tag)
    case Ok(h) => h.encode(mode, v)
    case Err(e) => Emit([], Some(e))
  }

  /** `serialize`: `encodeStructure` around the tag as element 0 and the
      payload, written by the handler of the tag's class, as element 1. */
  function Serialize<T>(s: StaticVarSerializer<T>, mode: Mode, v: T): (r: Emit)
    ensures mode == Other ==> r == Emit([], Some(NotImplemented))
    ensures r.failure.None? ==> s.classOf(v) in s.classList && GetSerializer(s, TagOf(s, v)).Ok?
  {
    var tag := TagOf(s, v);
    Wrote(Open(mode)).Then(Step(SerializeVarLong(mode, tag))).Then(PayloadStep(s, mode, tag, v)).Then(Wrote(Close(mode)))
  }

  /** `serialize` to a JSON encoder: `[`, the tag, the payload, and `]` once
      the payload was written without failure. */
  lemma SerializeJsonLayout<T>(s: StaticVarSerializer<T>, v: T)
    ensures var p := PayloadStep(s, Json, TagOf(s, v), v);
      Serialize(s, Json, v) == Emit([BeginList, Num(TagOf(s, v))] + p.out + (if p.failure.None? then [EndList] else []), p.failure)
  {
    var tag := TagOf(s, v);
    var p := PayloadStep(s, Json, tag, v);
    assert Step(SerializeVarLong(Json, tag)) == Wrote([Num(tag)]);
    assert Serialize(s, Json, v) == Wrote([BeginList]).Then(Wrote([Num(tag)])).Then(p).Then(Wrote([EndList]));
    ThreeSteps([BeginList], [Num(tag)], p, [EndList]);
  }

  /** `serialize` to the binary encoder: the tag's varint, then the payload. */
  lemma SerializeBinaryLayout<T>(s: StaticVarSerializer<T>, v: T)
    ensures var p := PayloadStep(s, IO, TagOf(s, v), v);
      Serialize(s, IO, v) == Emit(Bytes(EncodeVarLong(TagOf(s, v))) + p.out, p.failure)
  {
    var tag := TagOf(s, v);
    var bs := Bytes(EncodeVarLong(tag));
    var p := PayloadStep(s, IO, tag, v);
    assert Step(SerializeVarLong(IO, tag)) == Wrote(bs);
    assert Open(IO) == [] && Close(IO) == [];
    BareSteps(bs, p);
  }

  /** In JSON the tag is the first array element, and a completed write
      closes the array. */
  lemma SerializeJsonWritesTagFirst<T>(s: StaticVarSerializer<T>, v: T)
    ensures var r := Serialize(s, Json, v);
      |r.out| >= 2 && r.out[..2] == [BeginList, Num(TagOf(s, v))]
    ensures var r := Serialize(s, Json, v);
      r.failure.None? ==> r.out[|r.out| - 1] == EndList
  {
    SerializeJsonLayout(s, v);
  }

  /** In binary the tag is the varint at the very front, and the payload
      follows it directly. */
  lemma SerializeBinaryWritesTagFirst<T>(s: StaticVarSerializer<T>, v: T)
    ensures ReadVarLong(Serialize(s, IO, v).out) == Ok((TagOf(s, v), PayloadStep(s, IO, TagOf(s, v), v).out))
  {
    SerializeBinaryLayout(s, v);
    ReadVarLongOfEncoding(TagOf(s, v), PayloadStep(s, IO, TagOf(s, v), v).out);
  }

  /** A value of an unlisted class gets tag -1, which is written before the
      handler lookup fails: the failure leaves a partial write. */
  lemma SerializeUnlistedWritesTag<T>(s: StaticVarSerializer<T>, mode: Mode, v: T)
    requires mode != Other && s.classOf(v) !in s.classList
    ensures Serialize(s, mode, v) == Emit(Open(mode) + SerializeVarLong(mode, -1).value, Some(IndexOutOfBounds(-1)))
  {
    var p := PayloadStep(s, mode, -1, v);
    assert p == Emit([], Some(IndexOutOfBounds(-1)));
    if mode == IO {
      SerializeBinaryLayout(s, v);
      assert Bytes(EncodeVarLong(-1)) + [] == Bytes(EncodeVarLong(-1));
    } else {
      SerializeJsonLayout(s, v);
      assert [BeginList, Num(-1)] + [] + [] == [BeginList] + [Num(-1)];
    }
  }

  // ----- Decoding -----

  /** Consume one expected structural token. */
  function Expect(ts: seq<Token>, t: Token): (r: Result<seq<Token>>)
    ensures r.Ok? <==> |ts| > 0 && ts[0] == t
    ensures r.Ok? ==> ts == [t] + r.value
    ensures r.Err? ==> r.error == Malformed
  {
    if |ts| > 0 && ts[0] == t then Ok(ts[1..]) else Err(Malformed)
  }

  /** `deserialize`: read the tag as element 0, look up `classList[tag]`'s
      handler, and read element 1 with it. Only JSON decoders get past the tag:
      `VarLongSerializer` cannot read from any other decoder. */
  function Deserialize<T>(s: StaticVarSerializer<T>, mode: Mode, ts: seq<Token>): (r: Result<(T, seq<Token>)>)
    ensures mode != Json ==> r == Err(NotImplemented)
    ensures r.Ok? ==> |ts| >= 2 && ts[0] == BeginList && ts[1].Num? && 0 <= ts[1].value < |s.classList|
    ensures mode == Json && |ts| >= 2 && ts[0] == BeginList && ts[1].Num? &&
            -TWO_63 <= ts[1].value < TWO_63 && !(0 <= ts[1].value < |s.classList|) ==>
              r == Err(IndexOutOfBounds(ts[1].value))
  {
    if mode != Json then Err(NotImplemented)
    else
      var afterOpen :- Expect(ts, BeginList);
      var tag :- DeserializeVarLong(Json, afterOpen);
      var h :- GetSerializer(s, tag.0);
      var payload :- h.decode(Json, tag.1);
      var afterClose :- Expect(payload.1, EndList);
      Ok((payload.0, afterClose))
  }

  /** ASSUMED EXTENSION (the source cannot decode binary input): read a
      varint tag, then the payload with the handler of `classList[tag]`. */
  function DeserializeBinary<T>(s: StaticVarSerializer<T>, ts: seq<Token>): (r: Result<(T, seq<Token>)>)
    ensures r.Ok? ==> ReadVarLong(ts).Ok? && 0 <= ReadVarLong(ts).value.0 < |s.classList|
  {
    var tag :- ReadVarLong(ts);
    var h :- GetSerializer(s, tag.0);
    h.decode(IO, tag.1)
  }

  // ----- Round trips -----

  /** A handler writes `v` without failing and reads it back, leaving whatever
      follows its own output untouched. */
  ghost predicate HandlerRoundTrips<T>(h: Handler<T>, mode: Mode, v: T) {
    && h.encode(mode, v).failure.None?
    && forall rest :: h.decode(mode, h.encode(mode, v).out + rest) == Ok((v, rest))
  }

  /** The handler `serialize` and `deserialize` use for `v`'s alternative. */
  ghost predicate TaggedHandlerRoundTrips<T>(s: StaticVarSerializer<T>, mode: Mode, v: T) {
    && s.classOf(v) in s.classList
    && GetSerializer(s, TagOf(s, v)).Ok?
    && HandlerRoundTrips(GetSerializer(s, TagOf(s, v)).value, mode, v)
  }

  /** JSON round trip: decoding what `serialize` wrote yields the same value,
      and hence the same alternative, whenever that alternative's handler
      round-trips. */
  lemma {:induction false} JsonRoundTrip<T>(s: StaticVarSerializer<T>, v: T, rest: seq<Token>)
    requires TaggedHandlerRoundTrips(s, Json, v)
    ensures Serialize(s, Json, v).failure.None?
    ensures Deserialize(s, Json, Serialize(s, Json, v).out + rest) == Ok((v, rest))
  {
    var tag := TagOf(s, v);
    var h := GetSerializer(s, tag).value;
    var payload := h.encode(Json, v).out;
    SerializeJsonLayout(s, v);
    var out := Serialize(s, Json, v).out;
    assert out == [BeginList, Num(tag)] + payload + [EndList];
    var ts := out + rest;
    assert ts[1..] == [Num(tag)] + (payload + ([EndList] + rest));
    assert ts[2..] == payload + ([EndList] + rest);
    assert h.decode(Json, payload + ([EndList] + rest)) == Ok((v, [EndList] + rest));
  }

  /** ASSUMED EXTENSION, binary round trip: the varint tag is self-delimiting,
      so the payload handler starts reading exactly where the tag ended. */
  lemma {:induction false} BinaryRoundTrip<T>(s: StaticVarSerializer<T>, v: T, rest: seq<Token>)
    requires TaggedHandlerRoundTrips(s, IO, v)
    ensures Serialize(s, IO, v).failure.None?
    ensures DeserializeBinary(s, Serialize(s, IO, v).out + rest) == Ok((v, rest))
  {
    var tag := TagOf(s, v);
    var h := GetSerializer(s, tag).value;
    var payload := h.encode(IO, v).out;
    SerializeBinaryLayout(s, v);
    var out := Serialize(s, IO, v).out;
    assert out == Bytes(EncodeVarLong(tag)) + payload;
    assert out + rest == Bytes(EncodeVarLong(tag)) + (payload + rest);
    ReadVarLongOfEncoding(tag, payload + rest);
  }

  /** A decoded value belongs to the alternative its tag names, provided the
      handler at that position only produces values of its own class. */
  lemma DeserializeYieldsTaggedAlternative<T>(s: StaticVarSerializer<T>, ts: seq<Token>, tag: int64)
    requires |ts| >= 2 && ts[0] == BeginList && ts[1] == Num(tag)
    requires GetSerializer(s, tag).Ok?
    requires forall input :: GetSerializer(s, tag).value.decode(Json, input).Ok? ==>
      s.classOf(GetSerializer(s, tag).value.decode(Json, input).value.0) == s.classList[tag]
    ensures Deserialize(s, Json, ts).Ok? ==> s.classOf(Deserialize(s, Json, ts).value.0) == s.classList[tag]
  {
    if Deserialize(s, Json, ts).Ok? {
      assert ts[1..][1..] == ts[2..];
      var h := GetSerializer(s, tag).value;
      assert h.decode(Json, ts[2..]).Ok?;
    }
  }

  // ----- Ordering -----

  /** `comparator`: the difference of the two values' list positions, an
      unlisted class counting as position -1. The difference always fits in an
      `Int` because positions lie in [-1, Int.MAX_VALUE - 1]. */
  function Compare<T>(s: StaticVarSerializer<T>, a: T, b: T): (r: int32)
    ensures r == 0 <==> s.classOf(a) == s.classOf(b) || (s.classOf(a) !in s.classList && s.classOf(b) !in s.classList)
    ensures s.classOf(a) !in s.classList && s.classOf(b) in s.classList ==> r < 0
    ensures s.classOf(a) in s.classList && s.classOf(b) !in s.classList ==> r > 0
  {
    IndexOf(s.classList, s.classOf(a)) - IndexOf(s.classList, s.classOf(b))
  }

  /** With no class listed twice, the comparator orders values by the
      positions of their classes, and only by them. */
  lemma CompareFollowsPosition<T>(s: StaticVarSerializer<T>, a: T, b: T, i: nat, j: nat)
    requires NoDuplicates(s.classList)
    requires i < |s.classList| && s.classList[i] == s.classOf(a)
    requires j < |s.classList| && s.classList[j] == s.classOf(b)
    ensures Compare(s, a, b) < 0 <==> i < j
    ensures Compare(s, a, b) == 0 <==> i == j
    ensures Compare(s, a, b) > 0 <==> i > j
  {
    assert TagOf(s, a) == i;
    assert TagOf(s, b) == j;
  }

  /** "Compares at most" is a total preorder, and the comparator is antisymmetric. */
  lemma CompareIsTotalPreorder<T>(s: StaticVarSerializer<T>, a: T, b: T, c: T)
    ensures Compare(s, a, a) == 0
    ensures Compare(s, a, b) <= 0 || Compare(s, b, a) <= 0
    ensures Compare(s, a, b) <= 0 && Compare(s, b, c) <= 0 ==> Compare(s, a, c) <= 0
    ensures Compare(s, a, b) == -Compare(s, b, a)
  {
  }
}
