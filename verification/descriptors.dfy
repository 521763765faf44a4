/** `StaticVarSerialDescriptor`: the structural description of a static variant.

A static variant is described as a two-element LIST: element 0 is the tag,
described as a 64-bit integer, and element 1 is the payload, described by the
descriptor the variant was built with. Element names are the decimal text of
the element index.
 */
module Descriptors {
  import opened Wrappers
  import opened KotlinInt
  import opened Decimal

  /** The descriptors this model needs to tell apart. Equality of the
      descriptors of the serialization library is modelled as structural equality. */
  datatype Descriptor =
    | Primitive(name: string)                        // a `PrimitiveSerialDescriptor`
    | Class(name: string, elementNames: seq<string>) // the generated descriptor of a class
    | StaticVar(element: Descriptor)                 // a `StaticVarSerialDescriptor`

  type StaticVarDescriptor = d: Descriptor | d.StaticVar? witness StaticVar(Primitive("kotlin.Long"))

  datatype Annotation = Annotation(name: string)

  const STATIC_VAR_NAME: string := "StaticVar"
  const ELEMENTS_COUNT: int := 2

  /** `Int64.serializer().descriptor`: graphene's `Int64` is Kotlin's `Long`. */
  const INT64_DESCRIPTOR: Descriptor := Primitive("kotlin.Long")

  function SerialName(d: Descriptor): string {
    match d
    case Primitive(name) => name
    case Class(name, _) => name
    case StaticVar(_) => STATIC_VAR_NAME
  }

  /** The message of the `require` that guards the per-element queries. */
  function NegativeIndexMessage(index: int32): string {
    "Illegal index " + IntToString(index) + ", " + STATIC_VAR_NAME + " expects only non-negative indices"
  }

  /** `getElementName`: the decimal text of the index, for any index. */
  function ElementName(d: StaticVarDescriptor, index: int32): (name: string)
    ensures NumericText(name)
    ensures name[0] != '+' && (name[0] == '-' <==> index < 0)
    ensures var digits := if index < 0 then name[1..] else name; |digits| > 1 ==> digits[0] != '0'
    ensures ElementIndex(d, name) == Ok(index)
  {
    ToIntOrNullOfIntToString(index);
    IntToString(index)
  }

  /** `getElementIndex`: the number a name denotes, without a check against
      the element count; a name that is not an `Int` in decimal, including a
      numeric name outside the `Int` range, is rejected. */
  function ElementIndex(d: StaticVarDescriptor, name: string): (r: Result<int32>)
    ensures r.Ok? ==> NumericText(name)
    ensures !NumericText(name) ==> r == Err(IllegalArgument(name + " is not a valid map index"))
    ensures r.Err? ==> r.error == IllegalArgument(name + " is not a valid map index")
    ensures NumericText(name) ==> (r.Ok? <==> -TWO_31 <= SignedValue(name) < TWO_31)
    ensures r.Ok? ==> r.value == SignedValue(name)
  {
    match ToIntOrNull(name)
    case Some(i) => Ok(i)
    case None => Err(IllegalArgument(name + " is not a valid map index"))
  }

  /** The two elements of a static variant are named "0" and "1". */
  lemma ElementNamesOfElements(d: StaticVarDescriptor)
    ensures ElementName(d, 0) == "0" && ElementName(d, 1) == "1"
  {
  }

  /** A numeric name just outside the `Int` range is not a valid map index,
      while the smallest `Int` is read with its sign. */
  lemma ElementIndexOutOfIntRange(d: StaticVarDescriptor)
    ensures ElementIndex(d, "2147483648").Err?
    ensures ElementIndex(d, "-2147483648") == Ok(-TWO_31)
  {
    ToIntOrNullRefusesOverflow();
  }

  /** `isElementOptional`: no element is optional; negative indices are refused. */
  function IsElementOptional(d: StaticVarDescriptor, index: int32): (r: Result<bool>)
    ensures r.Ok? <==> index >= 0
    ensures r.Ok? ==> !r.value
    ensures r.Err? ==> r.error == IllegalArgument(NegativeIndexMessage(index))
  {
    if index < 0 then Err(IllegalArgument(NegativeIndexMessage(index))) else Ok(false)
  }

  /** `getElementAnnotations`: no element carries annotations; negative indices are refused. */
  function ElementAnnotations(d: StaticVarDescriptor, index: int32): (r: Result<seq<Annotation>>)
    ensures r.Ok? <==> index >= 0
    ensures r.Ok? ==> r.value == []
    ensures r.Err? ==> r.error == IllegalArgument(NegativeIndexMessage(index))
  {
    if index < 0 then Err(IllegalArgument(NegativeIndexMessage(index))) else Ok([])
  }

  /** `getElementDescriptor`: the tag's `Long` descriptor at 0, the payload's at 1;
      a negative index fails the `require`, any other index is "Unreached". */
  function ElementDescriptor(d: StaticVarDescriptor, index: int32): (r: Result<Descriptor>)
    ensures r.Ok? <==> 0 <= index < ELEMENTS_COUNT
    ensures index == 0 ==> r == Ok(INT64_DESCRIPTOR)
    ensures index == 1 ==> r == Ok(d.element)
    ensures index < 0 ==> r == Err(IllegalArgument(NegativeIndexMessage(index)))
    ensures index >= ELEMENTS_COUNT ==> r == Err(IllegalState("Unreached"))
  {
    if index < 0 then Err(IllegalArgument(NegativeIndexMessage(index)))
    else if index == 0 then Ok(INT64_DESCRIPTOR)
    else if index == 1 then Ok(d.element)
    else Err(IllegalState("Unreached"))
  }

  /** The element queries agree on which indices exist: every index the
      descriptor names resolves to its own name and to a descriptor, while the
      per-element queries all refuse exactly the negative indices. */
  lemma ElementQueriesAgree(d: StaticVarDescriptor, index: int32)
    ensures 0 <= index < ELEMENTS_COUNT ==>
      ElementIndex(d, ElementName(d, index)) == Ok(index) && ElementDescriptor(d, index).Ok?
    ensures IsElementOptional(d, index).Err? <==> ElementAnnotations(d, index).Err?
    ensures IsElementOptional(d, index).Err? ==> ElementDescriptor(d, index).Err?
    ensures ElementDescriptor(d, index).Ok? ==> IsElementOptional(d, index) == Ok(false)
  {
  }

  /** `equals`: another descriptor is equal exactly when it is a static-variant
      descriptor with the same serial name and an equal payload descriptor. */
  function Equals(d: StaticVarDescriptor, other: Descriptor): (r: bool)
    ensures r <==> other == d
  {
    other.StaticVar? && SerialName(d) == SerialName(other) && d.element == other.element
  }

  /** `String.hashCode()`: h := 31 * h + c over the characters, in `Int` arithmetic. */
  function StringHash(s: string): (h: int32)
    ensures (h - PolynomialHash(s)) % TWO_32 == 0
  {
    if |s| == 0 then 0
    else
      var prev := StringHash(s[..|s| - 1]);
      var c := s[|s| - 1] as int;
      CongruentStep(prev, PolynomialHash(s[..|s| - 1]), c);
      WrapInt32(31 * prev + c)
  }

  /** The exact value Java documents for `String.hashCode()`:
      the sum of s[i] * 31^(n-1-i), before reduction to 32 bits. */
  function PolynomialHash(s: string): int {
    if |s| == 0 then 0 else 31 * PolynomialHash(s[..|s| - 1]) + s[|s| - 1] as int
  }

  /** Congruence modulo 2^32 is transitive. */
  lemma CongruentTrans(a: int, b: int, c: int)
    requires (a - b) % TWO_32 == 0 && (b - c) % TWO_32 == 0
    ensures (a - c) % TWO_32 == 0
  {
    var q1 := (a - b) / TWO_32;
    var q2 := (b - c) / TWO_32;
    assert a - b == q1 * TWO_32;
    assert b - c == q2 * TWO_32;
    assert a - c == (q1 + q2) * TWO_32;
  }

  /** One hash step `31 * h + c` preserves congruence modulo 2^32. */
  lemma CongruentAffine(a: int, b: int, c: int)
    requires (a - b) % TWO_32 == 0
    ensures ((31 * a + c) - (31 * b + c)) % TWO_32 == 0
  {
    var q := (a - b) / TWO_32;
    assert a - b == q * TWO_32;
    assert (31 * a + c) - (31 * b + c) == (31 * q) * TWO_32;
  }

  /** One step of the hash in `Int` arithmetic keeps two values congruent. */
  lemma CongruentStep(a: int, b: int, c: int)
    requires (a - b) % TWO_32 == 0
    ensures (WrapInt32(31 * a + c) - (31 * b + c)) % TWO_32 == 0
  {
    CongruentAffine(a, b, c);
    CongruentTrans(WrapInt32(31 * a + c), 31 * a + c, 31 * b + c);
  }

  /** `31 * r + e` computed in `Int` arithmetic stays congruent to the exact
      value when `r` is congruent to `p`. */
  lemma HashCombination(r: int, p: int, e: int)
    requires (r - p) % TWO_32 == 0
    ensures (WrapInt32(WrapInt32(31 * r) + e) - (31 * p + e)) % TWO_32 == 0
  {
    var w := WrapInt32(31 * r);
    CongruentAffine(r, p, 0);
    CongruentTrans(w, 31 * r + 0, 31 * p + 0);
    assert (w + e) - (31 * p + e) == w - (31 * p + 0);
    CongruentTrans(WrapInt32(w + e), w + e, 31 * p + e);
  }

  /** `hashCode`: `31 * serialName.hashCode() + elementDescriptor.hashCode()`
      in `Int` arithmetic; `elementHash` stands for the payload descriptor's
      own `hashCode`. */
  function HashCode(d: StaticVarDescriptor, elementHash: Descriptor -> int32): (h: int32)
    ensures (h - (31 * PolynomialHash(STATIC_VAR_NAME) + elementHash(d.element))) % TWO_32 == 0
  {
    var result := StringHash(SerialName(d));
    HashCombination(result, PolynomialHash(SerialName(d)), elementHash(d.element));
    WrapInt32(WrapInt32(31 * result) + elementHash(d.element))
  }

  /** Equal descriptors have equal hashes, and equality is symmetric. */
  lemma EqualsConsistentWithHashCode(a: StaticVarDescriptor, b: StaticVarDescriptor, elementHash: Descriptor -> int32)
    ensures Equals(a, b) ==> HashCode(a, elementHash) == HashCode(b, elementHash)
    ensures Equals(a, b) <==> Equals(b, a)
    ensures Equals(a, b) <==> a.element == b.element
  {
  }

  /** `toString`: the serial name followed by the payload descriptor's text in
      parentheses; `elementText` stands for that text. */
  function ToString(d: StaticVarDescriptor, elementText: string): (s: string)
    ensures |s| == |STATIC_VAR_NAME| + |elementText| + 2
    ensures s[..|STATIC_VAR_NAME| + 1] == STATIC_VAR_NAME + "("
    ensures s[|STATIC_VAR_NAME| + 1..|s| - 1] == elementText
    ensures s[|s| - 1] == ')'
  {
    SerialName(d) + "(" + elementText + ")"
  }
}
