/** What a kotlinx.serialization encoder writes and a decoder reads, abstracted.

The encoder and decoder objects of the source are reduced to a `Mode` (which
kind of encoder or decoder a serializer was handed) and a stream of `Token`s:
structural JSON events in textual mode, raw bytes in binary mode.
 */
module Tokens {
  import opened Wrappers
  import opened Leb128

  /** `Json` is a `JsonEncoder`/`JsonDecoder`, `IO` graphene's binary
      `IOEncoder`, and `Other` any further encoder or decoder implementation. */
  datatype Mode = Json | IO | Other

  datatype Token =
    | BeginList                 // `[`: a structure of kind LIST in JSON
    | EndList                   // `]`
    | BeginObject               // `{`: a class in JSON
    | EndObject                 // `}`
    | Key(name: string)         // a JSON field name
    | Num(value: int)           // a JSON number literal
    | Str(text: string)         // a JSON string literal
    | Byte(b: byte)             // one byte of binary output

  /** The tokens an encoder wrote and the exception, if any, that stopped it.
      A failure does not undo the writes that preceded it. */
  datatype Emit = Emit(out: seq<Token>, failure: Option<Failure>) {

    /** Continue with `next` unless this step already failed. */
    function Then(next: Emit): (r: Emit)
      ensures failure.Some? ==> r == this
      ensures failure.None? ==> r.out == out + next.out && r.failure == next.failure
    {
      if failure.Some? then this else Emit(out + next.out, next.failure)
    }
  }

  /** A successful write of `ts`. */
  function Wrote(ts: seq<Token>): Emit {
    Emit(ts, None)
  }

  /** Three writes in a row: the output of each step that ran, and the first failure. */
  lemma ThreeSteps(a: seq<Token>, b: seq<Token>, p: Emit, c: seq<Token>)
    ensures Wrote(a).Then(Wrote(b)).Then(p).Then(Wrote(c))
      == Emit(a + b + p.out + (if p.failure.None? then c else []), p.failure)
  {
    if p.failure.Some? {
      assert a + b + p.out + [] == a + b + p.out;
    }
  }

  /** The same with nothing written around the middle two steps. */
  lemma BareSteps(b: seq<Token>, p: Emit)
    ensures Wrote([]).Then(Wrote(b)).Then(p).Then(Wrote([])) == Emit(b + p.out, p.failure)
  {
    ThreeSteps([], b, p, []);
    assert [] + b + p.out + [] == b + p.out;
    assert [] + b + p.out == b + p.out;
  }

  /** Binary output as tokens. */
  function Bytes(bs: seq<byte>): (ts: seq<Token>)
    ensures |ts| == |bs|
    ensures forall i :: 0 <= i < |bs| ==> ts[i] == Byte(bs[i])
  {
    seq(|bs|, i requires 0 <= i < |bs| => Byte(bs[i]))
  }

  /** The bytes at the front of a token stream, up to its first non-byte token. */
  function LeadingBytes(ts: seq<Token>): (bs: seq<byte>)
    ensures |bs| <= |ts|
    ensures forall i :: 0 <= i < |bs| ==> ts[i] == Byte(bs[i])
    ensures |bs| < |ts| ==> !ts[|bs|].Byte?
  {
    if |ts| == 0 || !ts[0].Byte? then [] else [ts[0].b] + LeadingBytes(ts[1..])
  }

  lemma {:induction false} LeadingBytesOfBytes(bs: seq<byte>, rest: seq<Token>)
    ensures LeadingBytes(Bytes(bs) + rest) == bs + LeadingBytes(rest)
    decreases |bs|
  {
    if |bs| > 0 {
      assert (Bytes(bs) + rest)[1..] == Bytes(bs[1..]) + rest;
      LeadingBytesOfBytes(bs[1..], rest);
      assert bs == [bs[0]] + bs[1..];
    } else {
      assert Bytes(bs) + rest == rest;
    }
  }
}
