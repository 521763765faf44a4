/** Unsigned LEB128, the varint layout assumed for graphene's `IOEncoder`.

`IOEncoder.encodeVarLong` and `encodeVarInt` are not part of this model. Their
byte layout is ASSUMED to be unsigned LEB128 (DWARF Version 4, section 7.6;
the same scheme as Protocol Buffers base-128 varints): seven payload bits per
byte, least significant group first, the high bit set on every byte except
the last. The decoder below is an assumed extension as well: the modelled
source never decodes binary input.
 */
module Leb128 {
  import opened Wrappers

  type byte = b: int | 0 <= b < 256

  /** True when every byte of `bs` carries the continuation bit. */
  predicate AllContinue(bs: seq<byte>) {
    forall i :: 0 <= i < |bs| ==> bs[i] >= 128
  }

  function Pow128(k: nat): (p: nat)
    ensures p >= 1
  {
    if k == 0 then 1 else 128 * Pow128(k - 1)
  }

  /** The varint bytes of `n`. */
  function Encode(n: nat): (bs: seq<byte>)
    ensures |bs| >= 1
    ensures bs[|bs| - 1] < 128
    ensures |bs| == 1 <==> n < 128
    ensures |bs| > 1 ==> bs[|bs| - 1] != 0
    decreases n
  {
    if n < 128 then [n] else [n % 128 + 128] + Encode(n / 128)
  }

  /** Every byte of an encoding but the last carries the continuation bit. */
  lemma {:induction false} EncodeContinuesUntilLast(n: nat)
    ensures AllContinue(Encode(n)[..|Encode(n)| - 1])
    decreases n
  {
    if n >= 128 {
      var bs := Encode(n);
      var tail := Encode(n / 128);
      EncodeContinuesUntilLast(n / 128);
      assert bs[..|bs| - 1] == [bs[0]] + tail[..|tail| - 1];
    }
  }

  /** The value of the varint at the front of `bs` and the number of bytes it
      occupies; MalformedVarint when no byte terminates it. */
  function Decode(bs: seq<byte>): (r: Result<(nat, nat)>)
    ensures r.Ok? ==> 1 <= r.value.1 <= |bs| && bs[r.value.1 - 1] < 128
    ensures r.Err? ==> r.error == MalformedVarint
  {
    if |bs| == 0 then Err(MalformedVarint)
    else if bs[0] < 128 then Ok((bs[0], 1))
    else
      match Decode(bs[1..])
      case Err(e) => Err(e)
      case Ok(p) => Ok((bs[0] - 128 + 128 * p.0, p.1 + 1))
  }

  /** Decoding stops at the first byte without the continuation bit. */
  lemma {:induction false} DecodeStopsAtFirstTerminator(bs: seq<byte>)
    requires Decode(bs).Ok?
    ensures AllContinue(bs[..Decode(bs).value.1 - 1])
    decreases |bs|
  {
    if bs[0] >= 128 {
      var k := Decode(bs[1..]).value.1;
      DecodeStopsAtFirstTerminator(bs[1..]);
      assert bs[..k] == [bs[0]] + bs[1..][..k - 1];
    }
  }

  /** Decoding fails exactly when no byte of the input terminates a varint. */
  lemma {:induction false} DecodeFailsIffUnterminated(bs: seq<byte>)
    ensures Decode(bs).Err? <==> AllContinue(bs)
    decreases |bs|
  {
    if |bs| > 0 && bs[0] >= 128 {
      DecodeFailsIffUnterminated(bs[1..]);
      assert AllContinue(bs) <==> AllContinue(bs[1..]) by {
        assert forall i :: 0 < i < |bs| ==> bs[i] == bs[1..][i - 1];
      }
    }
  }

  /** Decoding reads back exactly the encoded value and stops at its last byte,
      whatever follows it. */
  lemma {:induction false} DecodeEncode(n: nat, rest: seq<byte>)
    ensures Decode(Encode(n) + rest) == Ok((n, |Encode(n)|))
    decreases n
  {
    if n >= 128 {
      var bs := Encode(n) + rest;
      DecodeEncode(n / 128, rest);
      assert bs[0] == n % 128 + 128;
      assert bs[1..] == Encode(n / 128) + rest;
      DecodeContinued(bs);
    } else {
      assert (Encode(n) + rest)[0] == n;
    }
  }

  /** A decoded varint without a redundant trailing zero byte is exactly the
      encoding of its value: the layout is canonical. */
  lemma {:induction false} EncodeDecoded(bs: seq<byte>, n: nat, k: nat)
    requires Decode(bs) == Ok((n, k))
    requires k == 1 || bs[k - 1] != 0
    ensures Encode(n) == bs[..k]
    decreases |bs|
  {
    if bs[0] >= 128 {
      DecodeContinued(bs);
      var p := Decode(bs[1..]).value;
      assert bs[1..][p.1 - 1] == bs[p.1];
      EncodeDecoded(bs[1..], p.0, p.1);
      NonZeroBeforeNonZeroByte(bs[1..], p.0, p.1);
      CanonicalStep(bs, p.1, p.0);
    } else {
      assert bs[..1] == [bs[0]];
    }
  }

  /** Only zero encodes as a lone zero byte. */
  lemma NonZeroBeforeNonZeroByte(t: seq<byte>, n: nat, k: nat)
    requires 1 <= k <= |t| && Encode(n) == t[..k] && t[k - 1] != 0
    ensures n >= 1
  {
  }

  /** A continuation byte in front of the encoding of a non-zero value. */
  lemma CanonicalStep(bs: seq<byte>, k: nat, hi: nat)
    requires 1 <= k < |bs| && bs[0] >= 128 && hi >= 1
    requires Encode(hi) == bs[1..][..k]
    ensures Encode(bs[0] - 128 + 128 * hi) == bs[..k + 1]
  {
    EncodeGroup(bs[0] - 128, hi);
    assert bs[..k + 1] == [bs[0]] + bs[1..][..k];
  }

  /** A leading continuation byte adds its seven bits below the rest. */
  lemma DecodeContinued(bs: seq<byte>)
    requires |bs| > 0 && bs[0] >= 128
    ensures Decode(bs).Ok? <==> Decode(bs[1..]).Ok?
    ensures Decode(bs).Ok? ==>
      Decode(bs) == Ok((bs[0] - 128 + 128 * Decode(bs[1..]).value.0, Decode(bs[1..]).value.1 + 1))
  {
  }

  /** A value with a non-zero high part encodes as its low seven bits with the
      continuation bit, followed by the encoding of the high part. */
  lemma EncodeGroup(lo: nat, hi: nat)
    requires lo < 128 && hi >= 1
    ensures Encode(lo + 128 * hi) == [lo + 128] + Encode(hi)
  {
    assert (lo + 128 * hi) / 128 == hi;
    assert (lo + 128 * hi) % 128 == lo;
  }

  /** Values below 128^k take at most k bytes; in particular a 64-bit pattern
      takes at most ten. */
  lemma {:induction false} EncodeLength(n: nat, k: nat)
    requires k >= 1 && n < Pow128(k)
    ensures |Encode(n)| <= k
    decreases k
  {
    if n >= 128 {
      assert k >= 2;
      assert Pow128(k) == 128 * Pow128(k - 1);
      assert n / 128 < Pow128(k - 1);
      EncodeLength(n / 128, k - 1);
      assert Encode(n) == [n % 128 + 128] + Encode(n / 128);
    }
  }

  /** Values of at least 128^k take more than k bytes. */
  lemma {:induction false} EncodeLengthAtLeast(n: nat, k: nat)
    requires n >= Pow128(k)
    ensures |Encode(n)| > k
    decreases k
  {
    if k > 0 {
      assert Pow128(k) == 128 * Pow128(k - 1);
      assert n / 128 >= Pow128(k - 1);
      EncodeLengthAtLeast(n / 128, k - 1);
      assert Encode(n) == [n % 128 + 128] + Encode(n / 128);
    }
  }

  lemma EncodeLength64(n: nat)
    requires n < 0x1_0000_0000_0000_0000
    ensures |Encode(n)| <= 10
  {
    assert Pow128(10) == 0x40_0000_0000_0000_0000;
    EncodeLength(n, 10);
  }

  /** The boundary values: 0 and 127 take one byte, 128 takes two. */
  lemma EncodeBoundaries()
    ensures Encode(0) == [0x00]
    ensures Encode(127) == [0x7F]
    ensures Encode(128) == [0x80, 0x01]
    ensures Encode(300) == [0xAC, 0x02]
  {
  }
}
