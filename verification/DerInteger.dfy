/**
 The two INTEGER encoders: `der_integer_i32` of src/krb5_san.rs (two's
 complement, stripping sign octets) and `encode_integer_der` of
 src/ca/revoke.rs (unsigned, adding a sign octet).
 */
module DerInteger {
  import opened Common
  import opened Octets
  import opened Der

  // ------------------------------------------------------------ reference

  /** Two's-complement value of INTEGER content octets (section 8.3.3 of ITU-T X.690). */
  ghost function SignedBe(bs: Bytes): int {
    if bs != [] && bs[0] >= 128 then BeNat(bs) - Pow256(|bs|) else BeNat(bs)
  }

  predicate RedundantLead(bs: Bytes) {
    |bs| > 1 && ((bs[0] == 0 && bs[1] < 128) || (bs[0] == 255 && bs[1] >= 128))
  }

  /** Section 8.3.2 of ITU-T X.690: the first nine bits are not all alike. */
  predicate Minimal(bs: Bytes) {
    bs != [] && !RedundantLead(bs)
  }

  lemma SignedRange(bs: Bytes)
    requires bs != []
    ensures -2 * SignedBe(bs) <= Pow256(|bs|) && 2 * SignedBe(bs) < Pow256(|bs|)
    ensures SignedBe(bs) < 0 <==> bs[0] >= 128
  {
    BeNatBound(bs);
    BeNatBound(bs[1..]);
    if bs[0] >= 128 {
      MulMonotone(128, bs[0], Pow256(|bs| - 1));
    } else {
      MulMonotone(bs[0], 127, Pow256(|bs| - 1));
    }
  }

  /** More than one octet without a redundant lead cannot hold a value one octet less could. */
  lemma MinimalRange(bs: Bytes)
    requires Minimal(bs) && |bs| > 1
    ensures -2 * SignedBe(bs) > Pow256(|bs| - 1) || 2 * SignedBe(bs) >= Pow256(|bs| - 1)
  {
    var p, t := Pow256(|bs| - 1), bs[1..];
    BeNatBound(t);
    BeNatBound(t[1..]);
    var q := Pow256(|t| - 1);
    if bs[0] == 0 {
      MulMonotone(128, t[0], q);
    } else if bs[0] == 255 {
      MulMonotone(t[0], 127, q);
    } else {
      MulMonotone(1, bs[0], p);
      MulMonotone(bs[0], 254, p);
    }
  }

  lemma DropRedundant(bs: Bytes)
    requires RedundantLead(bs)
    ensures SignedBe(bs[1..]) == SignedBe(bs)
  {
  }

  /** Minimal content octets with equal values are equal: the canonical form. */
  lemma {:induction false} MinimalUnique(a: Bytes, b: Bytes)
    requires Minimal(a) && Minimal(b) && SignedBe(a) == SignedBe(b)
    ensures a == b
  {
    SignedRange(a);
    SignedRange(b);
    if |a| < |b| {
      MinimalRange(b);
      Pow256Monotone(|a|, |b| - 1);
    } else if |b| < |a| {
      MinimalRange(a);
      Pow256Monotone(|b|, |a| - 1);
    } else {
      BeNatInjective(a, b);
    }
  }

  // ------------------------------------------------- src/krb5_san.rs

  function I32Bytes(n: int): Bytes
    requires -0x8000_0000 <= n < 0x8000_0000
  {
    BeBytes(if n < 0 then n + 0x1_0000_0000 else n, 4)
  }

  function StripSign(bs: Bytes): (r: Bytes)
    requires bs != []
    ensures Minimal(r) && SignedBe(r) == SignedBe(bs)
    ensures |r| <= |bs|
  {
    if RedundantLead(bs) then DropRedundant(bs); StripSign(bs[1..]) else bs
  }

  function IntegerContentI32(n: int): (r: Bytes)
    requires -0x8000_0000 <= n < 0x8000_0000
    ensures 1 <= |r| <= 4
  {
    StripSign(I32Bytes(n))
  }

  lemma I32Value(n: int)
    requires -0x8000_0000 <= n < 0x8000_0000
    ensures SignedBe(I32Bytes(n)) == n
  {
    var u := if n < 0 then n + 0x1_0000_0000 else n;
    Pow256Values();
    BeNatOfBytes(u, 4);
    var bs := I32Bytes(n);
    SignedRange(bs);
    assert n < 0 <==> 2 * u >= Pow256(4);
  }

  /** `der_integer_i32` writes the one minimal encoding of its argument. */
  method DerIntegerI32(n: int) returns (out: Bytes)
    requires -0x8000_0000 <= n < 0x8000_0000
    ensures out == Tlv(0x02, IntegerContentI32(n))
    ensures |out| <= 6 && out[..2] == [0x02, |out| - 2]
    ensures Minimal(out[2..]) && SignedBe(out[2..]) == n
  {
    var bytes := I32Bytes(n);
    I32Value(n);
    var start := 0;
    while start < 3
      invariant 0 <= start <= 3
      invariant StripSign(bytes[start..]) == StripSign(bytes)
    {
      var hi := bytes[start];
      var nextMsb := bytes[start + 1] >= 0x80;
      assert bytes[start..][1..] == bytes[start + 1..];
      if (hi == 0x00 && !nextMsb) || (hi == 0xFF && nextMsb) {
        start := start + 1;
      } else {
        break;
      }
    }
    assert StripSign(bytes[start..]) == bytes[start..];
    out := DerTag(0x02, bytes[start..]);
    assert out[2..] == bytes[start..];
  }

  // ------------------------------------------------- src/ca/revoke.rs

  ghost function IntegerContentU64(n: nat): Bytes {
    var t := TrimZeros(BeBytes(n, 8));
    if t[0] >= 128 then [0] + t else t
  }

  /** Leading zero octets removed, the last octet always kept. */
  ghost function TrimZeros(bs: Bytes): (r: Bytes)
    requires bs != []
    ensures r != [] && |r| <= |bs| && BeNat(r) == BeNat(bs)
    ensures |r| > 1 ==> r[0] != 0
  {
    if |bs| > 1 && bs[0] == 0 then TrimZeros(bs[1..]) else bs
  }

  lemma IntegerContentU64Canonical(n: nat)
    requires n < 0x1_0000_0000_0000_0000
    ensures var c := IntegerContentU64(n); |c| <= 9 && Minimal(c) && c[0] < 128 && BeNat(c) == n
  {
    Pow256Values();
    BeNatOfBytes(n, 8);
    var t := TrimZeros(BeBytes(n, 8));
    assert ([0] + t)[1..] == t;
  }

  /** `encode_integer_der` writes the one minimal encoding of its argument. */
  method EncodeIntegerDer(n: nat) returns (out: Bytes)
    requires n < 0x1_0000_0000_0000_0000
    ensures out == Tlv(0x02, IntegerContentU64(n))
    ensures |out| <= 11 && Minimal(out[2..]) && SignedBe(out[2..]) == n
  {
    var bytes := BeBytes(n, 8);
    var start := 0;
    while start < 7 && bytes[start] == 0
      invariant 0 <= start <= 7
      invariant TrimZeros(bytes[start..]) == TrimZeros(bytes)
    {
      assert bytes[start..][1..] == bytes[start + 1..];
      start := start + 1;
    }
    var trimmed := bytes[start..];
    IntegerContentU64Canonical(n);
    assert trimmed == TrimZeros(bytes);
    out := PadAndTag(trimmed);
    ShortTlv(0x02, IntegerContentU64(n));
    SignedIsBe(IntegerContentU64(n));
  }

  /** The end of `encode_integer_der`: a sign octet where the first bit is set. */
  method PadAndTag(trimmed: Bytes) returns (out: Bytes)
    requires 1 <= |trimmed| <= 8
    ensures out == Tlv(0x02, if trimmed[0] >= 128 then [0] + trimmed else trimmed)
  {
    var needsPad := trimmed[0] >= 0x80;
    var valueLen := |trimmed| + if needsPad then 1 else 0;
    out := [0x02];
    out := out + [valueLen];
    if needsPad {
      out := out + [0x00];
    }
    out := out + trimmed;
  }

  lemma ShortTlv(tag: byte, content: Bytes)
    requires |content| < 128
    ensures |Tlv(tag, content)| == |content| + 2 && Tlv(tag, content)[2..] == content
  {
  }

  lemma SignedIsBe(bs: Bytes)
    requires bs != [] && bs[0] < 128
    ensures SignedBe(bs) == BeNat(bs)
  {
  }

  /** On every value both accept, the two encoders write the same octets. */
  lemma EncodersAgree(n: nat)
    requires n < 0x8000_0000
    ensures Tlv(0x02, IntegerContentI32(n)) == Tlv(0x02, IntegerContentU64(n))
  {
    I32Value(n);
    IntegerContentU64Canonical(n);
    MinimalUnique(IntegerContentI32(n), IntegerContentU64(n));
  }

  /** `strip_int` reads every unsigned value back and leaves the rest untouched. */
  lemma StripIntRoundTrip(n: nat, rest: Bytes)
    requires n < 0x1_0000_0000_0000_0000
    ensures var r := StripInt(Tlv(0x02, IntegerContentU64(n)) + rest);
      r.Some? && BeNat(r.value.0) == n && r.value.1 == rest
  {
    IntegerContentU64Canonical(n);
    StripIntOf(IntegerContentU64(n), rest);
  }

  lemma StripIntOf(c: Bytes, rest: Bytes)
    requires 1 <= |c| < 128
    ensures var r := StripInt(Tlv(0x02, c) + rest);
      r.Some? && BeNat(r.value.0) == BeNat(c) && r.value.1 == rest
  {
    TlvParts(0x02, c, rest);
    LengthRoundTrip(|c|, c + rest);
    assert (c + rest)[..|c|] == c && (c + rest)[|c|..] == rest;
    assert c[0] == 0 ==> BeNat(c) == BeNat(c[1..]);
  }
}
