/**
 DER length octets and tag-length-value: the writer of src/krb5_san.rs, the
 reader of benches/acme_bench.rs and the reader of src/ca/init.rs, each
 written separately in the source.
 */
module Der {
  import opened Common
  import opened Octets
  import opened Lists

  const USIZE_MOD: nat := 0x1_0000_0000_0000_0000

  // ---------------------------------------------------------------- writer

  /** What `encode_length` pushes. The casts to `u8` keep the low octet only. */
  function LengthOctets(len: nat): (r: Bytes)
    ensures 1 <= |r| <= 3
  {
    if len < 128 then [len]
    else if len < 256 then [0x81, len]
    else [0x82, (len / 256) % 256, len % 256]
  }

  function Tlv(tag: byte, content: Bytes): (r: Bytes)
    ensures |content| + 2 <= |r| <= |content| + 4
  {
    [tag] + LengthOctets(|content|) + content
  }

  method EncodeLength(out: Bytes, len: nat) returns (r: Bytes)
    ensures r == out + LengthOctets(len)
  {
    r := out;
    if len < 128 {
      r := r + [len];
    } else if len < 256 {
      r := r + [0x81];
      r := r + [len];
    } else {
      r := r + [0x82];
      r := r + [(len / 256) % 256];
      r := r + [len % 256];
    }
  }

  method DerTag(tag: byte, content: Bytes) returns (out: Bytes)
    ensures out == Tlv(tag, content)
  {
    out := [tag];
    out := EncodeLength(out, |content|);
    out := out + content;
  }

  function Sequence(content: Bytes): Bytes { Tlv(0x30, content) }

  function Explicit(num: nat, content: Bytes): Bytes
    requires num < 32
  {
    Tlv(0xA0 + num, content)
  }

  // -------------------------------------- reader of benches/acme_bench.rs

  function DecodeLen(buf: Bytes): Option<(nat, Bytes)> {
    if buf == [] then None
    else if buf[0] < 0x80 then Some((buf[0] as nat, buf[1..]))
    else if buf[0] == 0x81 then
      if |buf| < 2 then None else Some((buf[1] as nat, buf[2..]))
    else if buf[0] == 0x82 then
      if |buf| < 3 then None else Some((buf[1] as nat * 256 + buf[2] as nat, buf[3..]))
    else None
  }

  function StripTlv(buf: Bytes, tag: byte): Option<Bytes> {
    if buf == [] || buf[0] != tag then None
    else
      var (len, rest) :- DecodeLen(buf[1..]);
      if len <= |rest| then Some(rest[..len]) else None
  }

  function StripInt(buf: Bytes): Option<(Bytes, Bytes)> {
    if buf == [] || buf[0] != 0x02 then None
    else
      var (len, rest) :- DecodeLen(buf[1..]);
      if len > |rest| then None
      else
        var whole := rest[..len];
        Some((if len > 0 && whole[0] == 0 then whole[1..] else whole, rest[len..]))
  }

  /** Tag check and length reading with the unread rest kept. */
  function ReadTlv(tag: byte, buf: Bytes): (r: Option<(Bytes, Bytes)>)
    ensures r.Some? ==> |r.value.0| + |r.value.1| < |buf|
  {
    if buf == [] || buf[0] != tag then None
    else
      var (len, rest) :- DecodeLen(buf[1..]);
      if len <= |rest| then Some((rest[..len], rest[len..])) else None
  }

  /** The written length is read back exactly when it fits the three forms. */
  lemma LengthRoundTrip(n: nat, rest: Bytes)
    ensures DecodeLen(LengthOctets(n) + rest) == Some((n % 65536, rest))
    ensures DecodeLen(LengthOctets(n) + rest) == Some((n, rest)) <==> n < 65536
  {
    var b := LengthOctets(n) + rest;
    assert b[|LengthOctets(n)|..] == rest;
  }

  lemma TlvParts(tag: byte, content: Bytes, rest: Bytes)
    ensures var b := Tlv(tag, content) + rest;
      b[0] == tag && b[1..] == LengthOctets(|content|) + (content + rest)
  {
  }

  /** `strip_tlv` undoes `der_tag`, whatever follows, exactly below 65536 octets. */
  lemma TlvRoundTrip(tag: byte, content: Bytes, rest: Bytes)
    ensures StripTlv(Tlv(tag, content) + rest, tag) == Some(content) <==> |content| < 65536
    ensures ReadTlv(tag, Tlv(tag, content) + rest) == Some((content, rest)) <==> |content| < 65536
    ensures |content| >= 65536 ==>
      var r := ReadTlv(tag, Tlv(tag, content) + rest);
      r.Some? && |r.value.0| == |content| % 65536 && r.value.1 != []
  {
    var n := |content|;
    TlvParts(tag, content, rest);
    LengthRoundTrip(n, content + rest);
    var body := content + rest;
    assert body[..n] == content && body[n..] == rest;
    if n >= 65536 {
      var m := n % 65536;
      assert m < n;
      assert |body[..m]| != |content|;
    }
  }

  // -------------------------------------------- reader of src/ca/init.rs

  /** Definite-form length octets of any width, as section 8.1.3 of ITU-T X.690 gives them. */
  ghost function BerLength(buf: Bytes): Option<(nat, Bytes)> {
    if buf == [] then None
    else if buf[0] < 0x80 then Some((buf[0], buf[1..]))
    else if |buf| < 1 + (buf[0] - 0x80) then None
    else Some((BeNat(buf[1..1 + (buf[0] - 0x80)]), buf[1 + (buf[0] - 0x80)..]))
  }

  /** Outcome of `compute_aki_from_spki` once the extension value is at hand. */
  datatype AkiOutcome = Found(hash: Bytes) | Missing | OutOfRange

  /** What the reader must return, in terms of the reference length. */
  ghost function AkiSpec(ski: Bytes): AkiOutcome {
    if |ski| < 2 || ski[0] != 0x04 then Missing
    else match BerLength(ski[1..])
      case None => Missing
      case Some((n, rest)) =>
        var len := n % USIZE_MOD;
        if |ski| - |rest| + len >= USIZE_MOD then OutOfRange
        else if len > |rest| then Missing
        else Found(rest[..len])
  }

  lemma WrapStep(x: nat, b: byte)
    ensures ((x % USIZE_MOD) * 256) % USIZE_MOD + b == (x * 256 + b) % USIZE_MOD
  {
    var q, r := x / 0x1_0000_0000_0000_0000, x % 0x1_0000_0000_0000_0000;
    var q2, r2 := r / 0x100_0000_0000_0000, r % 0x100_0000_0000_0000;
    WrapOf(q2, r2 * 256);
    WrapOf(q * 256 + q2, r2 * 256 + b);
  }

  lemma WrapOf(k: nat, r: nat)
    requires r < 0x1_0000_0000_0000_0000
    ensures (k * 0x1_0000_0000_0000_0000 + r) % 0x1_0000_0000_0000_0000 == r
  {
  }

  /** Folding octets into a `usize`: the shift drops the high bits. */
  method ReadLongLength(octets: Bytes) returns (len: nat)
    ensures len == BeNat(octets) % USIZE_MOD
  {
    len := 0;
    for i := 0 to |octets|
      invariant len == BeNat(octets[..i]) % USIZE_MOD
    {
      assert octets[..i + 1] == octets[..i] + [octets[i]];
      BeNatAppend(octets[..i], octets[i]);
      WrapStep(BeNat(octets[..i]), octets[i]);
      len := (len * 256) % USIZE_MOD + octets[i];
    }
    assert octets[..|octets|] == octets;
  }

  /** The reference length of what follows the tag, as slices of the whole. */
  lemma LengthAt(ski: Bytes)
    requires |ski| >= 2
    ensures ski[1] < 0x80 ==> BerLength(ski[1..]) == Some((ski[1] as nat, ski[2..]))
    ensures ski[1] >= 0x80 ==>
      var n := ski[1] - 0x80;
      BerLength(ski[1..])
      == if |ski| < 2 + n then None else Some((BeNat(ski[2..2 + n]), ski[2 + n..]))
  {
    SliceOfTail(ski, 1, 2, |ski|);
    if ski[1] >= 0x80 && |ski| >= 2 + (ski[1] - 0x80) {
      var n := ski[1] - 0x80;
      SliceOfTail(ski, 1, 2, 2 + n);
      SliceOfTail(ski, 1, 2 + n, |ski|);
    }
  }

  /**
   `compute_aki_from_spki`, total but for a length near the top of the range,
   where the sum that bounds the slice would overflow.
   */
  method ReadAki(ski: Bytes) returns (r: AkiOutcome)
    ensures r == AkiSpec(ski)
  {
    if |ski| < 2 || ski[0] != 0x04 {
      return Missing;
    }
    var start, hashLen := 2, ski[1];
    if ski[1] >= 0x80 {
      var numLen := ski[1] - 0x80;
      if |ski| < 2 + numLen {
        return Missing;
      }
      var len := ReadLongLength(ski[2..2 + numLen]);
      start, hashLen := 2 + numLen, len;
    }
    LengthAt(ski);
    if start + hashLen >= USIZE_MOD {
      return OutOfRange;
    }
    if |ski| < start + hashLen {
      return Missing;
    }
    return Found(ski[start..start + hashLen]);
  }

  /** Below the top form the two readers see the same length. */
  lemma ReadersAgree(buf: Bytes)
    requires DecodeLen(buf).Some?
    ensures BerLength(buf) == DecodeLen(buf)
  {
    Pow256Values();
    if buf[0] == 0x81 {
      assert buf[1..2] == [buf[1]];
      BeNatAppend([], buf[1]);
      assert [] + [buf[1]] == [buf[1]];
    } else if buf[0] == 0x82 {
      BeNatAppend([], buf[1]);
      assert [] + [buf[1]] == [buf[1]];
      BeNatAppend([buf[1]], buf[2]);
      assert buf[1..3] == [buf[1]] + [buf[2]];
    }
  }

  /** The reader of src/ca/init.rs recovers an OCTET STRING exactly when its length fits. */
  lemma AkiRoundTrip(content: Bytes, rest: Bytes)
    ensures AkiSpec(Tlv(0x04, content) + rest) == Found(content) <==> |content| < 65536
  {
    var n, body := |content|, content + rest;
    TlvParts(0x04, content, rest);
    LengthRoundTrip(n, body);
    ReadersAgree((Tlv(0x04, content) + rest)[1..]);
    AkiOf(Tlv(0x04, content) + rest, n % 65536, body);
    assert body[..n] == content;
    assert n >= 65536 ==> |body[..n % 65536]| != n;
  }

  lemma AkiOf(ski: Bytes, len: nat, body: Bytes)
    requires |ski| >= 2 && ski[0] == 0x04 && BerLength(ski[1..]) == Some((len, body))
    requires len < 65536 && len <= |body| && |ski| - |body| <= 4
    ensures AkiSpec(ski) == Found(body[..len])
  {
    WrapOf(0, len);
  }

  /**
   The written length is the shortest of all length octets, of any form, that
   stand for it (section 10.1 of ITU-T X.690).
   */
  lemma ShortestLength(n: nat, octets: Bytes)
    requires n < 65536
    requires BerLength(octets) == Some((n, []))
    ensures |LengthOctets(n)| <= |octets|
  {
    if octets[0] >= 0x80 {
      var k := octets[0] - 0x80;
      BeNatBound(octets[1..1 + k]);
      Pow256Values();
      if k < 2 {
        Pow256Monotone(k, 1);
      }
      assert Pow256(0) == 1;
    }
  }
}
