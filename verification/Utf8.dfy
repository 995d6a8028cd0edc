/** UTF-8 validity and `String::from_utf8_lossy`, by maximal subparts. */
module Utf8 {
  import opened Common

  /** U+FFFD. */
  const REPLACEMENT: Bytes := [0xEF, 0xBF, 0xBD]

  function Width(b: byte): nat {
    if b < 0x80 then 1
    else if 0xC2 <= b <= 0xDF then 2
    else if 0xE0 <= b <= 0xEF then 3
    else if 0xF0 <= b <= 0xF4 then 4
    else 0
  }

  predicate Continues(bs: Bytes, i: nat) {
    i < |bs| && 0x80 <= bs[i] < 0xC0
  }

  /** The second octet, with the ranges that exclude overlong forms and surrogates. */
  predicate SecondFits(bs: Bytes)
    requires bs != []
  {
    Continues(bs, 1)
    && (bs[0] == 0xE0 ==> bs[1] >= 0xA0)
    && (bs[0] == 0xED ==> bs[1] < 0xA0)
    && (bs[0] == 0xF0 ==> bs[1] >= 0x90)
    && (bs[0] == 0xF4 ==> bs[1] < 0x90)
  }

  /** Length of the first character, or of the first maximal ill-formed part. */
  function Chunk(bs: Bytes): (r: (nat, bool))
    requires bs != []
    ensures 1 <= r.0 <= |bs| && r.0 <= 4
  {
    var w := Width(bs[0]);
    if w <= 1 then (1, w == 1)
    else if !SecondFits(bs) then (1, false)
    else if w == 2 then (2, true)
    else if !Continues(bs, 2) then (2, false)
    else if w == 3 then (3, true)
    else if !Continues(bs, 3) then (3, false)
    else (4, true)
  }

  predicate Valid(bs: Bytes) {
    bs == [] || (Chunk(bs).1 && Valid(bs[Chunk(bs).0..]))
  }

  function Head(bs: Bytes): Bytes
    requires bs != []
  {
    if Chunk(bs).1 then bs[..Chunk(bs).0] else REPLACEMENT
  }

  /** `from_utf8_lossy`. */
  function Lossy(bs: Bytes): Bytes {
    if bs == [] then [] else Head(bs) + Lossy(bs[Chunk(bs).0..])
  }

  lemma {:induction false} LossyOfText(bs: Bytes)
    requires Valid(bs)
    ensures Lossy(bs) == bs
  {
    if bs != [] {
      LossyOfText(bs[Chunk(bs).0..]);
    }
  }

  /** A character is recognised from its own octets, whatever follows. */
  lemma ChunkLocal(bs: Bytes, more: Bytes)
    requires bs != [] && Chunk(bs).1
    ensures Chunk(bs[..Chunk(bs).0] + more) == Chunk(bs)
  {
  }

  /** A character cut short is one ill-formed part. */
  lemma ChunkCut(v: Bytes, p: nat)
    requires v != [] && Chunk(v).1 && 0 < p < Chunk(v).0
    ensures Chunk(v[..p]) == (p, false)
  {
  }

  /** What comes out is always text. */
  lemma {:induction false} LossyIsText(bs: Bytes)
    ensures Valid(Lossy(bs))
  {
    if bs != [] {
      var head, tail := Head(bs), Lossy(bs[Chunk(bs).0..]);
      LossyIsText(bs[Chunk(bs).0..]);
      if Chunk(bs).1 {
        ChunkLocal(bs, tail);
      }
      assert Chunk(head + tail) == (|head|, true);
      assert (head + tail)[|head|..] == tail;
    }
  }

  /** No octet outside the input and the replacement character appears. */
  lemma {:induction false} LossyKeepsFree(bs: Bytes, b: byte)
    requires b < 0x80 && b !in bs
    ensures b !in Lossy(bs)
  {
    if bs != [] {
      var n := Chunk(bs).0;
      LossyKeepsFree(bs[n..], b);
    }
  }

  /** Where the last whole character within the first `p` octets ends. */
  function Boundary(v: Bytes, p: nat): (q: nat)
    requires p <= |v|
    ensures q <= p
  {
    if v == [] || Chunk(v).0 > p then 0
    else Chunk(v).0 + Boundary(v[Chunk(v).0..], p - Chunk(v).0)
  }

  /** `got` is the first `q` octets of `v`, with a replacement character if the cut was inside one. */
  ghost predicate CutText(got: Bytes, v: Bytes, p: nat, q: nat) {
    q <= p <= |v| && p <= q + 3 && got == v[..q] + (if q < p then REPLACEMENT else [])
  }

  /**
   Text cut after `p` octets reads as its whole characters, followed by one
   replacement character when the cut went through one.
   */
  lemma {:induction false} LossyOfCut(v: Bytes, p: nat)
    requires Valid(v) && p <= |v|
    ensures CutText(Lossy(v[..p]), v, p, Boundary(v, p))
  {
    if p > 0 {
      var n := Chunk(v).0;
      if n > p {
        LossyOfPart(v, p);
      } else {
        var tail, q := Lossy(v[n..][..p - n]), Boundary(v[n..], p - n);
        LossyOfCut(v[n..], p - n);
        CutTextStep(tail, v, n, p, q);
        LossyFirst(v, p);
        BoundaryFirst(v, p);
      }
    }
  }

  lemma BoundaryFirst(v: Bytes, p: nat)
    requires v != [] && Chunk(v).0 <= p <= |v|
    ensures Boundary(v, p) == Chunk(v).0 + Boundary(v[Chunk(v).0..], p - Chunk(v).0)
  {
  }

  /**
   Text cut after `p` octets reads as a prefix of itself exactly when the cut
   fell between characters, or went through a U+FFFD.
   */
  lemma CutIsPrefix(v: Bytes, p: nat)
    requires Valid(v) && p <= |v|
    ensures var q := Boundary(v, p);
      Lossy(v[..p]) <= v <==> q == p || (q + 3 <= |v| && v[q..q + 3] == REPLACEMENT)
  {
    LossyOfCut(v, p);
    CutTextPrefix(Lossy(v[..p]), v, p, Boundary(v, p));
  }

  lemma CutTextPrefix(got: Bytes, v: Bytes, p: nat, q: nat)
    requires CutText(got, v, p, q)
    ensures got <= v <==> q == p || (q + 3 <= |v| && v[q..q + 3] == REPLACEMENT)
  {
    if q < p {
      assert |got| == q + 3 && got[q..] == REPLACEMENT;
      if q + 3 <= |v| {
        assert v[..q + 3] == v[..q] + v[q..q + 3];
        assert v[..q + 3][q..] == v[q..q + 3];
      }
    }
  }

  lemma CutTextStep(got: Bytes, v: Bytes, n: nat, p: nat, q: nat)
    requires n <= p <= |v| && CutText(got, v[n..], p - n, q)
    ensures CutText(v[..n] + got, v, p, n + q)
  {
    assert v[..n + q] == v[..n] + v[n..][..q];
  }

  lemma LossyOfPart(v: Bytes, p: nat)
    requires v != [] && Chunk(v).1 && 0 < p < Chunk(v).0
    ensures Lossy(v[..p]) == REPLACEMENT
  {
    ChunkCut(v, p);
    assert v[..p][p..] == [];
    assert Lossy([]) == [];
  }

  lemma LossyFirst(v: Bytes, p: nat)
    requires v != [] && Chunk(v).1 && Chunk(v).0 <= p <= |v|
    ensures Lossy(v[..p]) == v[..Chunk(v).0] + Lossy(v[Chunk(v).0..][..p - Chunk(v).0])
  {
    var n := Chunk(v).0;
    PrefixParts(v, n, p);
    ChunkLocal(v, v[n..p]);
    LossyChunk(v[..p], n);
  }

  lemma PrefixParts(v: Bytes, n: nat, p: nat)
    requires n <= p <= |v|
    ensures v[..p] == v[..n] + v[n..p]
    ensures v[..p][..n] == v[..n] && v[..p][n..] == v[n..][..p - n]
  {
  }

  lemma LossyChunk(bs: Bytes, n: nat)
    requires bs != [] && Chunk(bs) == (n, true)
    ensures Lossy(bs) == bs[..n] + Lossy(bs[n..])
  {
  }

  // ----------------------------------------- characters, by their numbers

  predicate Scalar(cp: int) { 0 <= cp < 0xD800 || 0xE000 <= cp <= 0x10FFFF }

  /** The encoding of section 3 of RFC 3629. */
  function Encode(cp: int): Bytes
    requires Scalar(cp)
  {
    if cp < 0x80 then [cp]
    else if cp < 0x800 then [0xC0 + cp / 64, 0x80 + cp % 64]
    else if cp < 0x1_0000 then [0xE0 + cp / 4096, 0x80 + cp / 64 % 64, 0x80 + cp % 64]
    else [0xF0 + cp / 262144, 0x80 + cp / 4096 % 64, 0x80 + cp / 64 % 64, 0x80 + cp % 64]
  }

  lemma EncodeShape(cp: int)
    requires Scalar(cp)
    ensures var e := Encode(cp);
      Width(e[0]) == |e| && (|e| > 1 ==> SecondFits(e)) && forall i: nat :: 1 < i < |e| ==> Continues(e, i)
  {
    if 0x800 <= cp < 0x1_0000 {
      assert cp / 64 == cp / 4096 * 64 + cp / 64 % 64;
    } else if cp >= 0x1_0000 {
      assert cp / 4096 == cp / 262144 * 64 + cp / 4096 % 64;
    }
  }

  /** Every character is recognised, whatever follows. */
  lemma CharacterKnown(cp: int, rest: Bytes)
    requires Scalar(cp)
    ensures Chunk(Encode(cp) + rest) == (|Encode(cp)|, true)
  {
    EncodeShape(cp);
    var e, bs := Encode(cp), Encode(cp) + rest;
    assert forall i :: 0 <= i < |e| ==> bs[i] == e[i];
    assert |e| > 2 ==> Continues(e, 2);
    assert |e| > 3 ==> Continues(e, 3);
  }

  function Digit(e: Bytes, i: nat, base: int): int
    requires i < |e|
  {
    e[i] as int - base
  }

  /** The number a well-formed sequence stands for. */
  function Decoded(e: Bytes): int
    requires 1 <= |e| <= 4
  {
    if |e| == 1 then e[0]
    else if |e| == 2 then Digit(e, 0, 0xC0) * 64 + Digit(e, 1, 0x80)
    else if |e| == 3 then Digit(e, 0, 0xE0) * 4096 + Digit(e, 1, 0x80) * 64 + Digit(e, 2, 0x80)
    else Digit(e, 0, 0xF0) * 262144 + Digit(e, 1, 0x80) * 4096 + Digit(e, 2, 0x80) * 64 + Digit(e, 3, 0x80)
  }

  lemma DigitsOf(a: int, b: int, c: int, d: int)
    requires 0 <= a && 0 <= b < 64 && 0 <= c < 64 && 0 <= d < 64
    ensures var n := a * 262144 + b * 4096 + c * 64 + d;
      n % 64 == d && n / 64 == a * 4096 + b * 64 + c && n / 64 % 64 == c
      && n / 4096 == a * 64 + b && n / 4096 % 64 == b && n / 262144 == a
  {
    var n := a * 262144 + b * 4096 + c * 64 + d;
    assert n / 64 == a * 4096 + b * 64 + c;
    assert n / 4096 == a * 64 + b;
  }

  lemma Reencode2(e: Bytes)
    requires |e| == 2 && Width(e[0]) == 2 && SecondFits(e)
    ensures Scalar(Decoded(e)) && Encode(Decoded(e)) == e
  {
    DigitsOf(0, 0, Digit(e, 0, 0xC0), Digit(e, 1, 0x80));
  }

  lemma Reencode3(e: Bytes)
    requires |e| == 3 && Width(e[0]) == 3 && SecondFits(e) && Continues(e, 2)
    ensures Scalar(Decoded(e)) && Encode(Decoded(e)) == e
  {
    DigitsOf(0, Digit(e, 0, 0xE0), Digit(e, 1, 0x80), Digit(e, 2, 0x80));
  }

  lemma Reencode4(e: Bytes)
    requires |e| == 4 && Width(e[0]) == 4 && SecondFits(e) && Continues(e, 2) && Continues(e, 3)
    ensures Scalar(Decoded(e)) && Encode(Decoded(e)) == e
  {
    DigitsOf(Digit(e, 0, 0xF0), Digit(e, 1, 0x80), Digit(e, 2, 0x80), Digit(e, 3, 0x80));
  }

  /** Nothing else is: what is recognised is the encoding of one character. */
  lemma OnlyCharacters(bs: Bytes)
    requires bs != [] && Chunk(bs).1
    ensures exists cp :: Scalar(cp) && bs[..Chunk(bs).0] == Encode(cp)
  {
    var e := bs[..Chunk(bs).0];
    if |e| == 2 {
      Reencode2(e);
    } else if |e| == 3 {
      Reencode3(e);
    } else if |e| == 4 {
      Reencode4(e);
    }
    assert Scalar(Decoded(e)) && Encode(Decoded(e)) == e;
  }

  /** An ill-formed part ends where no character goes on as the octets do. */
  lemma IllFormedPart(bs: Bytes, cp: int)
    requires bs != [] && !Chunk(bs).1 && Chunk(bs).0 < |bs| && Scalar(cp)
    ensures !(bs[..Chunk(bs).0 + 1] <= Encode(cp))
  {
    EncodeShape(cp);
    var e, n := Encode(cp), Chunk(bs).0;
    assert bs[..n + 1] <= e ==> n < |e| && forall i :: 0 <= i <= n ==> bs[i] == e[i];
    assert |e| > 2 ==> Continues(e, 2);
    assert |e| > 3 ==> Continues(e, 3);
  }
}
