/** Fixed-width integers as octet strings, in both byte orders. */
module Octets {
  import opened Common

  ghost function Pow256(k: nat): (p: nat)
    ensures p >= 1
  {
    if k == 0 then 1 else 256 * Pow256(k - 1)
  }

  lemma {:induction false} Pow256Monotone(a: nat, b: nat)
    requires a <= b
    ensures Pow256(a) <= Pow256(b)
    decreases b - a
  {
    if a < b {
      Pow256Monotone(a, b - 1);
    }
  }

  lemma MulMonotone(a: nat, b: nat, p: nat)
    requires a <= b
    ensures a * p <= b * p
    ensures a < b ==> a * p + p <= b * p
  {
    Distribute(a, b - a, p);
    if a < b {
      Distribute(b - a - 1, 1, p);
    }
  }

  lemma Distribute(a: nat, b: nat, p: nat)
    ensures (a + b) * p == a * p + b * p
    ensures a * p >= 0 && b * p >= 0 && 1 * p == p
  {
  }

  /** `to_be_bytes` of a `k`-octet unsigned integer; higher octets are dropped. */
  function BeBytes(n: nat, k: nat): (bs: Bytes)
    ensures |bs| == k
  {
    if k == 0 then [] else BeBytes(n / 256, k - 1) + [n % 256]
  }

  /** The unsigned number that big-endian octets stand for. */
  ghost function BeNat(bs: Bytes): nat {
    if bs == [] then 0 else bs[0] * Pow256(|bs| - 1) + BeNat(bs[1..])
  }

  lemma {:induction false} BeNatBound(bs: Bytes)
    ensures BeNat(bs) < Pow256(|bs|)
  {
    if bs != [] {
      BeNatBound(bs[1..]);
      MulMonotone(bs[0], 255, Pow256(|bs| - 1));
    }
  }

  lemma {:induction false} BeNatAppend(bs: Bytes, b: byte)
    ensures BeNat(bs + [b]) == BeNat(bs) * 256 + b
  {
    if bs == [] {
      assert [] + [b] == [b];
      assert Pow256(0) == 1;
      assert BeNat([b][1..]) == 0;
    } else {
      var t := bs + [b];
      assert t[1..] == bs[1..] + [b];
      BeNatAppend(bs[1..], b);
      var p := Pow256(|bs| - 1);
      assert Pow256(|t| - 1) == 256 * p;
      assert bs[0] * (256 * p) == 256 * (bs[0] * p);
    }
  }

  lemma {:induction false} BeNatOfBytes(n: nat, k: nat)
    requires n < Pow256(k)
    ensures BeNat(BeBytes(n, k)) == n
  {
    if k > 0 {
      assert n / 256 < Pow256(k - 1);
      BeNatOfBytes(n / 256, k - 1);
      BeNatAppend(BeBytes(n / 256, k - 1), n % 256);
    }
  }

  lemma LeadingDigit(x: nat, r: nat, y: nat, t: nat, p: nat)
    requires r < p && t < p && x * p + r == y * p + t
    ensures x == y && r == t
  {
    if x < y {
      MulMonotone(x, y, p);
    } else if y < x {
      MulMonotone(y, x, p);
    }
  }

  lemma {:induction false} BeNatInjective(a: Bytes, b: Bytes)
    requires |a| == |b| && BeNat(a) == BeNat(b)
    ensures a == b
  {
    if a != [] {
      BeNatBound(a[1..]);
      BeNatBound(b[1..]);
      LeadingDigit(a[0], BeNat(a[1..]), b[0], BeNat(b[1..]), Pow256(|a| - 1));
      BeNatInjective(a[1..], b[1..]);
      assert a == [a[0]] + a[1..] && b == [b[0]] + b[1..];
    }
  }

  /** `to_le_bytes` of a `k`-octet unsigned integer; higher octets are dropped. */
  function LeBytes(n: nat, k: nat): (bs: Bytes)
    ensures |bs| == k
  {
    if k == 0 then [] else [n % 256] + LeBytes(n / 256, k - 1)
  }

  /** `from_le_bytes`. */
  function LeNat(bs: Bytes): nat {
    if bs == [] then 0 else bs[0] + 256 * LeNat(bs[1..])
  }

  lemma {:induction false} LeRoundTrip(n: nat, k: nat)
    requires n < Pow256(k)
    ensures LeNat(LeBytes(n, k)) == n
  {
    if k > 0 {
      assert n / 256 < Pow256(k - 1);
      LeRoundTrip(n / 256, k - 1);
      assert LeBytes(n, k)[1..] == LeBytes(n / 256, k - 1);
    }
  }

  lemma Pow256Values()
    ensures Pow256(1) == 0x100 && Pow256(2) == 0x1_0000
    ensures Pow256(4) == 0x1_0000_0000 && Pow256(8) == 0x1_0000_0000_0000_0000
  {
    assert Pow256(3) == 0x100_0000;
    assert Pow256(6) == 0x1_0000_0000_0000;
  }

  /** Little-endian: octet `i` has weight 256 to the `i`. */
  lemma {:induction false} LeByteAt(n: nat, k: nat, i: nat)
    requires i < k
    ensures LeBytes(n, k)[i] == (n / Pow256(i)) % 256
  {
    if i > 0 {
      LeByteAt(n / 256, k - 1, i - 1);
      DivTwice(n, Pow256(i - 1));
    }
  }

  lemma DivTwice(n: nat, p: nat)
    requires p >= 1
    ensures n / 256 / p == n / (256 * p)
  {
    var q := n / 256 / p;
    var r := n / 256 % p;
    assert n / 256 == q * p + r;
    assert n == (q * p + r) * 256 + n % 256;
    assert (q * p + r) * 256 == q * (256 * p) + r * 256;
    assert 0 <= r * 256 + n % 256 < 256 * p;
    QuotientIs(n, 256 * p, q, r * 256 + n % 256);
  }

  lemma QuotientIs(n: nat, m: nat, q: nat, r: nat)
    requires r < m && n == q * m + r
    ensures n / m == q
  {
    var q', r' := n / m, n % m;
    assert q' * m + r' == q * m + r;
    LeadingDigit(q', r', q, r, m);
  }
}
