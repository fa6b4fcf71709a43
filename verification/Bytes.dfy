// Bytes and big-endian numbers.
module Bytes {
  import opened Arith

  type Byte = x: int | 0 <= x < 256

  const MAX_INT: int := 0x7FFF_FFFF_FFFF_FFFF

  function ZeroBytes(n: nat): (s: seq<Byte>)
    ensures |s| == n && forall k :: 0 <= k < n ==> s[k] == 0
  {
    seq(n, i => 0)
  }

  // The n low-order bytes of v, most significant first.
  function BigEndian(v: nat, n: nat): (s: seq<Byte>)
    ensures |s| == n
  {
    if n == 0 then [] else BigEndian(v / 256, n - 1) + [v % 256]
  }

  function FromBigEndian(s: seq<Byte>): (v: nat)
  {
    if |s| == 0 then 0 else 256 * FromBigEndian(s[..|s| - 1]) + s[|s| - 1]
  }

  function Pow256(n: nat): (p: nat)
    ensures p > 0
  {
    Pow(256, n)
  }

  lemma {:induction false} FromBigEndianBound(s: seq<Byte>)
    ensures FromBigEndian(s) < Pow256(|s|)
  {
    if |s| > 0 {
      FromBigEndianBound(s[..|s| - 1]);
    }
  }

  lemma {:induction false} BigEndianRoundTrip(v: nat, n: nat)
    requires v < Pow256(n)
    ensures FromBigEndian(BigEndian(v, n)) == v
  {
    if n > 0 {
      BigEndianRoundTrip(v / 256, n - 1);
      var s := BigEndian(v, n);
      assert s[..|s| - 1] == BigEndian(v / 256, n - 1);
    }
  }

  lemma {:induction false} FromBigEndianRoundTrip(s: seq<Byte>)
    ensures BigEndian(FromBigEndian(s), |s|) == s
  {
    if |s| > 0 {
      FromBigEndianRoundTrip(s[..|s| - 1]);
      LastDigit(FromBigEndian(s[..|s| - 1]), s[|s| - 1], |s| - 1);
      assert s == s[..|s| - 1] + [s[|s| - 1]];
    }
  }

  lemma LastDigit(v: nat, b: Byte, n: nat)
    ensures BigEndian(256 * v + b, n + 1) == BigEndian(v, n) + [b]
  {
    var w := 256 * v + b;
    assert w / 256 == v && w % 256 == b;
  }

  lemma Pow256Eight()
    ensures Pow256(8) == 0x1_0000_0000_0000_0000
  {
    assert Pow256(4) == 0x1_0000_0000;
    PowAdd(256, 4, 4);
  }

  lemma {:induction false} FromBigEndianConcat(s: seq<Byte>, t: seq<Byte>)
    ensures FromBigEndian(s + t) == FromBigEndian(s) * Pow256(|t|) + FromBigEndian(t)
  {
    if |t| == 0 {
      assert s + t == s;
    } else {
      var n := |t| - 1;
      assert (s + t)[..|s + t| - 1] == s + t[..n];
      FromBigEndianConcat(s, t[..n]);
      Associate(256, FromBigEndian(s), Pow256(n));
      Associate(FromBigEndian(s), 256, Pow256(n));
    }
  }

  // Each byte is a digit of the number, in base 256 and counted from the end.
  lemma {:induction false} BigEndianDigit(v: nat, n: nat, i: nat)
    requires i < n
    ensures BigEndian(v, n)[i] == v / Pow256(n - 1 - i) % 256
  {
    if i < n - 1 {
      BigEndianDigit(v / 256, n - 1, i);
      var p := Pow256(n - 2 - i);
      QuotientTwice(v, 256, p);
    } else {
      assert v / 1 == v;
    }
  }

  lemma QuotientTwice(v: nat, a: nat, b: nat)
    requires a > 0 && b > 0
    ensures a * b > 0 && v / a / b == v / (a * b)
  {
    MulLe(1, a, b);
    var q := v / a;
    NestedRest(v, a, b, q, v % a, q / b, q % b);
  }

  lemma NestedRest(v: int, a: int, b: int, q: int, r: int, s: int, t: int)
    requires 0 < a && 0 < b && 0 < a * b && v == q * a + r && q == s * b + t && 0 <= r < a && 0 <= t < b
    ensures v / (a * b) == s
  {
    assert q * a == s * (a * b) + t * a by { Distribute(s * b, t, a); Associate(s, b, a); }
    MulLe(t, b - 1, a);
    Distribute(b, 1, a);
    MulLe(0, t, a);
    DivUnique(v, a * b, s, t * a + r);
  }

  lemma {:induction false} ZerosAreZero(n: nat)
    ensures FromBigEndian(ZeroBytes(n)) == 0
  {
    if n > 0 {
      ZerosAreZero(n - 1);
      assert ZeroBytes(n)[..n - 1] == ZeroBytes(n - 1);
    }
  }

  // Strings of one length are the same if their numbers are.
  lemma SameNumber(s: seq<Byte>, t: seq<Byte>)
    requires |s| == |t|
    ensures FromBigEndian(s) == FromBigEndian(t) <==> s == t
  {
    FromBigEndianRoundTrip(s);
    FromBigEndianRoundTrip(t);
  }

  // The number of two strings put together is that of the second exactly if the first is all zeros.
  lemma LeadingZeros(s: seq<Byte>, t: seq<Byte>)
    ensures FromBigEndian(s + t) == FromBigEndian(t) <==> s == ZeroBytes(|s|)
    ensures s != ZeroBytes(|s|) ==> FromBigEndian(s + t) >= Pow256(|t|)
  {
    hide Pow256, FromBigEndian;
    FromBigEndianConcat(s, t);
    ZerosAreZero(|s|);
    SameNumber(s, ZeroBytes(|s|));
    ScaledZero(FromBigEndian(s), Pow256(|t|));
  }

  lemma ScaledZero(x: nat, p: nat)
    requires p > 0
    ensures x * p == 0 <==> x == 0
    ensures x > 0 ==> x * p >= p
  {
    if x > 0 { MulLe(1, x, p); }
  }
}
