// Shifts, bitwise operators and bit lengths of machine words.
module Bits {
  import opened Arith
  import opened Words

  function Pow2(n: nat): (p: nat)
    ensures p > 0
  {
    Pow(2, n)
  }

  lemma Pow2Add(m: nat, n: nat)
    ensures Pow2(m + n) == Pow2(m) * Pow2(n)
  {
    PowAdd(2, m, n);
  }

  lemma Pow2Mono(m: nat, n: nat)
    requires m <= n
    ensures Pow2(m) <= Pow2(n)
    ensures m < n ==> Pow2(m) < Pow2(n)
  {
    PowMono(2, m, n);
    if m < n { PowMono(2, m + 1, n); }
  }

  lemma Pow2Word()
    ensures Pow2(32) == 0x1_0000_0000 && Pow2(63) == 0x8000_0000_0000_0000 && Pow2(64) == B
  {
    assert Pow2(8) == 256;
    assert Pow2(16) == 0x1_0000 by { Pow2Add(8, 8); }
    assert Pow2(32) == 0x1_0000_0000 by { Pow2Add(16, 16); }
    assert Pow2(64) == B by { Pow2Add(32, 32); }
    assert Pow2(64) == 2 * Pow2(63);
  }

  // A word split at bit k, for a shift by 64 - k the other way.
  lemma Pow2Complement(k: nat)
    requires k <= 64
    ensures Pow2(k) * Pow2(64 - k) == B
  {
    Pow2Add(k, 64 - k);
    Pow2Word();
  }

  // ---- shifts: a count of 64 or more gives zero ----

  function Shl(x: Word, n: nat): (r: Word)
  {
    x * Pow2(n) % B
  }

  function Shr(x: Word, n: nat): (r: Word)
  {
    QuotientNonNegative(x, Pow2(n));
    x / Pow2(n)
  }

  lemma QuotientNonNegative(x: int, d: int)
    requires 0 <= x && 0 < d
    ensures 0 <= x / d <= x
  {
    var q := x / d;
    assert x == q * d + x % d;
    if q < 0 { MulLe(q, -1, d); }
    if q > x { MulLe(1, d, q); }
  }

  // What is shifted out at the top is what the complementary right shift keeps.
  lemma ShlSplit(x: Word, n: nat)
    requires n <= 64
    ensures x * Pow2(n) == Shr(x, 64 - n) * B + Shl(x, n)
    ensures Shr(x, 64 - n) < Pow2(n)
    ensures exists t: int :: Shl(x, n) == t * Pow2(n) && t == x % Pow2(64 - n)
  {
    hide Pow2;
    Pow2Complement(n);
    SplitAt(x, Pow2(n), Pow2(64 - n));
  }

  lemma SplitAt(x: int, p: int, q: int)
    requires 0 <= x < B && 0 < p && 0 < q && p * q == B
    ensures x / q < p && x * p % B == (x % q) * p
    ensures x * p == (x / q) * B + x * p % B
  {
    var h, l := x / q, x % q;
    assert x == h * q + l;
    assert x * p == h * B + l * p by {
      Distribute(h * q, l, p);
      Associate(h, q, p);
    }
    MulLe(l + 1, q, p);
    Distribute(l, 1, p);
    MulLe(0, l, p);
    DivUnique(x * p, B, h, l * p);
    if h >= p { MulLe(p, h, q); }
  }

  // ---- bitwise operators, bit by bit ----

  datatype Gate = AndGate | OrGate | AndNotGate {
    function Bit(a: int, b: int): (c: int)
      ensures 0 <= c <= 1
    {
      match this
      case AndGate => if a == 1 && b == 1 then 1 else 0
      case OrGate => if a == 1 || b == 1 then 1 else 0
      case AndNotGate => if a == 1 && b != 1 then 1 else 0
    }
  }

  // The low n bits of x and y combined.
  function Bitwise(g: Gate, n: nat, x: nat, y: nat): (r: nat)
  {
    if n == 0 then 0 else g.Bit(x % 2, y % 2) + 2 * Bitwise(g, n - 1, x / 2, y / 2)
  }

  // Bit i of the result comes from bits i of x and y.
  lemma {:induction false} BitwiseBit(g: Gate, n: nat, x: nat, y: nat, i: nat)
    requires i < n
    ensures Bitwise(g, n, x, y) / Pow2(i) % 2 == g.Bit(x / Pow2(i) % 2, y / Pow2(i) % 2)
  {
    if i == 0 {
      NoHalves(Bitwise(g, n, x, y), x, y);
      TwiceAndBit(Bitwise(g, n - 1, x / 2, y / 2), g.Bit(x % 2, y % 2));
    } else {
      BitwiseBit(g, n - 1, x / 2, y / 2, i - 1);
      HalvedQuotient(Bitwise(g, n, x, y), i);
      HalvedQuotient(x, i);
      HalvedQuotient(y, i);
      TwiceAndBit(Bitwise(g, n - 1, x / 2, y / 2), g.Bit(x % 2, y % 2));
    }
  }

  lemma NoHalves(a: nat, b: nat, c: nat)
    ensures a / Pow2(0) == a && b / Pow2(0) == b && c / Pow2(0) == c
  {
    assert Pow2(0) == 1;
  }

  lemma TwiceAndBit(r: nat, b: int)
    requires 0 <= b <= 1
    ensures (b + 2 * r) % 2 == b && (b + 2 * r) / 2 == r
  {
  }

  lemma HalvedQuotient(v: nat, i: nat)
    requires i > 0
    ensures v / Pow2(i) == v / 2 / Pow2(i - 1)
  {
    var p, h := Pow2(i - 1), v / 2;
    var q, r := h / p, h % p;
    assert v == 2 * h + v % 2 && h == q * p + r;
    assert Pow2(i) == 2 * p;
    Associate(q, 2, p);
    DivUnique(v, 2 * p, q, 2 * r + v % 2);
  }

  lemma {:induction false} BitwiseBound(g: Gate, n: nat, x: nat, y: nat)
    ensures Bitwise(g, n, x, y) < Pow2(n)
  {
    if n > 0 {
      BitwiseBound(g, n - 1, x / 2, y / 2);
    }
  }

  function Or(x: Word, y: Word): (r: Word)
  {
    BitwiseBound(OrGate, 64, x, y);
    Pow2Word();
    Bitwise(OrGate, 64, x, y)
  }

  function And(x: Word, y: Word): (r: Word)
  {
    BitwiseBound(AndGate, 64, x, y);
    Pow2Word();
    Bitwise(AndGate, 64, x, y)
  }

  // Go's x &^ y.
  function AndNot(x: Word, y: Word): (r: Word)
  {
    BitwiseBound(AndNotGate, 64, x, y);
    Pow2Word();
    Bitwise(AndNotGate, 64, x, y)
  }

  // Or-ing in bits below every bit of t * 2^k is addition.
  lemma {:induction false} OrDisjoint(n: nat, k: nat, t: nat, y: nat)
    requires k <= n && t * Pow2(k) < Pow2(n) && y < Pow2(k)
    ensures Bitwise(OrGate, n, t * Pow2(k), y) == t * Pow2(k) + y
  {
    if k == 0 {
      OrZero(n, t);
    } else {
      var x, x2 := t * Pow2(k), t * Pow2(k - 1);
      assert x == 2 * x2 by { Associate(2, t, Pow2(k - 1)); }
      OrDisjoint(n - 1, k - 1, t, y / 2);
    }
  }

  lemma {:induction false} OrZero(n: nat, x: nat)
    requires x < Pow2(n)
    ensures Bitwise(OrGate, n, x, 0) == x
  {
    if n > 0 {
      OrZero(n - 1, x / 2);
    }
  }

  lemma {:induction false} BitwiseOrZero(n: nat, x: nat, y: nat)
    requires x < Pow2(n) && y < Pow2(n)
    ensures Bitwise(OrGate, n, x, y) == 0 <==> x == 0 && y == 0
  {
    if n > 0 {
      BitwiseOrZero(n - 1, x / 2, y / 2);
    }
  }

  lemma OrIsZero(x: Word, y: Word)
    ensures Or(x, y) == 0 <==> x == 0 && y == 0
  {
    Pow2Word();
    BitwiseOrZero(64, x, y);
  }

  lemma {:induction false} BitwiseAndSelf(n: nat, x: nat)
    requires x < Pow2(n)
    ensures Bitwise(AndGate, n, x, x) == x
  {
    if n > 0 {
      BitwiseAndSelf(n - 1, x / 2);
    }
  }

  // x & (x - 1) is zero exactly for the powers of two.
  lemma {:induction false} AndPredecessor(n: nat, x: nat)
    requires 0 < x < Pow2(n)
    ensures Bitwise(AndGate, n, x, x - 1) == 0 <==> x == Pow2(Len64(x) - 1)
  {
    if x == 1 {
      BitwiseAndZero(n, 1);
    } else if x % 2 == 0 {
      AndPredecessor(n - 1, x / 2);
      assert (x - 1) / 2 == x / 2 - 1;
    } else {
      BitwiseAndSelf(n - 1, x / 2);
      assert (x - 1) / 2 == x / 2;
      assert Len64(x) >= 2 && Pow2(Len64(x) - 1) == 2 * Pow2(Len64(x) - 2);
    }
  }

  lemma {:induction false} BitwiseAndZero(n: nat, x: nat)
    ensures Bitwise(AndGate, n, x, 0) == 0
  {
    if n > 0 {
      BitwiseAndZero(n - 1, x / 2);
    }
  }

  // The operators act on the parts of a number separately.
  lemma {:induction false} BitwiseConcat(g: Gate, m: nat, n: nat, xl: nat, xh: nat, yl: nat, yh: nat)
    requires xl < Pow2(m) && yl < Pow2(m)
    ensures Bitwise(g, m + n, xl + Pow2(m) * xh, yl + Pow2(m) * yh)
         == Bitwise(g, m, xl, yl) + Pow2(m) * Bitwise(g, n, xh, yh)
  {
    if m > 0 {
      BitwiseConcat(g, m - 1, n, xl / 2, xh, yl / 2, yh);
      HalfOfSum(m, xl, xh);
      HalfOfSum(m, yl, yh);
      Associate(2, Pow2(m - 1), Bitwise(g, n, xh, yh));
    }
  }

  lemma HalfOfSum(m: nat, l: nat, h: nat)
    requires m > 0
    ensures (l + Pow2(m) * h) % 2 == l % 2 && (l + Pow2(m) * h) / 2 == l / 2 + Pow2(m - 1) * h
  {
    var q := Pow2(m - 1) * h;
    assert Pow2(m) * h == 2 * q by { Associate(2, Pow2(m - 1), h); }
  }

  lemma {:induction false} AndMask(n: nat, k: nat, x: nat)
    requires k <= n
    ensures Bitwise(AndGate, n, x, Pow2(k) - 1) == x % Pow2(k)
  {
    if k == 0 {
      BitwiseAndZero(n, x);
    } else {
      AndMask(n - 1, k - 1, x / 2);
      assert (Pow2(k) - 1) / 2 == Pow2(k - 1) - 1 && (Pow2(k) - 1) % 2 == 1;
      LowBits(k, x);
    }
  }

  lemma LowBits(k: nat, x: nat)
    requires k > 0
    ensures x % Pow2(k) == x % 2 + 2 * ((x / 2) % Pow2(k - 1))
  {
    var p, h := Pow2(k - 1), x / 2;
    var q, r := h / p, h % p;
    assert h == q * p + r;
    assert x == q * (2 * p) + (x % 2 + 2 * r);
    DivUnique(x, 2 * p, q, x % 2 + 2 * r);
  }

  lemma {:induction false} AndNotZero(n: nat, x: nat)
    requires x < Pow2(n)
    ensures Bitwise(AndNotGate, n, x, 0) == x
  {
    if n > 0 {
      AndNotZero(n - 1, x / 2);
    }
  }

  lemma {:induction false} AndNotOnes(n: nat, k: nat, x: nat)
    requires k <= n && x < Pow2(k)
    ensures Bitwise(AndNotGate, n, x, Pow2(k) - 1) == 0
  {
    if k == 0 {
      AndNotZero(n, 0);
      PowMono(2, 0, n);
    } else {
      AndNotOnes(n - 1, k - 1, x / 2);
      assert (Pow2(k) - 1) / 2 == Pow2(k - 1) - 1;
    }
  }

  lemma SplitBelow(x: nat, p: nat, k: nat) returns (xl: nat, xh: nat)
    requires 0 < p && x < p * k
    ensures x == xl + p * xh && xl == x % p && xl < p && xh < k
  {
    xl := x % p;
    var q := x / p;
    assert x == p * q + xl;
    QuotientNonNegative(x, p);
    if q >= k { MulLe(k, q, p); }
    xh := q;
  }

  // Clearing the k bits from position h of a number with nothing above them.
  lemma AndNotTop(n: nat, h: nat, k: nat, x: nat)
    requires h + k <= n && x < Pow2(h + k)
    ensures Bitwise(AndNotGate, n, x, Pow2(h) * (Pow2(k) - 1)) == x % Pow2(h)
  {
    hide Pow2, Bitwise;
    var p := Pow2(h);
    Pow2Add(h, k);
    var xl, xh := SplitBelow(x, p, Pow2(k));
    BitwiseConcat(AndNotGate, h, n - h, xl, xh, 0, Pow2(k) - 1);
    AndNotZero(h, xl);
    AndNotOnes(n - h, k, xh);
    Associate(p, 0, 1);
  }

  // ---- bit length ----

  // bits.Len64
  function Len64(x: nat): (n: nat)
  {
    if x == 0 then 0 else 1 + Len64(x / 2)
  }

  lemma {:induction false} Len64Bounds(x: nat)
    ensures x < Pow2(Len64(x))
    ensures x > 0 ==> Pow2(Len64(x) - 1) <= x
  {
    if x > 0 {
      Len64Bounds(x / 2);
    }
  }

  function LeadingZeros64(x: Word): (n: nat)
  {
    Pow2Word();
    LenAtMost(x, 64);
    64 - Len64(x)
  }

  lemma LenAtMost(x: nat, n: nat)
    requires x < Pow2(n)
    ensures Len64(x) <= n
  {
    Len64Bounds(x);
    if Len64(x) > n {
      PowMono(2, n, Len64(x) - 1);
    }
  }

  lemma LenUnique(x: nat, n: nat)
    requires n > 0 && Pow2(n - 1) <= x < Pow2(n)
    ensures Len64(x) == n
  {
    hide Pow2, Len64;
    LenAtMost(x, n);
    Len64Bounds(x);
    if Len64(x) < n { Pow2Mono(Len64(x), n - 1); }
  }
}
