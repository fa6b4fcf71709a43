// The Newton iterations that find the reciprocal of a left-aligned divisor y, each of which squares
// the error of the one before it, up to what it leaves out.
module Newton {
  import opened Arith
  import opened Words
  import opened Bits
  import opened Columns

  // 2^255, the least left-aligned number.
  const K: int := 0x8000_0000_0000_0000 * (B * (B * B))

  lemma KTwice()
    ensures 2 * K == B * (B * (B * B))
  {
  }

  // ---- the error of a step ----

  // A step takes an estimate r of p / y to r' = (2 * p * r - r * r * y + d) / m, an estimate of
  // p' / y with p * p = m * p'. Its error is the square of the old one, less what d adds.
  lemma NewtonStep(p: int, r: int, y: int, m: int, p': int, r': int, d: int, e: int, e': int)
    requires p * p == m * p' && m * r' == 2 * p * r - Product(Product(r, r), y) + d
    requires e == p - Product(r, y) && e' == p' - Product(r', y)
    ensures m * e' == Product(e, e) - Product(d, y)
  {
    var t := r * y;
    assert e * e == p * p - 2 * p * t + t * t by { DifferenceSquared(p, t); }
    assert t * t == (r * r * y) * y by { Rearranged(r, y); }
    assert 2 * p * t == (2 * p * r) * y by { Associate(2 * p, r, y); }
    assert (m * r') * y == m * (r' * y) by { Associate(m, r', y); }
    Distribute(2 * p * r - r * r * y, d, y);
    Distribute(2 * p * r, r * r * y, y);
    assert m * e' == m * p' - m * (r' * y) by { Distribute(p', r' * y, m); }
  }

  lemma DifferenceSquared(a: int, b: int)
    ensures (a - b) * (a - b) == a * a - 2 * a * b + b * b
  {
  }

  lemma Rearranged(r: int, y: int)
    ensures (r * y) * (r * y) == (r * r * y) * y
  {
  }

  // The error stays below the square of the old bound, and above -4y.
  lemma ErrorBound(k: int, y: int, e: int, e': int, d: int, b: int, c: int)
    requires 0 < k && 0 < y && -b <= e <= b && b * b <= k * c && 0 <= d < 4 * k
    requires k * e' == Product(e, e) - Product(d, y)
    ensures -4 * y < e' <= c
  {
    SquareBound(e, b);
    var square, added := Product(e, e), Product(d, y);
    assert 0 <= added < 4 * (k * y) by {
      MulLe(0, d, y);
      MulLe(d + 1, 4 * k, y);
      Associate(4, k, y);
    }
    assert k * (c + 1) == k * c + k && k * (-4 * y) == -4 * (k * y);
    hide Product;
    BelowByFactor(k, e', c + 1, square - added, k * c + k);
    BelowByFactor(k, -4 * y, e', -4 * (k * y), square - added);
  }

  lemma BelowByFactor(m: int, a: int, b: int, ma: int, mb: int)
    requires 0 < m && ma == m * a && mb == m * b && ma < mb
    ensures a < b
  {
    if b <= a { MulLe(b, a, m); }
  }

  lemma SquareBound(e: int, b: int)
    requires -b <= e <= b
    ensures 0 <= Product(e, e) <= b * b
  {
    if e >= 0 { MulBoth(0, e, 0, e); MulBoth(e, b, e, b); } else { MulBoth(-e, b, -e, b); MulBoth(0, -e, 0, -e); }
  }

  // An estimate whose error is small enough stays below the bound n.
  lemma EstimateBelow(p: int, y: int, r: int, n: int, slack: int)
    requires 0 < y && -slack < p - Product(r, y) && p + slack <= n * y
    ensures r < n
  {
    if r >= n { MulLe(n, r, y); }
  }

  lemma EstimatePositive(p: int, y: int, r: int)
    requires 0 < y && p - Product(r, y) < p
    ensures r > 0
  {
    if r <= 0 { MulLe(r, 0, y); }
  }

  // ---- from 32 to 64 bits ----

  // bits.Div32, whose quotient has to fit.
  method Div32(hi: nat, lo: nat, y: nat) returns (quo: nat)
    requires hi < y < 0x1_0000_0000 && lo < 0x1_0000_0000
    ensures quo < 0x1_0000_0000 && quo * y <= hi * 0x1_0000_0000 + lo < (quo + 1) * y
  {
    var n := hi * 0x1_0000_0000 + lo;
    quo := n / y;
    Distribute(quo, 1, y);
    if quo >= 0x1_0000_0000 { MulLe(0x1_0000_0000, quo, y); }
  }

  // floor(2^63 / yh), or the largest number below 2^32.
  method FirstEstimate(yh: nat) returns (r0: nat)
    requires 0x8000_0000 <= yh < 0x1_0000_0000
    ensures r0 < 0x1_0000_0000
    ensures if yh == 0x8000_0000 then r0 == 0xFFFF_FFFF else r0 * yh <= 0x8000_0000_0000_0000 < (r0 + 1) * yh
  {
    if yh == 0x8000_0000 {
      r0 := 0xFFFF_FFFF;
    } else {
      r0 := Div32(0x8000_0000, 0, yh);
    }
  }

  // The error of the estimate from the top 32 bits of y; u is 2^224.
  lemma FirstError(k: int, u: int, y: int, yh: int, r0: int)
    requires 0 < u && k == 0x8000_0000 * u && 0x8000_0000 <= yh < 0x1_0000_0000 && yh * u <= y < (yh + 1) * u
    requires 0 <= r0 < 0x1_0000_0000
    requires if yh == 0x8000_0000 then r0 == 0xFFFF_FFFF else r0 * yh <= 0x8000_0000_0000_0000 < (r0 + 1) * yh
    ensures -2 * k <= 0x1_0000_0000 * k - Product(r0, y) <= 2 * k
  {
    if yh == 0x8000_0000 {
    } else {
      Distribute(yh, 1, u);
      Distribute(r0, 1, yh);
      MulLe(yh * u, y, r0);
      MulLe(y, (yh + 1) * u, r0);
      assert r0 * (yh * u) == (r0 * yh) * u;
      MulLe(r0 * yh, 0x8000_0000_0000_0000, u);
      MulLe(0x8000_0000_0000_0000 - yh, r0 * yh, u);
      Distribute(0x8000_0000_0000_0000, yh, u);
      MulLe(r0, 0x1_0000_0000, u);
      MulLe(yh, 0x1_0000_0000, u);
    }
  }

  // What the first iteration adds to the exact step: the low words of y and of the product. Here h
  // is 2^32 and w is 2^64.
  lemma FirstStep(h: int, w: int, w3: int, k: int, r0: int, y3: int, y: int, hi: int, lo: int, r1: int) returns (d: int)
    requires 0 < w3 && w == h * h && 2 * k == w * w3 && 0 <= r0 < h && 0 <= lo < w
    requires y3 * w3 <= y < (y3 + 1) * w3 && lo + w * hi == Product(Product(r0, r0), y3)
    requires r1 == 2 * (r0 * h - hi)
    ensures k * r1 == 2 * (h * k) * r0 - Product(Product(r0, r0), y) + d && 0 <= d < 4 * k
  {
    hide Product;
    var f, s := y - y3 * w3, Product(r0, r0);
    d := Product(s, f) + w3 * lo;
    SplitFactor(s, y3, w3, f, y);
    assert Product(s, y3) * w3 == w3 * lo + w * w3 * hi by { Distribute(lo, w * hi, w3); Associate(w, hi, w3); }
    assert k * r1 == 2 * (h * k) * r0 - w * w3 * hi by { FirstScale(h, w * w3, k, r0, hi); }
    assert 0 <= d < 4 * k by {
      Distribute(y3, 1, w3);
      SquareWithin(r0, h);
      FirstAdded(s, w, f, lo, w3);
    }
  }

  lemma FirstScale(h: int, ww3: int, k: int, r0: int, hi: int)
    requires 2 * k == ww3
    ensures k * (2 * (r0 * h - hi)) == 2 * (h * k) * r0 - ww3 * hi
  {
    assert k * (2 * (r0 * h - hi)) == 2 * k * (r0 * h) - 2 * k * hi;
    assert 2 * k * (r0 * h) == 2 * (h * k) * r0;
  }

  lemma SquareWithin(r: int, h: int)
    requires 0 <= r < h
    ensures 0 <= Product(r, r) < h * h
  {
    MulBoth(r, h - 1, r, h - 1);
    MulLe(h - 1, h, h);
    MulLe(1, h, h - 1);
    assert (h - 1) * (h - 1) == h * h - 2 * h + 1;
  }

  lemma FirstAdded(s: int, w: int, f: int, lo: int, w3: int)
    requires 0 <= s < w && 0 <= f < w3 && 0 <= lo < w
    ensures 0 <= Product(s, f) + w3 * lo < 2 * (w * w3)
  {
    hide Product;
    ProductWithin(s, w, f, w3);
    MulLe(lo, w - 1, w3);
    Distribute(w, 1, w3);
    MulLe(0, lo, w3);
  }

  lemma ProductWithin(a: int, m: int, b: int, n: int)
    requires 0 <= a < m && 0 <= b < n
    ensures 0 <= Product(a, b) <= m * n
  {
    MulBoth(a, m, b, n);
    MulBoth(0, a, 0, b);
  }

  // With the largest estimate the exact step is 2^64 for the least y3 and fits in a word for any other.
  lemma FirstLargest(y3: int, hi: int, lo: int)
    requires 0x8000_0000_0000_0000 <= y3 < 0x8000_0001_0000_0000 && 0 <= lo < B
    requires lo + B * hi == 0xFFFF_FFFE_0000_0001 * y3
    ensures var r1 := 2 * (0xFFFF_FFFF * 0x1_0000_0000 - hi); r1 <= B && (r1 == B <==> y3 == 0x8000_0000_0000_0000)
  {
  }

  lemma LargestSquare(y3: int)
    ensures Product(Product(0xFFFF_FFFF, 0xFFFF_FFFF), y3) == 0xFFFF_FFFE_0000_0001 * y3
  {
  }

  // The least left-aligned top word doubles to zero.
  lemma TopBitOnly(y3: Word, r: Word)
    requires 0x8000_0000_0000_0000 <= y3
    ensures Or(r, Shl(y3, 1)) == 0 <==> r == 0 && y3 == 0x8000_0000_0000_0000
  {
    hide Or;
    OrIsZero(r, Shl(y3, 1));
    assert Pow2(1) == 2;
    DivUnique(2 * y3, B, 1, 2 * y3 - B);
  }

  lemma TopHalf(y3: Word) returns (yh: nat)
    requires 0x8000_0000_0000_0000 <= y3
    ensures yh == Shr(y3, 32) && 0x8000_0000 <= yh < 0x1_0000_0000
    ensures yh * 0x1_0000_0000 <= y3 < (yh + 1) * 0x1_0000_0000
  {
    Pow2Word();
    yh := Shr(y3, 32);
  }

  lemma TopScale(y: int, y3: int, yh: int, w3: int)
    requires 0 < w3 && yh * 0x1_0000_0000 <= y3 < (yh + 1) * 0x1_0000_0000 && y3 * w3 <= y < (y3 + 1) * w3
    ensures yh * (0x1_0000_0000 * w3) <= y < (yh + 1) * (0x1_0000_0000 * w3)
  {
    MulLe(yh * 0x1_0000_0000, y3, w3);
    MulLe(y3 + 1, (yh + 1) * 0x1_0000_0000, w3);
  }

  // The saturated estimate for the least y3.
  lemma Saturated(k: int, y: int, n: int, w: int, slack: int)
    requires 0 < n && 0 < k < y <= k + w && n * w <= slack && y <= slack
    ensures -slack <= n * k - Product(n - 1, y) <= slack
  {
    MulLe(0, y - k, n);
    MulLe(y - k, w, n);
    assert n * k - (n - 1) * y == y - (y - k) * n;
    assert (y - k) * n <= w * n == n * w;
  }

  method SquareOf(r0: nat) returns (s: Word)
    requires r0 < 0x1_0000_0000
    ensures s == Product(r0, r0)
  {
    MulBoth(r0, 0xFFFF_FFFF, r0, 0xFFFF_FFFF);
    s := r0 * r0;
  }

  // What the first iteration computes, before it is cut to a word.
  function FirstExact(y3: Word): int
  {
    var yh := y3 / 0x1_0000_0000;
    var r0 := if yh <= 0x8000_0000 then 0xFFFF_FFFF else 0x8000_0000_0000_0000 / yh;
    2 * (r0 * 0x1_0000_0000 - Product(Product(r0, r0), y3) / B)
  }

  // A number that is one too large for its words is replaced by the largest that fits.
  function Capped(exact: int, limit: int): int
  {
    if exact == limit then limit - 1 else exact
  }

  method FirstIteration(ghost y: nat, y3: Word) returns (r1: Word)
    requires 0x8000_0000_0000_0000 <= y3 && y3 * (B * (B * B)) <= y < (y3 + 1) * (B * (B * B)) && K < y < 2 * K
    ensures -8 * K <= B * K - Product(r1, y) <= 8 * K
    ensures r1 == Capped(FirstExact(y3), B)
    ensures FirstExact(y3) == B <==> y3 == 0x8000_0000_0000_0000
  {
    hide Or, Shl, Shr, Pow2, Product, FirstExact;
    FirstExactError(y, y3);
    ghost var top := TopHalf(y3);
    var yh := Shr(y3, 32);
    var r0 := FirstEstimate(yh);

    var t1 := SquareOf(r0);
    ghost var lo;
    t1, lo := MulFull(t1, y3);
    r1 := r0 * 0x1_0000_0000;
    FirstIsExact(y3, yh, r0, t1, lo, 2 * (r1 - t1));
    r1 := SubWrap(r1, t1);
    r1 := AddWrap(r1, r1);

    TopBitOnly(y3, r1);
    if Or(r1, Shl(y3, 1)) == 0 {
      r1 := B - 1;
    }
  }

  // The error of the exact step, which is 2^64 only for the least y3.
  lemma FirstExactError(y: nat, y3: Word)
    requires 0x8000_0000_0000_0000 <= y3 && y3 * (B * (B * B)) <= y < (y3 + 1) * (B * (B * B)) && K < y < 2 * K
    ensures 0 < FirstExact(y3) <= B
    ensures FirstExact(y3) == B <==> y3 == 0x8000_0000_0000_0000
    ensures -8 * K <= B * K - Product(Capped(FirstExact(y3), B), y) <= 8 * K
  {
    hide Product, FirstExact;
    var w3, u, yh := B * (B * B), 0x1_0000_0000 * (B * (B * B)), y3 / 0x1_0000_0000;
    var r0 := if yh == 0x8000_0000 then 0xFFFF_FFFF else 0x8000_0000_0000_0000 / yh;
    if yh > 0x8000_0000 { TopQuotient(yh, r0); }
    TopScale(y, y3, yh, w3);
    FirstError(K, u, y, yh, r0);

    var p := Product(Product(r0, r0), y3);
    var hi, lo := p / B, p % B;
    var exact := 2 * (r0 * 0x1_0000_0000 - hi);
    var d := FirstStep(0x1_0000_0000, B, w3, K, r0, y3, y, hi, lo, exact);
    var e0, e1 := 0x1_0000_0000 * K - Product(r0, y), B * K - Product(exact, y);
    NewtonStep(0x1_0000_0000 * K, r0, y, K, B * K, exact, d, e0, e1);
    ErrorBound(K, y, e0, e1, d, 2 * K, 4 * K);
    EstimatePositive(B * K, y, exact);
    if yh == 0x8000_0000 {
      LargestSquare(y3);
      FirstLargest(y3, hi, lo);
    } else {
      MulLe(0x8000_0001, yh, u);
      EstimateBelow(B * K, y, exact, B, 4 * y);
    }
    FirstIsExact(y3, yh, r0, hi, lo, exact);
    if exact == B { Saturated(K, y, B, w3, 8 * K); }
  }

  lemma TopQuotient(yh: int, r0: int)
    requires 0x8000_0000 < yh && r0 == 0x8000_0000_0000_0000 / yh
    ensures 0 <= r0 < 0x1_0000_0000 && r0 * yh <= 0x8000_0000_0000_0000 < (r0 + 1) * yh
  {
    Distribute(r0, 1, yh);
    if r0 >= 0x1_0000_0000 { MulLe(0x1_0000_0000, r0, yh); }
    if r0 < 0 { MulLe(r0, -1, yh); }
  }

  lemma FirstIsExact(y3: Word, yh: nat, r0: nat, hi: int, lo: int, exact: int)
    requires yh * 0x1_0000_0000 <= y3 < (yh + 1) * 0x1_0000_0000 && 0x8000_0000 <= yh
    requires if yh == 0x8000_0000 then r0 == 0xFFFF_FFFF else r0 * yh <= 0x8000_0000_0000_0000 < (r0 + 1) * yh
    requires 0 <= lo < B && lo + B * hi == Product(Product(r0, r0), y3) && exact == 2 * (r0 * 0x1_0000_0000 - hi)
    ensures exact == FirstExact(y3)
  {
    hide Product;
    assert y3 / 0x1_0000_0000 == yh;
    DivUnique(Product(Product(r0, r0), y3), B, hi, lo);
    if yh > 0x8000_0000 {
      Distribute(r0, 1, yh);
      DivUnique(0x8000_0000_0000_0000, yh, r0, 0x8000_0000_0000_0000 - r0 * yh);
    }
  }

  // ---- from 64 to 128 bits ----

  // The upper two words of r1^2 times y3:y2, rounded down.
  method SecondProduct(r1: Word, y3: Word, y2: Word) returns (e2h: Word, e2l: Word)
    ensures 0 <= Product(Product(r1, r1), y3 * B + y2) - B * B * (e2l + B * e2h) < B * B
  {
    hide Product;
    var c;
    ghost var b2l;
    var a2h, a2l := MulFull(r1, r1);
    var b2h: Word;
    b2h, b2l := MulFull(a2l, y2);
    var c2h, c2l := MulFull(a2l, y3);
    var d2h, d2l := MulFull(a2h, y2);
    e2h, e2l := MulFull(a2h, y3);
    ProductLimit(a2l, y2);
    ProductLimit(a2l, y3);
    ProductLimit(a2h, y2);
    ProductLimit(a2h, y3);
    b2h, c := Add64(b2h, c2l, 0);
    e2l, c := Add64(e2l, c2h, c);
    e2h := AddTop(e2h, c);
    b2h, c := Add64(b2h, d2l, 0);
    e2l, c := Add64(e2l, d2h, c);
    e2h := AddTop(e2h, c);
    assert 0 <= b2l + B * b2h < B * B;
    TwoByTwo(r1, a2l, a2h, y2, y3);
  }

  lemma TwoByTwo(r: int, a0: int, a1: int, y0: int, y1: int)
    requires a0 + B * a1 == Product(r, r)
    ensures Product(Product(r, r), y1 * B + y0)
         == Product(a0, y0) + B * (Product(a0, y1) + Product(a1, y0)) + B * B * Product(a1, y1)
  {
    var a := a0 + B * a1;
    assert a * (y1 * B + y0) == a * (y1 * B) + a * y0;
    assert a * y0 == a0 * y0 + B * (a1 * y0);
    assert a * (y1 * B) == B * (a0 * y1 + B * (a1 * y1));
  }

  // What the second iteration adds to the exact step; w is 2^64.
  lemma SecondStep(w: int, k: int, r1: int, t: int, y: int, v: int, low: int, r2: int) returns (d: int)
    requires 2 * k == w * (w * (w * w)) && 0 <= r1 < w && 0 <= low < w * w
    requires t * (w * w) <= y < (t + 1) * (w * w) && low + w * w * v == Product(Product(r1, r1), t)
    requires r2 == 2 * (r1 * w - v)
    ensures k * r2 == 2 * (w * k) * r1 - Product(Product(r1, r1), y) + d && 0 <= d < 4 * k
  {
    hide Product;
    var w2, f, s := w * w, y - t * (w * w), Product(r1, r1);
    d := Product(s, f) + w2 * low;
    AddedLess(w, r1, f, low) by { Distribute(t, 1, w2); }
    SplitFactor(s, t, w2, f, y);
    assert Product(s, t) * w2 == w2 * low + w2 * w2 * v by { Distribute(low, w2 * v, w2); Associate(w2, v, w2); }
    assert 2 * k == w2 * w2 by { FourthPower(w); }
    assert k * r2 == 2 * (w * k) * r1 - w2 * w2 * v by { HalfStep(w, k, r1, v); }
  }

  lemma SplitFactor(s: int, t: int, w2: int, f: int, y: int)
    requires y == t * w2 + f
    ensures Product(s, y) == Product(s, t) * w2 + Product(s, f)
  {
    assert s * (t * w2) == (s * t) * w2;
  }

  lemma AddedLess(w: int, r1: int, f: int, low: int)
    requires 0 <= r1 < w && 0 <= f < w * w && 0 <= low < w * w
    ensures 0 <= Product(Product(r1, r1), f) + w * w * low < 2 * ((w * w) * (w * w))
  {
    var w2, s := w * w, r1 * r1;
    MulBoth(r1, w, r1, w);
    MulBoth(s, w2, f, w2 - 1);
    MulBoth(low, w2 - 1, w2, w2);
    assert w2 * (w2 - 1) == w2 * w2 - w2 && (w2 - 1) * w2 == w2 * w2 - w2;
  }

  lemma FourthPower(w: int)
    ensures w * (w * (w * w)) == (w * w) * (w * w)
  {
  }

  lemma HalfStep(w: int, k: int, r1: int, v: int)
    requires 2 * k == (w * w) * (w * w)
    ensures k * (2 * (r1 * w - v)) == 2 * (w * k) * r1 - (w * w) * (w * w) * v
  {
    assert k * (2 * (r1 * w - v)) == 2 * k * (r1 * w) - 2 * k * v;
    assert 2 * k * (r1 * w) == 2 * (w * k) * r1;
  }

  // With the largest estimate the exact step is 2^128 when y3:y2 is the least there is, and fits in
  // two words otherwise.
  lemma SecondLargest(y2: int, v: int, low: int)
    requires 0 <= y2 < B && 0 <= low < B * B
    requires low + B * B * v == (B - 1) * (B - 1) * (0x8000_0000_0000_0000 * B + y2)
    ensures var r2 := 2 * ((B - 1) * B - v); r2 <= B * B && (r2 == B * B ==> y2 == 0)
  {
  }

  lemma SecondLargestSquare(t: int)
    ensures Product(Product(B - 1, B - 1), t) == (B - 1) * (B - 1) * t
  {
  }

  // 2 * (r1:0 - e2h:e2l) modulo 2^128.
  method DoubleDifference(r1: Word, e2h: Word, e2l: Word) returns (r2h: Word, r2l: Word)
    ensures var exact := 2 * (r1 * B - (e2l + B * e2h));
            0 < exact <= B * B ==> r2l + B * r2h == if exact == B * B then 0 else exact
  {
    var b, c, lost, over;
    var t2l, t2h;
    t2l, b := Sub64(0, e2l, 0);
    t2h, lost := Sub64(r1, e2h, b);
    r2l, c := Add64(t2l, t2l, 0);
    r2h, over := Add64(t2h, t2h, c);
  }

  lemma SecondError(w: int, k: int, t: int, y: int, r1: int, v: int, low: int, exact: int)
    requires 64 < w && 2 * k == w * (w * (w * w)) && k < y && 0 <= r1 < w && 0 <= low < w * w
    requires t * (w * w) <= y < (t + 1) * (w * w)
    requires -8 * k <= w * k - Product(r1, y) <= 8 * k
    requires low + w * w * v == Product(Product(r1, r1), t) && exact == 2 * (r1 * w - v)
    ensures -4 * y < w * w * k - Product(exact, y) <= 64 * k
    ensures 0 < exact
  {
    hide Product;
    BaseFacts(w, k);
    var d := SecondStep(w, k, r1, t, y, v, low, exact);
    var e1, e2 := w * k - Product(r1, y), w * w * k - Product(exact, y);
    assert (w * k) * (w * k) == k * (w * w * k) by { SquareOfScaled(w, k); }
    NewtonStep(w * k, r1, y, k, w * w * k, exact, d, e1, e2);
    assert (8 * k) * (8 * k) == k * (64 * k) by { EightTimes(k); }
    ErrorBound(k, y, e1, e2, d, 8 * k, 64 * k);
    assert 64 * k < w * w * k by { MulLe(65, w * w, k); }
    EstimatePositive(w * w * k, y, exact);
  }

  lemma EightTimes(k: int)
    ensures (8 * k) * (8 * k) == k * (64 * k)
  {
  }

  lemma SquareOfScaled(w: int, k: int)
    ensures (w * k) * (w * k) == k * (w * w * k)
  {
  }

  // The powers of the base in use.
  lemma BaseFacts(w: int, k: int)
    requires 64 < w && 2 * k == w * (w * (w * w))
    ensures w < w * w < w * (w * w) < k
  {
    MulLe(65, w, w);
    MulLe(w, w * w, w);
    MulLe(65, w, w * (w * w));
    MulLe(1, w, w * w);
  }

  // What the second iteration computes from y3:y2, before it is cut to two words.
  function SecondExact(r1: int, t: int): int
  {
    2 * (r1 * B - Product(Product(r1, r1), t) / (B * B))
  }

  lemma SecondIsExact(r1: int, t: int, v: int, low: int)
    requires 0 <= low < B * B && low + B * B * v == Product(Product(r1, r1), t)
    ensures SecondExact(r1, t) == 2 * (r1 * B - v)
  {
    hide Product;
    DivUnique(Product(Product(r1, r1), t), B * B, v, low);
  }

  // The error of the exact step, which is 2^128 only for the least y3:y2.
  lemma SecondExactError(y: nat, r1: Word, y3: Word, y2: Word)
    requires 0x8000_0000_0000_0000 <= y3 && K < y < 2 * K
    requires (y3 * B + y2) * (B * B) <= y < (y3 * B + y2 + 1) * (B * B)
    requires -8 * K <= B * K - Product(r1, y) <= 8 * K
    requires y3 == 0x8000_0000_0000_0000 ==> r1 == B - 1
    ensures 0 < SecondExact(r1, y3 * B + y2) <= B * B
    ensures SecondExact(r1, y3 * B + y2) == B * B ==> y3 == 0x8000_0000_0000_0000
    ensures -64 * K <= B * B * K - Product(Capped(SecondExact(r1, y3 * B + y2), B * B), y) <= 64 * K
  {
    hide Product, SecondExact;
    var t := y3 * B + y2;
    var p := Product(Product(r1, r1), t);
    var v, low := p / (B * B), p % (B * B);
    SecondIsExact(r1, t, v, low);
    KTwice();
    SecondError(B, K, t, y, r1, v, low, 2 * (r1 * B - v));
    if y3 == 0x8000_0000_0000_0000 {
      SecondLargestSquare(t);
      SecondLargest(y2, v, low);
    } else {
      MulLe(0x8000_0000_0000_0001, y3, B * (B * B));
      EstimateBelow(B * B * K, y, 2 * (r1 * B - v), B * B, 4 * y);
    }
    if 2 * (r1 * B - v) == B * B { Saturated(K, y, B * B, B * B, 64 * K); }
  }

  method SecondIteration(r1: Word, y3: Word, y2: Word) returns (r2h: Word, r2l: Word)
    requires 0x8000_0000_0000_0000 <= y3 && 0 < SecondExact(r1, y3 * B + y2) <= B * B
    requires SecondExact(r1, y3 * B + y2) == B * B ==> y3 == 0x8000_0000_0000_0000
    ensures r2l + B * r2h == Capped(SecondExact(r1, y3 * B + y2), B * B)
  {
    hide Or, Shl, Shr, Pow2, Product, SecondExact;
    var e2h, e2l := SecondProduct(r1, y3, y2);
    ghost var v: int := e2l + B * e2h;
    SecondIsExact(r1, y3 * B + y2, v, Product(Product(r1, r1), y3 * B + y2) - B * B * v);
    r2h, r2l := DoubleDifference(r1, e2h, e2l);
    OrIsZero(r2h, r2l);
    TopBitOnly(y3, Or(r2h, r2l));
    if Or(Or(r2h, r2l), Shl(y3, 1)) == 0 {
      r2h, r2l := B - 1, B - 1;
    }
  }
}
