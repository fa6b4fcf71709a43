// When the candidate for 2^574 / y is one below the floor, in terms of what 2^447 and 2^574 leave
// when divided by 2y and by y.
module Shortfall {
  import opened Arith
  import opened Words
  import opened Limbs
  import opened Bits
  import opened Columns
  import opened Newton
  import opened NewtonWide

  // ---- the error of a step, from the window of its result ----

  // Half the third estimate is t, in base w.
  lemma ThirdWindow(w: int, w2: int, w3: int, k: int, y: int, r2: int, t: int)
    requires 8192 < w && w2 == w * w && w3 == w * w2 && 2 * k == w * w3 && k < y < 2 * k
    requires -64 * k <= w2 * k - Product(r2, y) <= 64 * k
    requires Truncated(t, w3 * (r2 * w3) - Product(Product(r2, r2), y), w3 * w2, 6 * w3)
    ensures -12 * w2 <= w3 * k - Product(2 * t, y)
    ensures w * (w3 * k - Product(2 * t, y) - 2 * y) < 4096 * k
  {
    hide Product;
    Powers(w, w2, w3, k);
    var s := Product(Product(r2, r2), y);
    var d := w3 * w2 * t - (w3 * (r2 * w3) - s);
    var p2, p3, m := w2 * k, w3 * k, w * k;
    var e2, e3 := p2 - Product(r2, y), p3 - Product(2 * t, y);
    assert m * (2 * t) == 2 * p2 * r2 - s + d by {
      Reordered(w, w2, w3, k, t);
      Associate(w3, w2, t);
      TopTerm(w, w2, w3, k, r2);
      Swapped(w3, r2);
    }
    assert p2 * p2 == m * p3 by { ThirdScale(w, w2, w3, k); }
    NewtonStep(p2, r2, y, m, p3, 2 * t, d, e2, e3);
    assert w3 * w2 == 2 * m by { Reordered(w, w2, w3, k, 1); }
    SquareBound(e2, 64 * k);
    assert (6 * w3) * y <= m * (12 * w2) by { AboveFits(w, w2, w3, k, y); }
    ThirdRange(w, k, m, y, Product(e2, e2), e3, d, 6 * w3, 12 * w2);
  }

  lemma Swapped(w3: int, r: int)
    ensures w3 * (r * w3) == w3 * (w3 * r)
  {
  }

  lemma ThirdRange(w: int, k: int, m: int, y: int, s: int, e: int, d: int, above: int, down: int)
    requires 0 < w && 0 < k && 0 < y && m == w * k && m * e == s - Product(d, y)
    requires 0 <= s <= (64 * k) * (64 * k) && -2 * m < d < above && above * y <= m * down
    ensures -down <= e && w * (e - 2 * y) < 4096 * k
  {
    assert 0 < m by { MulLe(1, w, k); }
    assert -2 * (m * y) < Product(d, y) <= above * y by {
      MulLe(-2 * m + 1, d, y);
      MulLe(d, above, y);
      Distribute(-2 * m, 1, y);
      Associate(-2, m, y);
    }
    hide Product;
    BelowByFactor(m, -down - 1, e, -(m * down) - m, s - Product(d, y)) by { Distribute(-down, 1, m); }
    assert k * (w * (e - 2 * y)) == m * e - 2 * (m * y) by { Excess(w, k, m, e, y); }
    assert (64 * k) * (64 * k) == k * (4096 * k);
    BelowByFactor(k, w * (e - 2 * y), 4096 * k, m * e - 2 * (m * y), k * (4096 * k));
  }

  lemma Excess(w: int, k: int, m: int, e: int, y: int)
    requires m == w * k
    ensures k * (w * (e - 2 * y)) == m * e - 2 * (m * y)
  {
    assert k * (w * (e - 2 * y)) == (w * k) * (e - 2 * y);
    Distribute(e, 2 * y, m);
    Associate(2, y, m);
  }

  // The error of the candidate c is the square of the third error, less d times y.
  lemma FourthWindow(w: int, w2: int, w3: int, k: int, y: int, r3: int, c: int) returns (d: int)
    requires 0 < w2 && w2 == w * w && w3 == w * w2 && 2 * k == w * w3
    requires Truncated(c, w3 * (r3 * (2 * k)) - Product(Product(r3, r3), y), w3 * w2, 6 * k)
    ensures var e3 := w3 * k - Product(r3, y);
            2 * (w * k) * (w * (k * k) - Product(c, y)) == Product(e3, e3) - Product(d, y)
    ensures -2 * (w * k) < d < 6 * k
  {
    hide Product;
    var s := Product(Product(r3, r3), y);
    d := w3 * w2 * c - (w3 * (r3 * (2 * k)) - s);
    var p3, p4, m := w3 * k, w * (k * k), w * k;
    assert 2 * m * c == 2 * p3 * r3 - s + d by {
      ReorderedTwice(w, w2, w3, k, c);
      Associate(w3, w2, c);
      ScaledTop(w3, r3, k);
    }
    assert w3 * w2 == 2 * m by { Reordered(w, w2, w3, k, 1); }
    assert p3 * p3 == 2 * m * p4 by { FourthScale(w, w2, w3, k); }
    NewtonStep(p3, r3, y, 2 * m, p4, c, d, p3 - Product(r3, y), p4 - Product(c, y));
  }

  // ---- the candidate against the floor ----

  // x leaves r when divided by n, q times.
  ghost predicate Leaves(x: int, n: int, q: int, r: int)
  {
    x == Product(q, n) + r && 0 <= r < n
  }

  // The error e of the candidate reaches y if the residue of p is small against the square of the
  // third error, and not if it is as large as that square.
  lemma ReachesDivisor(m: int, k: int, y: int, p: int, q: int, r: int, c: int, e: int, square: int, d: int)
    requires 0 < m && 0 < y && e == p - Product(c, y) && Leaves(p, y, q, r)
    requires 2 * m * e == square - Product(d, y) && -2 * m < d < 6 * k
    ensures e >= y ==> 2 * m * r < square
    ensures 2 * m * r < square - 6 * k * y ==> e >= y
  {
    assert -2 * m * y < Product(d, y) <= 6 * k * y by {
      MulLe(-2 * m + 1, d, y);
      Distribute(-2 * m, 1, y);
      MulLe(d, 6 * k, y);
    }
    assert e == r + (q - c) * y by { Distribute(q, c, y); }
    hide Product;
    if e >= y {
      if q - c < 1 { MulLe(q - c, 0, y); }
      MulLe(1, q - c, y);
      MulLe(r + y, e, 2 * m);
      Distribute(r, y, 2 * m);
    } else {
      if q - c > 0 { MulLe(1, q - c, y); }
      MulLe(q - c, 0, y);
      MulLe(e, r, 2 * m);
    }
  }

  // The third error against the residue of its own p.
  lemma ErrorResidue(y: int, p: int, q: int, rho: int, t: int, e: int, down: int)
    requires 0 < y && 0 <= down && e == p - Product(2 * t, y) && -down <= e && Leaves(p, 2 * y, q, rho)
    ensures e >= rho || e <= rho - 2 * y
    ensures e <= rho || e >= rho + 2 * y
    ensures rho + down < 2 * y ==> e >= rho
  {
    assert Product(2 * t, y) == t * (2 * y);
    Distribute(q, t, 2 * y);
    if q > t { MulLe(1, q - t, 2 * y); }
    if q < t { MulLe(q - t, -1, 2 * y); }
  }

  // Both errors together, in base w. The candidate falls short only for a residue of p4 that is small
  // against the square of rho, the residue of p3, and always for one a little smaller than that.
  lemma ShortfallScaled(w: int, w2: int, w3: int, k: int, y: int, r2: int, t: int, c: int,
                        q3: int, rho: int, q4: int, r: int)
    requires 8192 < w && w2 == w * w && w3 == w * w2 && 2 * k == w * w3 && k < y < 2 * k
    requires -64 * k <= w2 * k - Product(r2, y) <= 64 * k
    requires Truncated(t, w3 * (r2 * w3) - Product(Product(r2, r2), y), w3 * w2, 6 * w3)
    requires Truncated(c, w3 * (2 * t * (2 * k)) - Product(Product(2 * t, 2 * t), y), w3 * w2, 6 * k)
    requires Leaves(w3 * k, 2 * y, q3, rho) && Leaves(w * (k * k), y, q4, r)
    ensures var e := w * (k * k) - Product(c, y);
            && -y < e && 2 * e < 3 * y
            && FallsShort(e >= y, w, k, y, w2, rho, r)
  {
    hide Product, Truncated;
    Powers(w, w2, w3, k);
    ThirdWindow(w, w2, w3, k, y, r2, t);
    var d := FourthWindow(w, w2, w3, k, y, 2 * t, c);
    var p3, p4, m := w3 * k, w * (k * k), w * k;
    var e3, e4 := p3 - Product(2 * t, y), p4 - Product(c, y);
    var square := Product(e3, e3);
    ErrorBelow(w, w2, w3, k, y, e3);
    SquareBound(e3, 5 * k);
    assert (5 * k) * (5 * k) == 25 * (k * k);
    LastBound(w, m, k, y, square, e4, d);
    assert 0 < m by { MulLe(1, w, k); }
    ReachesDivisor(m, k, y, p4, q4, r, c, e4, square, d);
    ErrorResidue(y, p3, q3, rho, t, e3, 12 * w2);
    SmallResidue(w, k, m, r, square, e4 >= y);
    if w * rho >= 4096 * k {
      RhoDominates(w, w2, w3, k, y, e3, rho);
    }
    if rho + 12 * w2 < 2 * y { SquareAtLeast(e3, rho); }
  }

  // What is known of a result two below: rho and r are what p3 and p4 leave.
  ghost predicate FallsShort(short: bool, w: int, k: int, y: int, w2: int, rho: int, r: int)
  {
    && (short ==> 2 * w * r < 25 * k)
    && (short && w * rho >= 4096 * k ==> 2 * (w * k) * r < Product(rho, rho))
    && (rho + 12 * w2 < 2 * y && 2 * (w * k) * r < Product(rho, rho) - 6 * k * y ==> short)
  }

  lemma ErrorBelow(w: int, w2: int, w3: int, k: int, y: int, e: int)
    requires 8192 < w && w2 == w * w && w3 == w * w2 && 2 * k == w * w3 && y < 2 * k
    requires -12 * w2 <= e && w * (e - 2 * y) < 4096 * k
    ensures -5 * k <= e <= 5 * k
  {
    SquaresApart(w, w2, w3, k);
    AtMostScaled(w, e - 2 * y, k);
  }

  lemma SquaresApart(w: int, w2: int, w3: int, k: int)
    requires 8192 < w && w2 == w * w && w3 == w * w2 && 2 * k == w * w3
    ensures 0 < w2 && 12 * w2 <= 5 * k && 12 * w2 <= 2048 * w3
  {
    Powers(w, w2, w3, k);
    MulLe(13, w, w2);
    MulLe(1, w, w3);
  }

  lemma AtMostScaled(w: int, x: int, k: int)
    requires 4096 < w && 0 < k && w * x < 4096 * k
    ensures x < k
  {
    if x >= k { MulLe(k, x, w); MulLe(4096, w, k); }
  }

  lemma SmallResidue(w: int, k: int, m: int, r: int, square: int, short: bool)
    requires 0 < k && m == w * k && square <= 25 * (k * k) && (short ==> 2 * m * r < square)
    ensures short ==> 2 * w * r < 25 * k
  {
    if short {
      assert 2 * m * r == k * (2 * w * r);
      assert 25 * (k * k) == k * (25 * k);
      BelowByFactor(k, 2 * w * r, 25 * k, 2 * m * r, 25 * (k * k));
    }
  }

  lemma RhoDominates(w: int, w2: int, w3: int, k: int, y: int, e: int, rho: int)
    requires 8192 < w && w2 == w * w && w3 == w * w2 && 2 * k == w * w3
    requires -12 * w2 <= e && w * (e - 2 * y) < 4096 * k && w * rho >= 4096 * k
    requires e <= rho || e >= rho + 2 * y
    ensures Product(e, e) <= Product(rho, rho)
  {
    hide Product;
    assert e <= rho by { NotBeyond(w, k, y, e, rho); }
    assert -rho <= e by {
      SquaresApart(w, w2, w3, k);
      AtLeastScaled(w, rho, w3, k);
    }
    SquareBound(e, rho);
    AsProduct(rho);
  }

  lemma NotBeyond(w: int, k: int, y: int, e: int, rho: int)
    requires 0 < w && w * (e - 2 * y) < 4096 * k && w * rho >= 4096 * k && (e <= rho || e >= rho + 2 * y)
    ensures e <= rho
  {
    if e >= rho + 2 * y { MulLe(rho, e - 2 * y, w); }
  }

  lemma AsProduct(x: int)
    ensures x * x == Product(x, x)
  {
  }

  lemma AtLeastScaled(w: int, x: int, w3: int, k: int)
    requires 0 < w && 2 * k == w * w3 && w * x >= 4096 * k
    ensures x >= 2048 * w3
  {
    var z := 2048 * w3;
    assert w * z == 4096 * k by { Associate(2048, w3, w); }
    if x < z { MulLe(x + 1, z, w); Distribute(x, 1, w); }
  }

  lemma SquareAtLeast(e: int, rho: int)
    requires 0 <= rho <= e
    ensures Product(rho, rho) <= Product(e, e)
  {
    MulBoth(rho, e, rho, e);
  }

  // ---- the words of y ----

  lemma ShortfallWords(y0: Word, y1: Word, y2: Word, y3: Word, a: int, q3: int, rho: int, q4: int, r: int)
    requires K < Horner(y0, y1, y2, y3) && IsAdjusted(y0, y1, y2, y3, a)
    requires Leaves(B * (B * B) * K, 2 * Horner(y0, y1, y2, y3), q3, rho)
    requires Leaves(B * (K * K), Horner(y0, y1, y2, y3), q4, r)
    ensures var y := Horner(y0, y1, y2, y3);
            var e := B * (K * K) - Product(a, y);
            && 0 <= e && 2 * e < 3 * y
            && FallsShort(e >= y, B, K, y, B * B, rho, r)
  {
    hide Product, Horner, Truncated, FirstExact, SecondExact, FallsShort, Leaves;
    var y := Horner(y0, y1, y2, y3);
    LeftAligned(y0, y1, y2, y3);
    KTwice();
    FirstExactError(y, y3);
    SecondExactError(y, FirstEstimateOf(y3), y3, y2);
    var c: int :| IsCandidate(y0, y1, y2, y3, c) && a == if Product(c, y) > B * (K * K) then c - 1 else c;
    var r2 := SecondEstimateOf(y3, y2);
    var t: int :| ThirdOf(r2, y, t) && FourthOf(t, y, c);
    ShortfallScaled(B, B * B, B * (B * B), K, y, r2, t, c, q3, rho, q4, r);
    OneLess(c, y);
  }

  // ---- in terms of the modulus ----

  // What 2^383 and 2^511 leave when divided by m, against a result two below.
  ghost predicate Residues(short: bool, m: nat, a: nat, b: nat)
  {
    && (short ==> b < 25 * Pow2(127))
    && (short && Pow2(139) <= a ==> b * Pow2(255) < a * a)
    && (a + 12 * B < m && b * Pow2(255) < a * a - 3 * Pow2(191) * m ==> short)
  }

  // With the common factors taken out; h is 2^63, w is 2^64 and n is 2^127.
  lemma FactorsOut(short: bool, h: int, w: int, n: int, k: int, y: int, m: int, a: int, b: int)
    requires 0 < h && w == 2 * h && 0 < n && k == n * (w * w) && y == h * m
    requires FallsShort(short, w, k, y, w * w, w * a, h * b)
    ensures short ==> b < 25 * n
    ensures short && 4096 * n <= a ==> b * k < a * a
    ensures a + 12 * w < m && b * k < a * a - 3 * (n * w) * m ==> short
  {
    hide Product;
    var w2 := w * w;
    assert 0 < w2 by { MulLe(1, w, w); }
    assert 2 * w * (h * b) == w2 * b by { assert 2 * w * (h * b) == w * (2 * h) * b; }
    assert 2 * (w * k) * (h * b) == w2 * (b * k) by { assert 2 * (w * k) * (h * b) == w * (2 * h) * (k * b); }
    assert Product(w * a, w * a) == w2 * (a * a) by { ScaledSquare(w, a); }
    assert 6 * k * y == w2 * (3 * (n * w) * m) by { SlackScaled(h, w, n, k, y, m); }
    if short {
      BelowByFactor(w2, b, 25 * n, w2 * b, 25 * k) by { Associate(25, n, w2); }
      if 4096 * n <= a {
        assert w * (w * a) >= 4096 * k by { MulLe(4096 * n, a, w2); Associate(4096, n, w2); Associate(w, w, a); }
        BelowByFactor(w2, b * k, a * a, w2 * (b * k), w2 * (a * a));
      }
    }
    if a + 12 * w < m && b * k < a * a - 3 * (n * w) * m {
      ScaledSum(h, w, m, a);
      MulLe(b * k + 1, a * a - 3 * (n * w) * m, w2);
      Distribute(b * k, 1, w2);
      Distribute(a * a, 3 * (n * w) * m, w2);
    }
  }

  lemma ScaledSquare(w: int, a: int)
    ensures Product(w * a, w * a) == (w * w) * (a * a)
  {
  }

  lemma SlackScaled(h: int, w: int, n: int, k: int, y: int, m: int)
    requires w == 2 * h && k == n * (w * w) && y == h * m
    ensures 6 * k * y == (w * w) * (3 * (n * w) * m)
  {
    assert 6 * k * (h * m) == 3 * k * ((2 * h) * m);
    assert 3 * (n * (w * w)) * (w * m) == (w * w) * (3 * (n * w) * m);
  }

  lemma ScaledSum(h: int, w: int, m: int, a: int)
    requires 0 < w && w == 2 * h && a + 12 * w < m
    ensures w * a + 12 * (w * w) < 2 * (h * m)
  {
    MulLe(a + 12 * w + 1, m, w);
    Distribute(a, 12 * w + 1, w);
    Distribute(12 * w, 1, w);
    Associate(2, h, m);
  }

  lemma ScaledLeaves(c: int, x: int, m: int, q: int, r: int)
    requires 0 < c && 0 < m && Leaves(x, m, q, r)
    ensures Leaves(c * x, c * m, q, c * r)
  {
    assert c * x == q * (c * m) + c * r by { Distribute(q * m, r, c); Associate(q, m, c); }
    MulLe(0, r, c);
    MulLe(r + 1, m, c);
    Distribute(r, 1, c);
  }

  lemma Scales()
    ensures B == 2 * Pow2(63) && K == Pow2(127) * (B * B) && Pow2(255) == K
    ensures Pow2(139) == 4096 * Pow2(127) && Pow2(191) == Pow2(127) * B
    ensures B * (B * B) * K == B * Pow2(383) && B * (K * K) == Pow2(63) * Pow2(511)
  {
    hide Pow2;
    Pow2Word();
    SmallPowers();
    Pow2Add(63, 64);
    Pow2Add(64, 64);
    Pow2Add(12, 127);
    Pow2Add(127, 64);
    Pow2Add(127, 128);
    Pow2Add(128, 255);
    Pow2Add(255, 255);
    Pow2Add(1, 510);
  }

  lemma SmallPowers()
    ensures Pow2(1) == 2 && Pow2(12) == 4096
  {
  }
}
