// Barrett reduction of an eight-word number (Handbook of Applied Cryptography, Algorithm 14.42).
module Barrett {
  import opened Arith
  import opened Words
  import opened Limbs
  import opened Bits
  import opened Multiply
  import opened Uint256
  import opened LongDivision
  import opened Columns
  import opened Reciprocals

  // The rows of the first three words of mu.
  method FirstRows(x1: Word, x2: Word, x3: Word, x4: Word, mu0: Word, mu1: Word, mu2: Word)
    returns (q0: Word, q1: Word, q2: Word, q3: Word, ghost h0: Word, ghost h1: Word, ghost h2: Word)
    ensures h0 * B <= Product(x3, mu0) < (h0 + 1) * B && h1 * B <= Product(x2, mu1) < (h1 + 1) * B
    ensures h2 * B <= Product(x1, mu2) < (h2 + 1) * B
    ensures Horner(q0, q1, q2, q3)
         == h0 + h1 + h2 + Horner(Product(x4, mu0) + Product(x3, mu1) + Product(x2, mu2),
                                  Product(x4, mu1) + Product(x3, mu2), Product(x4, mu2), 0)
  {
    hide Product;
    var c;
    q0 := MulHigh(x3, mu0);
    h0 := q0;
    q0, q1 := MulTop(q0, x4, mu0, 0);

    var t1 := MulHigh(x2, mu1);
    h1 := t1;
    q0, c := Add64(q0, t1, 0);
    q1, q2 := MulTop(q1, x4, mu1, c);

    q0, q1, c := MulAccumulate(q0, q1, x3, mu1, 0);
    ProductLimit(x3, mu1);
    ProductLimit(x4, mu1);
    ProductLimit(x4, mu0);
    q2 := AddTop(q2, c);

    q0, q1, c := MulAccumulate(q0, q1, x2, mu2, 0);
    q2, q3 := MulTop(q2, x4, mu2, c);

    t1 := MulHigh(x1, mu2);
    h2 := t1;
    q0, c := Add64(q0, t1, 0);
    q1, q2, c := MulAccumulate(q1, q2, x3, mu2, c);
    ProductLimit(x2, mu2);
    ProductLimit(x4, mu2);
    ProductLimit(x3, mu2);
    q3 := AddTop(q3, c);
  }

  // The words of floor(x * mu / 2^320), at most one too small: the products below column 3 and
  // the low halves of column 3 are never computed.
  method QuotientRows(x: seq<Word>, mu: seq<Word>) returns (q: seq<Word>, ghost low: Word, ghost h: seq<Word>)
    requires |x| == |mu| == 5
    ensures |q| == 5 && |h| == 4
    ensures h[0] * B <= Product(x[3], mu[0]) < (h[0] + 1) * B && h[1] * B <= Product(x[2], mu[1]) < (h[1] + 1) * B
    ensures h[2] * B <= Product(x[1], mu[2]) < (h[2] + 1) * B && h[3] * B <= Product(x[0], mu[3]) < (h[3] + 1) * B
    ensures low + B * Horner5(q[0], q[1], q[2], q[3], q[4])
         == Sum4(h) + Horner5(Diagonal(x, mu, 4), Diagonal(x, mu, 5), Diagonal(x, mu, 6),
                                                Diagonal(x, mu, 7), Product(x[4], mu[4]))
  {
    hide Product;
    var x0, x1, x2, x3, x4 := x[0], x[1], x[2], x[3], x[4];
    var c, q4, q5;
    var q0, q1, q2, q3;
    ghost var h0, h1, h2;
    q0, q1, q2, q3, h0, h1, h2 := FirstRows(x1, x2, x3, x4, mu[0], mu[1], mu[2]);

    var t1 := MulHigh(x0, mu[3]);
    ghost var h3 := t1;
    q0, c := Add64(q0, t1, 0);
    q1, q2, c := MulAccumulate(q1, q2, x2, mu[3], c);
    q3, q4 := MulTop(q3, x4, mu[3], c);

    q0, q1, c := MulAccumulate(q0, q1, x1, mu[3], 0);
    q2, q3, c := MulAccumulate(q2, q3, x3, mu[3], c);
    ProductLimit(x2, mu[3]);
    ProductLimit(x4, mu[3]);
    ProductLimit(x1, mu[3]);
    ProductLimit(x3, mu[3]);
    q4 := AddTop(q4, c);

    q0, q1, c := MulAccumulate(q0, q1, x0, mu[4], 0);
    q2, q3, c := MulAccumulate(q2, q3, x2, mu[4], c);
    q4, q5 := MulTop(q4, x4, mu[4], c);

    q1, q2, c := MulAccumulate(q1, q2, x1, mu[4], 0);
    q3, q4, c := MulAccumulate(q3, q4, x3, mu[4], c);
    ProductLimit(x0, mu[4]);
    ProductLimit(x2, mu[4]);
    ProductLimit(x4, mu[4]);
    ProductLimit(x1, mu[4]);
    ProductLimit(x3, mu[4]);
    q5 := AddTop(q5, c);
    q, low, h := [q1, q2, q3, q4, q5], q0, [h0, h1, h2, h3];
  }

  function Sum4(h: seq<Word>): int
    requires |h| == 4
  {
    h[0] as int + h[1] + h[2] + h[3]
  }

  // The sum of the products x[i] * mu[j] with i + j = k.
  function Diagonal(x: seq<Word>, mu: seq<Word>, k: nat): int
    requires |x| == |mu| == 5 && k <= 7
  {
    if k == 0 then Product(x[0], mu[0])
    else if k == 1 then Product(x[1], mu[0]) + Product(x[0], mu[1])
    else if k == 2 then Product(x[2], mu[0]) + Product(x[1], mu[1]) + Product(x[0], mu[2])
    else if k == 3 then Product(x[3], mu[0]) + Product(x[2], mu[1]) + Product(x[1], mu[2]) + Product(x[0], mu[3])
    else if k == 4 then Product(x[4], mu[0]) + Product(x[3], mu[1]) + Product(x[2], mu[2]) + Product(x[1], mu[3]) + Product(x[0], mu[4])
    else if k == 5 then Product(x[4], mu[1]) + Product(x[3], mu[2]) + Product(x[2], mu[3]) + Product(x[1], mu[4])
    else if k == 6 then Product(x[4], mu[2]) + Product(x[3], mu[3]) + Product(x[2], mu[4])
    else Product(x[4], mu[3]) + Product(x[3], mu[4])
  }

  // q * m modulo 2^320.
  method ProductRows(q: seq<Word>, m: seq<Word>) returns (r: seq<Word>, ghost lost: int)
    requires |q| == 5 && |m| == 4
    ensures |r| == 5
    ensures Horner5(r[0], r[1], r[2], r[3], r[4] + B * lost)
         == Horner5(Antidiagonal(q, m, 0), Antidiagonal(q, m, 1), Antidiagonal(q, m, 2), Antidiagonal(q, m, 3),
                    Antidiagonal(q, m, 4))
  {
    hide Product;
    var c, t0, t1, r0, r1, r2, r3, r4;
    ghost var l0, l1, l2, l3, l4, l5, l6;
    r4, r3 := MulFull(q[0], m[3]);
    r4, l0 := AddLow(r4, q[1], m[3], 0);

    t1, r2 := MulFull(q[0], m[2]);
    r3, c := Add64(r3, t1, 0);
    r4, l1 := AddLow(r4, q[2], m[2], c);

    t1, t0 := MulFull(q[1], m[2]);
    r3, c := Add64(r3, t0, 0);
    r4, l2 := AddLast(r4, t1, c);

    t1, r1 := MulFull(q[0], m[1]);
    r2, c := Add64(r2, t1, 0);
    t1, t0 := MulFull(q[2], m[1]);
    r3, c := Add64(r3, t0, c);
    r4, l3 := AddLast(r4, t1, c);

    t1, t0 := MulFull(q[1], m[1]);
    r2, c := Add64(r2, t0, 0);
    r3, c := Add64(r3, t1, c);
    r4, l4 := AddLow(r4, q[3], m[1], c);

    t1, r0 := MulFull(q[0], m[0]);
    r1, c := Add64(r1, t1, 0);
    t1, t0 := MulFull(q[2], m[0]);
    r2, c := Add64(r2, t0, c);
    r3, c := Add64(r3, t1, c);
    r4, l5 := AddLow(r4, q[4], m[0], c);

    t1, t0 := MulFull(q[1], m[0]);
    r1, c := Add64(r1, t0, 0);
    r2, c := Add64(r2, t1, c);
    t1, t0 := MulFull(q[3], m[0]);
    r3, c := Add64(r3, t0, c);
    r4, l6 := AddLast(r4, t1, c);
    r, lost := [r0, r1, r2, r3, r4], l0 + l1 + l2 + l3 + l4 + l5 + l6;
  }

  // The sum of the products q[i] * m[j] with i + j = k.
  function Antidiagonal(q: seq<Word>, m: seq<Word>, k: nat): int
    requires |q| == 5 && |m| == 4 && k <= 4
  {
    if k == 0 then Product(q[0], m[0])
    else if k == 1 then Product(q[1], m[0]) + Product(q[0], m[1])
    else if k == 2 then Product(q[2], m[0]) + Product(q[1], m[1]) + Product(q[0], m[2])
    else if k == 3 then Product(q[3], m[0]) + Product(q[2], m[1]) + Product(q[1], m[2]) + Product(q[0], m[3])
    else Product(q[4], m[0]) + Product(q[3], m[1]) + Product(q[2], m[2]) + Product(q[1], m[3])
  }

  // The whole product by its diagonals, the lowest four apart.
  lemma FiveByFive(x: seq<Word>, y: seq<Word>)
    requires |x| == |y| == 5
    ensures Value(x) * Value(y)
         == Horner(Diagonal(x, y, 0), Diagonal(x, y, 1), Diagonal(x, y, 2), Diagonal(x, y, 3))
          + Weight(4) * Horner5(Diagonal(x, y, 4), Diagonal(x, y, 5), Diagonal(x, y, 6), Diagonal(x, y, 7),
                                Product(x[4], y[4]))
  {
    ValueFive(x);
    ValueFive(y);
    WeightFour();
    FiveByFiveIdentity(x[0], x[1], x[2], x[3], x[4], y[0], y[1], y[2], y[3], y[4]);
  }

  lemma FiveByFiveIdentity(x0: int, x1: int, x2: int, x3: int, x4: int, y0: int, y1: int, y2: int, y3: int, y4: int)
    ensures Horner5(x0, x1, x2, x3, x4) * Horner5(y0, y1, y2, y3, y4)
         == Horner(x0 * y0, x1 * y0 + x0 * y1, x2 * y0 + x1 * y1 + x0 * y2, x3 * y0 + x2 * y1 + x1 * y2 + x0 * y3)
          + B * (B * (B * B)) * Horner5(x4 * y0 + x3 * y1 + x2 * y2 + x1 * y3 + x0 * y4,
                                        x4 * y1 + x3 * y2 + x2 * y3 + x1 * y4,
                                        x4 * y2 + x3 * y3 + x2 * y4, x4 * y3 + x3 * y4, x4 * y4)
  {
    hide Horner, Horner5, Weight;
    var low := FiveByFourIdentity(x0, x1, x2, x3, x4, y0, y1, y2, y3);
    TopRow(x0, x1, x2, x3, x4, y0, y1, y2, y3, y4);
    Assemble(Horner5(x0, x1, x2, x3, x4), Horner(y0, y1, y2, y3), y4, Horner5(y0, y1, y2, y3, y4),
             x0 * y0, x1 * y0 + x0 * y1, x2 * y0 + x1 * y1 + x0 * y2, x3 * y0 + x2 * y1 + x1 * y2 + x0 * y3,
             x4 * y0 + x3 * y1 + x2 * y2 + x1 * y3, x4 * y1 + x3 * y2 + x2 * y3, x4 * y2 + x3 * y3, x4 * y3,
             x0 * y4, x1 * y4, x2 * y4, x3 * y4, x4 * y4);
  }

  lemma Assemble(x: int, yLow: int, y4: int, y: int, c0: int, c1: int, c2: int, c3: int, c4: int,
                 h0: int, h1: int, h2: int, d0: int, d1: int, d2: int, d3: int, d4: int)
    requires y == yLow + B * (B * (B * B)) * y4
    requires x * yLow == Horner5(c0, c1, c2, c3, c4) + Weight(5) * (h0 + B * (h1 + B * h2))
    requires (B * (B * (B * B)) * y4) * x == B * (B * (B * B)) * Horner5(d0, d1, d2, d3, d4)
    ensures x * y == Horner(c0, c1, c2, c3) + B * (B * (B * B)) * Horner5(c4 + d0, h0 + d1, h1 + d2, h2 + d3, d4)
  {
    Regroup(c0, c1, c2, c3, c4, h0, h1, h2, d0, d1, d2, d3, d4);
    Distribute(yLow, B * (B * (B * B)) * y4, x);
  }

  lemma TopRow(x0: int, x1: int, x2: int, x3: int, x4: int, y0: int, y1: int, y2: int, y3: int, y4: int)
    ensures Horner5(y0, y1, y2, y3, y4) == Horner(y0, y1, y2, y3) + B * (B * (B * B)) * y4
    ensures (B * (B * (B * B)) * y4) * Horner5(x0, x1, x2, x3, x4)
         == B * (B * (B * B)) * Horner5(x0 * y4, x1 * y4, x2 * y4, x3 * y4, x4 * y4)
  {
  }

  lemma Regroup(c0: int, c1: int, c2: int, c3: int, c4: int, h0: int, h1: int, h2: int,
                d0: int, d1: int, d2: int, d3: int, d4: int)
    ensures Horner5(c0, c1, c2, c3, c4) + Weight(5) * (h0 + B * (h1 + B * h2))
          + B * (B * (B * B)) * Horner5(d0, d1, d2, d3, d4)
         == Horner(c0, c1, c2, c3) + B * (B * (B * B)) * Horner5(c4 + d0, h0 + d1, h1 + d2, h2 + d3, d4)
  {
    assert Weight(5) == B * (B * (B * (B * B)));
  }

  lemma FiveByFour(q: seq<Word>, m: seq<Word>) returns (high: int)
    requires |q| == 5 && |m| == 4
    ensures Value(q) * Value(m)
         == Horner5(Antidiagonal(q, m, 0), Antidiagonal(q, m, 1), Antidiagonal(q, m, 2), Antidiagonal(q, m, 3),
                    Antidiagonal(q, m, 4)) + Weight(5) * high
  {
    ValueFive(q);
    ValueFour(m);
    high := FiveByFourIdentity(q[0], q[1], q[2], q[3], q[4], m[0], m[1], m[2], m[3]);
  }

  lemma FiveByFourIdentity(x0: int, x1: int, x2: int, x3: int, x4: int, y0: int, y1: int, y2: int, y3: int)
    returns (high: int)
    ensures Horner5(x0, x1, x2, x3, x4) * Horner(y0, y1, y2, y3)
         == Horner5(x0 * y0, x1 * y0 + x0 * y1, x2 * y0 + x1 * y1 + x0 * y2,
                    x3 * y0 + x2 * y1 + x1 * y2 + x0 * y3, x4 * y0 + x3 * y1 + x2 * y2 + x1 * y3) + Weight(5) * high
    ensures high == x4 * y1 + x3 * y2 + x2 * y3 + B * (x4 * y2 + x3 * y3 + B * (x4 * y3))
  {
    high := x4 * y1 + x3 * y2 + x2 * y3 + B * (x4 * y2 + x3 * y3 + B * (x4 * y3));
    assert Weight(5) == B * (B * (B * (B * B)));
  }

  // The computed quotient words against the whole product x * mu.
  lemma QuotientBounds(x: seq<Word>, mu: seq<Word>, q: seq<Word>, low: Word, h: seq<Word>)
    requires |x| == |mu| == |q| == 5 && |h| == 4
    requires h[0] * B <= Product(x[3], mu[0]) < (h[0] + 1) * B && h[1] * B <= Product(x[2], mu[1]) < (h[1] + 1) * B
    requires h[2] * B <= Product(x[1], mu[2]) < (h[2] + 1) * B && h[3] * B <= Product(x[0], mu[3]) < (h[3] + 1) * B
    requires low + B * Value(q)
          == Sum4(h) + Horner5(Diagonal(x, mu, 4), Diagonal(x, mu, 5), Diagonal(x, mu, 6),
                                                 Diagonal(x, mu, 7), Product(x[4], mu[4]))
    ensures Value(q) * Weight(5) <= Value(x) * Value(mu) < (Value(q) + 2) * Weight(5)
  {
    hide Value, Horner, Horner5, Weight, Diagonal, Product, Sum4;
    FiveByFive(x, mu);
    var upper := Horner5(Diagonal(x, mu, 4), Diagonal(x, mu, 5), Diagonal(x, mu, 6), Diagonal(x, mu, 7), Product(x[4], mu[4]));
    DroppedColumns(x, mu, h);
    QuotientScale(Value(q), low, Sum4(h), upper,
                  Horner(Diagonal(x, mu, 0), Diagonal(x, mu, 1), Diagonal(x, mu, 2), Diagonal(x, mu, 3)));
  }

  // What the code leaves out is less than 8 * 2^256.
  lemma DroppedColumns(x: seq<Word>, mu: seq<Word>, h: seq<Word>)
    requires |x| == |mu| == 5 && |h| == 4
    requires h[0] * B <= Product(x[3], mu[0]) < (h[0] + 1) * B && h[1] * B <= Product(x[2], mu[1]) < (h[1] + 1) * B
    requires h[2] * B <= Product(x[1], mu[2]) < (h[2] + 1) * B && h[3] * B <= Product(x[0], mu[3]) < (h[3] + 1) * B
    ensures var low := Horner(Diagonal(x, mu, 0), Diagonal(x, mu, 1), Diagonal(x, mu, 2), Diagonal(x, mu, 3));
            Weight(4) * Sum4(h) <= low < Weight(4) * (Sum4(h) + 8)
  {
    hide Product;
    WeightFour();
    ProductLimit(x[0], mu[0]);
    ProductLimit(x[1], mu[0]);
    ProductLimit(x[0], mu[1]);
    ProductLimit(x[2], mu[0]);
    ProductLimit(x[1], mu[1]);
    ProductLimit(x[0], mu[2]);
  }

  lemma QuotientScale(q: int, low: Word, kept: int, upper: int, dropped: int)
    requires low + B * q == kept + upper
    requires Weight(4) * kept <= dropped < Weight(4) * (kept + 8)
    ensures q * Weight(5) <= dropped + Weight(4) * upper < (q + 2) * Weight(5)
  {
    var w := Weight(4);
    assert Weight(5) == B * w;
    assert q * (B * w) == w * (B * q);
    assert w * (low + B * q) == w * (kept + upper);
    MulLe(0, low, w);
    MulLe(low + 8, 2 * B - 1, w);
  }

  // With such a reciprocal the estimated quotient leaves a remainder below 6m.
  lemma RemainderBound(x: int, x1: int, m: int, mu: int, q: int, w3: int, w5: int, w8: int)
    requires 0 < w3 <= m && 0 < w5 && w8 == w5 * w3 && 3 * m < w8
    requires 0 <= x < w8 && 0 <= x1 && x1 * w3 <= x < (x1 + 1) * w3
    requires 0 <= mu && w8 - 3 * m < mu * m <= w8
    requires q * w5 <= x1 * mu < (q + 2) * w5
    ensures 0 <= x - q * m < 6 * m
  {
    RemainderLow(x, x1, m, mu, q, w3, w5, w8);
    RemainderHigh(x, x1, m, mu, q, w3, w5, w8);
  }

  lemma RemainderLow(x: int, x1: int, m: int, mu: int, q: int, w3: int, w5: int, w8: int)
    requires 0 < w3 && 0 < m && 0 < w5 && w8 == w5 * w3 && 0 <= x1 && x1 * w3 <= x
    requires mu * m <= w8 && q * w5 <= x1 * mu
    ensures q * m <= x
  {
    var k := x1 * w3;
    assert (q * w5) * (m * w3) <= (x1 * mu) * (m * w3) by { MulLe(q * w5, x1 * mu, m * w3); }
    assert (q * w5) * (m * w3) == (q * m) * w8 by { Associate(q * m, w5, w3); assert (q * w5) * (m * w3) == (q * m) * (w5 * w3); }
    assert (x1 * mu) * (m * w3) == (mu * m) * k;
    MulLe(mu * m, w8, k);
    MulLe(k, x, w8);
    if q * m > x { MulLe(x + 1, q * m, w8); Distribute(x, 1, w8); }
  }

  lemma RemainderHigh(x: int, x1: int, m: int, mu: int, q: int, w3: int, w5: int, w8: int)
    requires 0 < w3 <= m && 0 < w5 && w8 == w5 * w3 && 3 * m < w8
    requires 0 <= x < w8 && 0 <= x1 && x < (x1 + 1) * w3
    requires w8 - 3 * m < mu * m && x1 * mu < (q + 2) * w5
    ensures x - q * m < 6 * m
  {
    var k := x1 * w3;
    Distribute(x1, 1, w3);
    MulBoth(0, x1, 0, w3);
    EstimateAbove(x1, m, mu, q, w3, w5, w8);
    MulLe(w8 - 3 * m, mu * m, k);
    MulLe(x - w3, k, w8 - 3 * m);
    ScaledDifference(x, m, w3, w8);
    Distribute(q, 2, m);
    if (q + 2) * m <= x - 4 * m { MulLe((q + 2) * m, x - 4 * m, w8); }
  }

  lemma EstimateAbove(x1: int, m: int, mu: int, q: int, w3: int, w5: int, w8: int)
    requires 0 < w3 && 0 < m && w8 == w5 * w3 && x1 * mu < (q + 2) * w5
    ensures (mu * m) * (x1 * w3) <= ((q + 2) * m) * w8
  {
    MulBoth(0, m, 0, w3);
    MulLe(x1 * mu, (q + 2) * w5, m * w3);
    assert (x1 * mu) * (m * w3) == (mu * m) * (x1 * w3);
    assert ((q + 2) * w5) * (m * w3) == ((q + 2) * m) * (w5 * w3);
  }

  lemma ScaledDifference(x: int, m: int, w3: int, w8: int)
    requires 0 < w3 <= m && 0 <= x < w8
    ensures (x - 4 * m) * w8 < (x - w3) * (w8 - 3 * m)
  {
    MulLe(x, w8, m);
    MulLe(w3, m, w8);
    MulLe(1, w3, m);
    assert (x - w3) * (w8 - 3 * m) == x * w8 - w3 * w8 - 3 * (x * m) + 3 * (w3 * m);
    assert (x - 4 * m) * w8 == x * w8 - 4 * (m * w8);
  }

  // The quotient estimate from the top five words of x.
  method EstimateQuotient(x: seq<Word>, ghost m: nat, mu: seq<Word>) returns (q: seq<Word>)
    requires |x| == 8 && |mu| == 5 && Weight(3) <= m < Weight(4)
    requires IsBarrettReciprocal(Value(mu), m)
    ensures |q| == 5
    ensures 0 <= Value(x) - Value(q) * m < 6 * m
  {
    hide Value, Weight, Horner5, Diagonal, Sum4, Product;
    ghost var low, h;
    q, low, h := QuotientRows(x[3..], mu);
    ValueFive(q);
    QuotientBounds(x[3..], mu, q, low, h);
    ValueSplit(x, 3);
    ValueBound(x[..3]);
    ValueBound(x);
    ghost var x1, w3 := Value(x[3..]), Weight(3);
    Distribute(x1, 1, w3);
    BarrettWeights();
    RemainderBound(Value(x), x1, m, Value(mu), Value(q), w3, Weight(5), Weight(8));
  }

  lemma BarrettWeights()
    ensures Weight(8) == Weight(5) * Weight(3)
    ensures 3 * Weight(4) < Weight(8) && 7 * Weight(4) < Weight(5)
  {
    PowAdd(B, 5, 3);
    PowAdd(B, 4, 4);
    WeightFour();
    MulLe(4, Weight(4), Weight(4));
    assert Weight(5) == B * Weight(4);
  }

  lemma Horner5Add(x0: int, x1: int, x2: int, x3: int, x4: int, y0: int, y1: int, y2: int, y3: int, y4: int,
                   s0: int, s1: int, s2: int, s3: int, s4: int, c0: int, c1: int, c2: int, c3: int, c4: int)
    requires s0 + c0 * B == x0 + y0 && s1 + c1 * B == x1 + y1 + c0 && s2 + c2 * B == x2 + y2 + c1
    requires s3 + c3 * B == x3 + y3 + c2 && s4 + c4 * B == x4 + y4 + c3
    ensures Horner5(s0, s1, s2, s3, s4) + c4 * Weight(5)
         == Horner5(x0, x1, x2, x3, x4) + Horner5(y0, y1, y2, y3, y4)
  {
    assert Weight(5) == B * (B * (B * (B * B)));
  }

  // x - y over five words.
  method Sub5(x: seq<Word>, y: seq<Word>) returns (d: seq<Word>, borrow: int)
    requires |x| == |y| == 5
    ensures |d| == 5 && 0 <= borrow <= 1
    ensures Value(d) - borrow * Weight(5) == Value(x) - Value(y)
  {
    hide Value, Weight, Horner5;
    var r0, b0 := Sub64(x[0], y[0], 0);
    var r1, b1 := Sub64(x[1], y[1], b0);
    var r2, b2 := Sub64(x[2], y[2], b1);
    var r3, b3 := Sub64(x[3], y[3], b2);
    var r4, b4 := Sub64(x[4], y[4], b3);
    d, borrow := [r0, r1, r2, r3, r4], b4;
    ValueFive(x);
    ValueFive(y);
    ValueFive(d);
    Horner5Add(r0, r1, r2, r3, r4, y[0], y[1], y[2], y[3], y[4], x[0], x[1], x[2], x[3], x[4], b0, b1, b2, b3, b4);
  }

  // x + y over five words.
  method Add5(x: seq<Word>, y: seq<Word>) returns (s: seq<Word>, ghost carry: int)
    requires |x| == |y| == 5
    ensures |s| == 5 && 0 <= carry <= 1
    ensures Value(s) + carry * Weight(5) == Value(x) + Value(y)
  {
    hide Value, Weight, Horner5;
    var s0, c0 := Add64(x[0], y[0], 0);
    var s1, c1 := Add64(x[1], y[1], c0);
    var s2, c2 := Add64(x[2], y[2], c1);
    var s3, c3 := Add64(x[3], y[3], c2);
    var s4, c4 := Add64(x[4], y[4], c3);
    s, carry := [s0, s1, s2, s3, s4], c4;
    ValueFive(x);
    ValueFive(y);
    ValueFive(s);
    Horner5Add(x[0], x[1], x[2], x[3], x[4], y[0], y[1], y[2], y[3], y[4], s0, s1, s2, s3, s4, c0, c1, c2, c3, c4);
  }

  // The five words kept of the product are the product modulo 2^320.
  method LowFiveWords(q: seq<Word>, m: seq<Word>) returns (r: seq<Word>)
    requires |q| == 5 && |m| == 4
    ensures |r| == 5 && Value(r) == Value(q) * Value(m) % Weight(5)
  {
    hide Value, Weight, Antidiagonal, Horner5;
    ghost var lost;
    r, lost := ProductRows(q, m);
    ghost var high := FiveByFour(q, m);
    ValueFive(q);
    ValueFive(r);
    ValueBound(r);
    Horner5Carry(r[0], r[1], r[2], r[3], r[4], lost);
    Distribute(lost, high, Weight(5));
    DivUnique(Value(q) * Value(m), Weight(5), lost + high, Value(r));
  }

  lemma Horner5Carry(a: int, b: int, c: int, d: int, e: int, lost: int)
    ensures Horner5(a, b, c, d, e + B * lost) == Horner5(a, b, c, d, e) + Weight(5) * lost
  {
    assert Weight(5) == B * (B * (B * (B * B)));
  }

  // The difference of the low words, borrow or not, is the remainder estimate itself.
  lemma WrappedRemainder(x: seq<Word>, k: nat, m: nat, product: nat, r: nat, b: int)
    requires |x| == 8 && 0 <= b <= 1
    requires 0 <= Value(x) - k * m < Weight(5) && r < Weight(5)
    requires product == k * m % Weight(5)
    requires r - b * Weight(5) == Value(x[..5]) - product
    ensures r == Value(x) - k * m
  {
    hide Value, Weight;
    ValueSplit(x, 5);
    var w, t := Weight(5), k * m;
    var e := t / w;
    assert t == e * w + product;
    var d := b + e - Value(x[5..]);
    Distribute(b + e, Value(x[5..]), w);
    Distribute(b, e, w);
    assert r - (Value(x) - t) == d * w;
    if d >= 1 { MulLe(1, d, w); }
    if d <= -1 { MulLe(d, -1, w); }
  }

  lemma FitsFourWords(r: seq<Word>)
    requires |r| == 5 && Value(r) < Weight(4)
    ensures Value(r[..4]) == Value(r)
  {
    hide Value, Weight;
    assert r == r[..4] + [r[4]];
    ValueSnoc(r[..4], r[4]);
    if r[4] > 0 { MulLe(1, r[4], Weight(4)); }
  }

  // The least non-negative residue of x modulo m. The code adds m after a borrow although the
  // wrapped difference is already x - q * m; the final loop takes it off again.
  method Reduce4(x: seq<Word>, m: array<Word>, mu: seq<Word>) returns (z: array<Word>)
    requires |x| == 8 && |mu| == 5 && IsUint(m) && m[3] != 0
    requires IsBarrettReciprocal(Value(mu), Val(m))
    ensures fresh(z) && IsUint(z) && Val(z) == Value(x) % Val(m)
  {
    hide Value, Weight, IsBarrettReciprocal, Antidiagonal, Horner, Horner5;
    ghost var mv, xv := Val(m), Value(x);
    TopWordNonZero(m[..]);
    BarrettWeights();
    var q := EstimateQuotient(x, mv, mu);
    ghost var k: int := Value(q);
    var ms := m[..];
    var m5 := ms + [0];
    ValueSnoc(ms, 0);
    var r := LowFiveWords(q, ms);

    var b;
    ghost var product := Value(r);
    r, b := Sub5(x[..5], r);
    WrappedRemainder(x, k, mv, product, Value(r), b) by { ValueBound(r); }
    if b != 0 {
      ghost var carry;
      r, carry := Add5(r, m5);
      ValueBound(r);
      Distribute(k, 1, mv);
      k := k - 1;
    }
    while true
      invariant |r| == 5 && Value(r) == xv - k * mv
      decreases Value(r)
    {
      var d;
      d, b := Sub5(r, m5);
      ValueBound(d);
      if b != 0 { break; }
      Distribute(k, 1, mv);
      r := d;
      k := k + 1;
    }
    DivUnique(xv, mv, k, Value(r));
    z := new Word[4](_ => 0);
    z[3], z[2], z[1], z[0] := r[3], r[2], r[1], r[0];
    assert z[..] == r[..4];
    FitsFourWords(r);
  }

  // x * y modulo m.
  method MulMod(z: array<Word>, x: array<Word>, y: array<Word>, m: array<Word>) returns (panic: bool)
    requires IsUint(z) && IsUint(x) && IsUint(y) && IsUint(m)
    modifies z
    ensures panic <==> old(Val(m)) == 0
    ensures panic ==> z[..] == old(z[..])
    ensures !panic ==> Val(z) == old(Val(x)) * old(Val(y)) % old(Val(m))
  {
    hide Value, Weight, Pow2, SigLen, IsBarrettReciprocal, Or;
    var mZero := IsZero(m);
    if mZero { return true; }
    panic := false;
    ghost var xv, yv, mv := Val(x), Val(y), Val(m);
    var xZero := IsZero(x);
    var yZero := IsZero(y);
    if xZero || yZero {
      assert xv * yv == 0;
      DivUnique(0, mv, 0, 0);
      SetUint64(z, 0);
      return;
    }
    var p := UMul(x, y);
    if m[3] != 0 {
      var mu := Reciprocal(m);
      var r := Reduce4(p[..], m, mu[..]);
      Set(z, r);
      return;
    }
    HighHalf(p[..]);
    var pl := FourWords(p, 0);
    var ph := FourWords(p, 4);
    assert p[..][0..4] == p[..][..4] && p[..][4..8] == p[..][4..];
    var small := IsZero(ph);
    if small {
      var never := Mod(z, pl, m);
      return;
    }
    var quot := new Word[8](_ => 0);
    NonZeroHasWords(m[..]);
    var rem := UDivRem(quot, p, m);
    DivUnique(xv * yv, mv, Value(quot[..]), Val(rem));
    Set(z, rem);
  }
}
