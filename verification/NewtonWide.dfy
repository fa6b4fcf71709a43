// The two wide Newton iterations, on squares of four and six words times all of y.
module NewtonWide {
  import opened Arith
  import opened Words
  import opened Limbs
  import opened Columns
  import opened Newton

  // ---- from 128 to 192 bits ----

  function Horner3(a: int, b: int, c: int): int
  {
    a + B * (b + B * c)
  }

  method SquareTwo(h: Word, l: Word) returns (x0: Word, x1: Word, x2: Word, x3: Word)
    ensures Horner(x0, x1, x2, x3) == Product(l + B * h, l + B * h)
  {
    hide Product;
    var c;
    var a3h, a3l := MulFull(l, l);
    var b3h, b3l := MulFull(l, h);
    var c3h, c3l := MulFull(h, h);
    ProductLimit(l, l);
    ProductLimit(l, h);
    ProductLimit(h, h);
    TwoSquared(l, h);
    a3h, c := Add64(a3h, b3l, 0);
    c3l, c := Add64(c3l, b3h, c);
    c3h := AddTop(c3h, c);
    a3h, c := Add64(a3h, b3l, 0);
    c3l, c := Add64(c3l, b3h, c);
    TwoWordsBelow(l, h);
    SquareBelow(l + B * h, B * B);
    SquareRoom(Product(l + B * h, l + B * h), a3l, a3h, c3l, c3h, c);
    c3h := AddTop(c3h, c);
    x0, x1, x2, x3 := a3l, a3h, c3l, c3h;
  }

  lemma TwoSquared(l: int, h: int)
    ensures Product(l + B * h, l + B * h) == Product(l, l) + 2 * B * Product(l, h) + B * B * Product(h, h)
  {
  }

  // The square fits in four words, so its top word has room for the last carry.
  lemma SquareRoom(square: int, x0: int, x1: int, x2: int, x3: int, c: int)
    requires 0 <= x0 && 0 <= x1 && 0 <= x2 && square < B * (B * (B * B))
    requires x0 + B * (x1 + B * (x2 + B * (x3 + c))) == square
    ensures x3 + c < B
  {
  }

  lemma SquareBelow(r: int, n: int)
    requires 0 <= r < n
    ensures Product(r, r) < n * n
  {
    MulBoth(r, n - 1, r, n - 1);
    assert (n - 1) * (n - 1) == n * n - 2 * n + 1;
  }

  lemma TwoWordsBelow(l: Word, h: Word)
    ensures 0 <= l + B * h < B * B
  {
  }

  // The first two rows of the product below.
  method ThirdRows(x1: Word, x2: Word, x3: Word, y0: Word, y1: Word)
    returns (q0: Word, q1: Word, q2: Word, ghost low: int)
    ensures 0 <= low < 2 * B
    ensures low + B * Horner3(q0, q1, q2)
         == Horner3(Product(x2, y0) + Product(x1, y1), Product(x3, y0) + Product(x2, y1), Product(x3, y1))
  {
    hide Product;
    var c, t1;
    ghost var l0: int, l1: int;
    q0, l0 := MulFull(x2, y0);
    q0, q1 := MulTop(q0, x3, y0, 0);

    t1, l1 := MulFull(x1, y1);
    q0, c := Add64(q0, t1, 0);
    q1, q2 := MulTop(q1, x3, y1, c);

    q0, q1, c := MulAccumulate(q0, q1, x2, y1, 0);
    ProductLimit(x2, y1);
    ProductLimit(x3, y1);
    ProductLimit(x3, y0);
    q2 := AddTop(q2, c);
    low := l0 + l1;
  }

  // The third row added to them.
  method ThirdRow(q0: Word, q1: Word, q2: Word, x0: Word, x1: Word, x2: Word, x3: Word, y2: Word)
    returns (r0: Word, r1: Word, r2: Word, r3: Word, ghost low: int)
    ensures 0 <= low < B
    ensures low + B * Horner(r0, r1, r2, r3)
         == B * Horner3(q0, q1, q2) + Product(x0, y2)
          + B * (Product(x1, y2) + B * (Product(x2, y2) + B * Product(x3, y2)))
  {
    hide Product;
    var c, t1;
    r0, r1, c := MulAccumulate(q0, q1, x1, y2, 0);
    r2, r3 := MulTop(q2, x3, y2, c);

    t1, low := MulFull(x0, y2);
    r0, c := Add64(r0, t1, 0);
    r1, r2, c := MulAccumulate(r1, r2, x2, y2, c);
    ProductLimit(x1, y2);
    ProductLimit(x2, y2);
    ProductLimit(x3, y2);
    r3 := AddTop(r3, c);
  }

  // The words of the square x times y from column 3 up; of the products below it only the high
  // words in column 3 are kept.
  method ThirdProduct(x0: Word, x1: Word, x2: Word, x3: Word, y0: Word, y1: Word, y2: Word, y3: Word)
    returns (q0: Word, q1: Word, q2: Word, q3: Word, q4: Word, ghost low: int)
    ensures 0 <= low < 3 * B
    ensures low + B * Horner5(q0, q1, q2, q3, q4)
         == Horner5(Product(x2, y0) + Product(x1, y1) + Product(x0, y2),
                    Product(x3, y0) + Product(x2, y1) + Product(x1, y2) + Product(x0, y3),
                    Product(x3, y1) + Product(x2, y2) + Product(x1, y3),
                    Product(x3, y2) + Product(x2, y3),
                    Product(x3, y3))
  {
    hide Product;
    var c;
    ghost var l2: int;
    q0, q1, q2, low := ThirdRows(x1, x2, x3, y0, y1);
    q0, q1, q2, q3, l2 := ThirdRow(q0, q1, q2, x0, x1, x2, x3, y2);

    q1, q2, c := MulAccumulate(q1, q2, x1, y3, 0);
    q3, q4 := MulTop(q3, x3, y3, c);

    q0, q1, c := MulAccumulate(q0, q1, x0, y3, 0);
    q2, q3, c := MulAccumulate(q2, q3, x2, y3, c);
    ProductLimit(x0, y3);
    ProductLimit(x1, y3);
    ProductLimit(x2, y3);
    ProductLimit(x3, y3);
    q4 := AddTop(q4, c);
    low := low + l2;
  }

  // What is left out is less than 6 * 2^192.
  lemma ThirdDropped(x0: Word, x1: Word, x2: Word, x3: Word, y0: Word, y1: Word, y2: Word, y3: Word,
                     q: int, low: int)
    returns (d: int)
    requires 0 <= low < 3 * B
    requires low + B * q
          == Horner5(Product(x2, y0) + Product(x1, y1) + Product(x0, y2),
                     Product(x3, y0) + Product(x2, y1) + Product(x1, y2) + Product(x0, y3),
                     Product(x3, y1) + Product(x2, y2) + Product(x1, y3),
                     Product(x3, y2) + Product(x2, y3),
                     Product(x3, y3))
    ensures Product(Horner(x0, x1, x2, x3), Horner(y0, y1, y2, y3)) == B * (B * B) * q + d
    ensures 0 <= d < 6 * (B * (B * B))
  {
    hide Product;
    d := Product(x0, y0) + B * (Product(x1, y0) + Product(x0, y1)) + B * B * low;
    ProductLimit(x0, y0);
    ProductLimit(x1, y0);
    ProductLimit(x0, y1);
    SixteenProducts(x0, x1, x2, x3, y0, y1, y2, y3);
  }

  lemma SixteenProducts(x0: int, x1: int, x2: int, x3: int, y0: int, y1: int, y2: int, y3: int)
    ensures Product(Horner(x0, x1, x2, x3), Horner(y0, y1, y2, y3))
         == Product(x0, y0) + B * (Product(x1, y0) + Product(x0, y1))
          + B * B * Horner5(Product(x2, y0) + Product(x1, y1) + Product(x0, y2),
                            Product(x3, y0) + Product(x2, y1) + Product(x1, y2) + Product(x0, y3),
                            Product(x3, y1) + Product(x2, y2) + Product(x1, y3),
                            Product(x3, y2) + Product(x2, y3),
                            Product(x3, y3))
  {
    hide Product, Horner;
    FourByOne(x0, x1, x2, x3, y0);
    FourByOne(x0, x1, x2, x3, y1);
    FourByOne(x0, x1, x2, x3, y2);
    FourByOne(x0, x1, x2, x3, y3);
    ByHorner(Horner(x0, x1, x2, x3), y0, y1, y2, y3);
    HornerIs();
  }

  lemma HornerIs()
    ensures forall a, b, c, d :: Horner(a, b, c, d) == a + B * (b + B * (c + B * d))
  {
  }

  lemma FourByOne(x0: int, x1: int, x2: int, x3: int, y: int)
    ensures Product(Horner(x0, x1, x2, x3), y) == Horner(Product(x0, y), Product(x1, y), Product(x2, y), Product(x3, y))
  {
  }

  lemma ByHorner(x: int, y0: int, y1: int, y2: int, y3: int)
    ensures Product(x, Horner(y0, y1, y2, y3))
         == Product(x, y0) + B * (Product(x, y1) + B * (Product(x, y2) + B * Product(x, y3)))
  {
  }

  // Twice the top three words of r2:0:0:0 less q, modulo 2^192.
  method TripleDifference(r2h: Word, r2l: Word, q0: Word, q1: Word, q2: Word, q3: Word, q4: Word)
    returns (r3h: Word, r3m: Word, r3l: Word, ghost t: int, ghost low: int)
    ensures 0 <= low < B * B && B * B * t + low == (r2l + B * r2h) * (B * (B * B)) - Horner5(q0, q1, q2, q3, q4)
    ensures 0 < 2 * t < B * (B * B) ==> Horner3(r3l, r3m, r3h) == 2 * t
  {
    hide Horner3, Horner5;
    var lost, over;
    var d0, b0 := Sub64(0, q0, 0);
    var d1, b1 := Sub64(0, q1, b0);
    var t3l, b2 := Sub64(0, q2, b1);
    var t3m, b3 := Sub64(r2l, q3, b2);
    var t3h;
    t3h, lost := Sub64(r2h, q4, b3);
    ghost var words := Horner3(t3l, t3m, t3h);
    t, low := words - lost * (B * (B * B)), d0 + B * d1;
    FiveBorrows(r2h, r2l, q0, q1, q2, q3, q4, d0, d1, t3l, t3m, t3h, b0, b1, b2, b3, lost);
    ThreeWordRange(t3l, t3m, t3h);
    NoBorrow(words, t, lost, B * (B * B));

    var c, c';
    r3l, c := Add64(t3l, t3l, 0);
    r3m, c' := Add64(t3m, t3m, c);
    r3h, over := Add64(t3h, t3h, c');
    ThreeDoubled(t3l, t3m, t3h, r3l, r3m, r3h, c, c', over);
    ThreeWordRange(r3l, r3m, r3h);
  }

  lemma FiveBorrows(r2h: int, r2l: int, q0: int, q1: int, q2: int, q3: int, q4: int,
                    d0: int, d1: int, d2: int, d3: int, d4: int, b0: int, b1: int, b2: int, b3: int, b4: int)
    requires d0 - b0 * B == 0 - q0 && d1 - b1 * B == 0 - q1 - b0 && d2 - b2 * B == 0 - q2 - b1
    requires d3 - b3 * B == r2l - q3 - b2 && d4 - b4 * B == r2h - q4 - b3
    ensures B * B * (Horner3(d2, d3, d4) - b4 * (B * (B * B))) + (d0 + B * d1)
         == (r2l + B * r2h) * (B * (B * B)) - Horner5(q0, q1, q2, q3, q4)
  {
  }

  lemma ThreeWordRange(a: Word, b: Word, c: Word)
    ensures 0 <= Horner3(a, b, c) < B * (B * B)
  {
  }

  lemma ThreeDoubled(t0: int, t1: int, t2: int, x0: int, x1: int, x2: int, c0: int, c1: int, c2: int)
    requires x0 + c0 * B == 2 * t0 && x1 + c1 * B == 2 * t1 + c0 && x2 + c2 * B == 2 * t2 + c1
    ensures Horner3(x0, x1, x2) + c2 * (B * (B * B)) == 2 * Horner3(t0, t1, t2)
  {
  }

  // What the third iteration adds to the exact step, in base w.
  lemma ThirdStep(w: int, w2: int, w3: int, k: int, r2: int, s: int, q: int, d: int, t: int, low: int) returns (d': int)
    requires 0 < w2 && 0 < w3 && w2 == w * w && 2 * k == w * w3 && 0 <= d < 6 * w3 && 0 <= low < w2
    requires s == w3 * q + d && w2 * t + low == r2 * w3 - q && w3 == w * w2
    ensures w * k * (2 * t) == 2 * (w2 * k) * r2 - s + d'
    ensures -2 * (w * k) < d' < 6 * w3
  {
    d' := d - w3 * low;
    assert -2 * (w * k) < d' < 6 * w3 by { LowRange(w, w2, w3, k, low); }
    Reordered(w, w2, w3, k, t);
    TopTerm(w, w2, w3, k, r2);
    ScaledDifference(w3, w2 * t, low, w3 * r2, q);
    StepSum(w * k * (2 * t), w3 * (w2 * t), 2 * (w2 * k) * r2, w3 * (w3 * r2), w3 * q, w3 * low, s, d);
  }

  // The terms of a step put together.
  lemma StepSum(scaled: int, left: int, top: int, right: int, q: int, low: int, s: int, d: int)
    requires left == scaled && right == top && left == right - q - low && s == q + d
    ensures scaled == top - s + (d - low)
  {
  }

  lemma Reordered(w: int, w2: int, w3: int, k: int, t: int)
    requires w2 == w * w && 2 * k == w * w3
    ensures w3 * (w2 * t) == w * k * (2 * t)
  {
    assert (2 * k) * (w * t) == (w * w3) * (w * t);
    assert (w * w) * (w3 * t) == w2 * (w3 * t);
  }

  lemma TopTerm(w: int, w2: int, w3: int, k: int, r: int)
    requires w3 == w * w2 && 2 * k == w * w3
    ensures w3 * (w3 * r) == 2 * (w2 * k) * r
  {
    assert (2 * k) * (w2 * r) == (w * w3) * (w2 * r);
    assert (w * w2) * (w3 * r) == w3 * (w3 * r);
  }

  lemma ScaledDifference(c: int, a: int, b: int, x: int, y: int)
    requires a + b == x - y
    ensures c * a == c * x - c * y - c * b
  {
    Distribute(x, y, c);
    Distribute(a, b, c);
  }

  lemma ThirdError(w: int, w2: int, w3: int, k: int, y: int, r2: int, q: int, d: int, t: int, low: int)
    requires 8192 < w && w2 == w * w && w3 == w * w2 && 2 * k == w * w3
    requires k < y < 2 * k && 0 <= d < 6 * w3 && 0 <= low < w2
    requires Product(Product(r2, r2), y) == w3 * q + d && w2 * t + low == r2 * w3 - q
    requires -64 * k <= w2 * k - Product(r2, y) <= 64 * k
    ensures -12 * w2 <= w3 * k - Product(2 * t, y) < 2 * y + k
    ensures 0 < 2 * t < w3
  {
    hide Product;
    Powers(w, w2, w3, k);
    var d' := ThirdStep(w, w2, w3, k, r2, Product(Product(r2, r2), y), q, d, t, low);
    var p2, p3, m := w2 * k, w3 * k, w * k;
    var e2, e3 := p2 - Product(r2, y), p3 - Product(2 * t, y);
    assert p2 * p2 == m * p3 by { ThirdScale(w, w2, w3, k); }
    NewtonStep(p2, r2, y, m, p3, 2 * t, d', e2, e3);
    assert 0 <= Product(e2, e2) < m * k by { SquareBound(e2, 64 * k); SquareFits(w, k, 64, 4096); }
    assert (6 * w3) * y <= m * (12 * w2) by { AboveFits(w, w2, w3, k, y); }
    WideBound(m, y, Product(e2, e2), e3, d', 6 * w3, k, 12 * w2);
    assert 5 * k < p3 by { MulLe(6, w3, k); }
    EstimatePositive(p3, y, 2 * t);
    assert p3 + 13 * w2 <= w3 * y by { MulLe(k + 1, y, w3); Distribute(k, 1, w3); MulLe(13, w, w2); }
    EstimateBelow(p3, y, 2 * t, w3, 13 * w2);
  }

  lemma Powers(w: int, w2: int, w3: int, k: int)
    requires 8192 < w && w2 == w * w && w3 == w * w2 && 2 * k == w * w3
    ensures 8192 < w2 && 8192 < w3 && 8192 < k
  {
    MulLe(8193, w, w);
    MulLe(8193, w, w2);
    MulLe(8193, w, w3);
  }

  lemma ThirdScale(w: int, w2: int, w3: int, k: int)
    requires w2 == w * w && w3 == w * w2
    ensures (w2 * k) * (w2 * k) == (w * k) * (w3 * k)
  {
    assert (w * w2) * (w * (k * k)) == w3 * (w * (k * k));
    assert (w * w) * (w2 * (k * k)) == w2 * (w2 * (k * k));
  }

  lemma SquareFits(w: int, k: int, a: int, aa: int)
    requires aa == a * a && aa < w && 0 < k
    ensures (a * k) * (a * k) < (w * k) * k
  {
    assert (a * k) * (a * k) == (a * a) * (k * k);
    MulLe(1, k, k);
    MulLe(aa + 1, w, k * k);
    assert (w * k) * k == w * (k * k);
    Distribute(aa, 1, k * k);
  }

  lemma AboveFits(w: int, w2: int, w3: int, k: int, y: int)
    requires 0 < w3 && w3 == w * w2 && y < 2 * k
    ensures (6 * w3) * y <= (w * k) * (12 * w2)
  {
    MulLe(y, 2 * k, 6 * w3);
    assert (6 * w3) * (2 * k) == 12 * (w3 * k);
    assert (w * w2) * (12 * k) == w3 * (12 * k);
  }

  // The error of a wide step: what is left out counts twice above and next to nothing below.
  lemma WideBound(m: int, y: int, s: int, e': int, d: int, above: int, up: int, down: int)
    requires 0 < m && 0 < y && m * e' == s - Product(d, y)
    requires 0 <= s < m * up && -2 * m < d < above && above * y <= m * down
    ensures -down <= e' < 2 * y + up
  {
    assert -2 * (m * y) <= Product(d, y) <= above * y by {
      MulLe(-2 * m, d, y);
      MulLe(d, above, y);
      Associate(-2, m, y);
    }
    hide Product;
    assert m * (2 * y + up) == 2 * (m * y) + m * up && m * (-down - 1) == -(m * down) - m;
    BelowByFactor(m, e', 2 * y + up, s - Product(d, y), 2 * (m * y) + m * up);
    BelowByFactor(m, -down - 1, e', -(m * down) - m, s - Product(d, y));
  }

  // ---- from 192 to 320 bits ----

  function Horner6(a: int, b: int, c: int, d: int, e: int, f: int): int
  {
    Horner3(a, b, c) + B * (B * B) * Horner3(d, e, f)
  }

  method SquareThree(h: Word, m: Word, l: Word)
    returns (s0: Word, s1: Word, s2: Word, s3: Word, s4: Word, s5: Word)
    ensures Horner6(s0, s1, s2, s3, s4, s5) == Product(Horner3(l, m, h), Horner3(l, m, h))
  {
    hide Product;
    var c;
    var a4h, a4l := MulFull(l, l);
    var b4h, b4l := MulFull(l, m);
    var c4h, c4l := MulFull(l, h);
    var d4h, d4l := MulFull(m, m);
    var e4h, e4l := MulFull(m, h);
    var f4h, f4l := MulFull(h, h);
    ProductLimit(l, m);
    ProductLimit(l, h);
    ProductLimit(m, h);

    b4h, c := Add64(b4h, c4l, 0);
    e4l, c := Add64(e4l, c4h, c);
    e4h := AddTop(e4h, c);
    ghost var cross := b4l + B * (b4h + B * (e4l + B * e4h));

    a4h, c := Add64(a4h, b4l, 0);
    d4l, c := Add64(d4l, b4h, c);
    d4h, c := Add64(d4h, e4l, c);
    f4l, c := Add64(f4l, e4h, c);
    ThreeWordRange(l, m, h);
    SquareBelow(Horner3(l, m, h), B * (B * B));
    ThreeSquared(l, m, h);
    ThreeRoom(Product(Horner3(l, m, h), Horner3(l, m, h)), a4l, a4h, d4l, d4h, f4l, f4h, c, cross);
    f4h := AddTop(f4h, c);

    a4h, c := Add64(a4h, b4l, 0);
    d4l, c := Add64(d4l, b4h, c);
    d4h, c := Add64(d4h, e4l, c);
    f4l, c := Add64(f4l, e4h, c);
    ThreeRoom(Product(Horner3(l, m, h), Horner3(l, m, h)), a4l, a4h, d4l, d4h, f4l, f4h, c, 0);
    f4h := AddTop(f4h, c);
    s0, s1, s2, s3, s4, s5 := a4l, a4h, d4l, d4h, f4l, f4h;
  }

  lemma ThreeSquared(l: int, m: int, h: int)
    ensures Product(Horner3(l, m, h), Horner3(l, m, h))
         == Product(l, l) + B * B * Product(m, m) + B * B * (B * B) * Product(h, h)
          + 2 * B * (Product(l, m) + B * (Product(l, h) + B * Product(m, h)))
  {
  }

  // What is not yet added to the square is not negative, so the top word has room for the carry.
  lemma ThreeRoom(square: int, s0: int, s1: int, s2: int, s3: int, s4: int, s5: int, c: int, rest: int)
    requires 0 <= s0 && 0 <= s1 && 0 <= s2 && 0 <= s3 && 0 <= s4 && 0 <= rest
    requires square < B * (B * (B * (B * (B * B)))) && Horner6(s0, s1, s2, s3, s4, s5 + c) + B * rest == square
    ensures s5 + c < B
  {
  }

  // ---- the square times y, a row for each word of y, from column 3 up ----

  method RowA(s3: Word, s4: Word, s5: Word, y: Word) returns (x0: Word, x1: Word, x2: Word, x3: Word)
    ensures Horner(x0, x1, x2, x3) == Horner3(Product(s3, y), Product(s4, y), Product(s5, y))
  {
    hide Product;
    var c;
    x1, x0 := MulFull(s3, y);
    x3, x2 := MulFull(s5, y);
    ProductLimit(s3, y);
    ProductLimit(s4, y);
    ProductLimit(s5, y);
    x1, x2, c := MulAccumulate(x1, x2, s4, y, 0);
    x3 := AddTop(x3, c);
  }

  method RowB(a0: Word, a1: Word, a2: Word, a3: Word, s2: Word, s3: Word, s4: Word, s5: Word, y: Word)
    returns (x0: Word, x1: Word, x2: Word, x3: Word, x4: Word)
    ensures Horner5(x0, x1, x2, x3, x4)
         == Horner(a0, a1, a2, a3) + Horner(Product(s2, y), Product(s3, y), Product(s4, y), Product(s5, y))
  {
    hide Product;
    var c;
    x0, x1, x2, x3 := a0, a1, a2, a3;
    ProductLimit(s2, y);
    ProductLimit(s3, y);
    ProductLimit(s4, y);
    ProductLimit(s5, y);
    x1, x2, c := MulAccumulate(x1, x2, s3, y, 0);
    x3, x4 := MulTop(x3, s5, y, c);
    x0, x1, c := MulAccumulate(x0, x1, s2, y, 0);
    x2, x3, c := MulAccumulate(x2, x3, s4, y, c);
    x4 := AddTop(x4, c);
  }

  method RowC(a0: Word, a1: Word, a2: Word, a3: Word, a4: Word, s1: Word, s2: Word, s3: Word, s4: Word, s5: Word,
              y: Word)
    returns (x0: Word, x1: Word, x2: Word, x3: Word, x4: Word, x5: Word)
    ensures Horner6(x0, x1, x2, x3, x4, x5)
         == Horner5(a0, a1, a2, a3, a4)
          + Horner5(Product(s1, y), Product(s2, y), Product(s3, y), Product(s4, y), Product(s5, y))
  {
    hide Product;
    var c;
    x0, x1, x2, x3, x4 := a0, a1, a2, a3, a4;
    ProductLimit(s1, y);
    ProductLimit(s2, y);
    ProductLimit(s3, y);
    ProductLimit(s4, y);
    ProductLimit(s5, y);
    x0, x1, c := MulAccumulate(x0, x1, s1, y, 0);
    x2, x3, c := MulAccumulate(x2, x3, s3, y, c);
    x4, x5 := MulTop(x4, s5, y, c);
    x1, x2, c := MulAccumulate(x1, x2, s2, y, 0);
    x3, x4, c := MulAccumulate(x3, x4, s4, y, c);
    x5 := AddTop(x5, c);
  }

  method RowD(a0: Word, a1: Word, a2: Word, a3: Word, a4: Word, a5: Word,
              s0: Word, s1: Word, s2: Word, s3: Word, s4: Word, s5: Word, y: Word)
    returns (x0: Word, x1: Word, x2: Word, x3: Word, x4: Word, x5: Word, x6: Word)
    ensures Horner6(x0, x1, x2, x3, x4, x5 + B * x6)
         == Horner6(a0, a1, a2, a3, a4, a5)
          + Horner6(Product(s0, y), Product(s1, y), Product(s2, y), Product(s3, y), Product(s4, y), Product(s5, y))
  {
    hide Product;
    var c;
    x0, x1, x2, x3, x4, x5 := a0, a1, a2, a3, a4, a5;
    ProductLimit(s0, y);
    ProductLimit(s1, y);
    ProductLimit(s2, y);
    ProductLimit(s3, y);
    ProductLimit(s4, y);
    ProductLimit(s5, y);
    x1, x2, c := MulAccumulate(x1, x2, s1, y, 0);
    x3, x4, c := MulAccumulate(x3, x4, s3, y, c);
    x5, x6 := MulTop(x5, s5, y, c);
    x0, x1, c := MulAccumulate(x0, x1, s0, y, 0);
    x2, x3, c := MulAccumulate(x2, x3, s2, y, c);
    x4, x5, c := MulAccumulate(x4, x5, s4, y, c);
    x6 := AddTop(x6, c);
  }

  // Rows as products with whole numbers.
  lemma RowProducts(s0: int, s1: int, s2: int, s3: int, s4: int, s5: int, y: int)
    ensures Horner3(Product(s3, y), Product(s4, y), Product(s5, y)) == Product(Horner3(s3, s4, s5), y)
    ensures Horner(Product(s2, y), Product(s3, y), Product(s4, y), Product(s5, y)) == Product(Horner(s2, s3, s4, s5), y)
    ensures Horner5(Product(s1, y), Product(s2, y), Product(s3, y), Product(s4, y), Product(s5, y))
         == Product(Horner5(s1, s2, s3, s4, s5), y)
    ensures Horner6(Product(s0, y), Product(s1, y), Product(s2, y), Product(s3, y), Product(s4, y), Product(s5, y))
         == Product(Horner6(s0, s1, s2, s3, s4, s5), y)
  {
  }

  // What is left out is less than 3 * 2^256.
  lemma FourthDropped(s0: Word, s1: Word, s2: Word, s3: Word, s4: Word, s5: Word, y0: Word, y1: Word, y2: Word, y3: Word)
    returns (d: int)
    ensures Product(Horner6(s0, s1, s2, s3, s4, s5), Horner(y0, y1, y2, y3))
         == B * (B * B) * (Product(Horner3(s3, s4, s5), y0) + Product(Horner(s2, s3, s4, s5), y1)
                           + Product(Horner5(s1, s2, s3, s4, s5), y2) + Product(Horner6(s0, s1, s2, s3, s4, s5), y3)) + d
    ensures 0 <= d < 3 * (B * (B * (B * B)))
  {
    hide Horner6, Horner5, Horner, Horner3, Product;
    var l1: int, l2: int, l3: int := s0, s0 + B * s1, s0 + B * (s1 + B * s2);
    d := Product(l3, y0) + B * Product(l2, y1) + B * B * Product(l1, y2);
    ProductBelow(l3, B * (B * B), y0);
    ProductBelow(l2, B * B, y1);
    ProductBelow(l1, B, y2);
    LowParts(s0, s1, s2, s3, s4, s5);
    var s := Horner6(s0, s1, s2, s3, s4, s5);
    ByHorner(s, y0, y1, y2, y3);
    SplitProduct(s, l3, B * (B * B), Horner3(s3, s4, s5), y0);
    SplitProduct(s, l2, B * B, Horner(s2, s3, s4, s5), y1);
    SplitProduct(s, l1, B, Horner5(s1, s2, s3, s4, s5), y2);
  }

  lemma ProductBelow(l: int, n: int, y: Word)
    requires 0 <= l < n
    ensures 0 <= Product(l, y) < B * n
  {
    MulBoth(l, n - 1, y, B);
  }

  lemma SplitProduct(s: int, l: int, n: int, h: int, y: int)
    requires s == l + n * h
    ensures Product(s, y) == Product(l, y) + n * Product(h, y)
  {
    Distribute(l, n * h, y);
    Associate(n, h, y);
  }

  lemma LowParts(s0: int, s1: int, s2: int, s3: int, s4: int, s5: int)
    ensures Horner6(s0, s1, s2, s3, s4, s5) == s0 + B * (s1 + B * s2) + B * (B * B) * Horner3(s3, s4, s5)
    ensures Horner6(s0, s1, s2, s3, s4, s5) == s0 + B * s1 + B * B * Horner(s2, s3, s4, s5)
    ensures Horner6(s0, s1, s2, s3, s4, s5) == s0 + B * Horner5(s1, s2, s3, s4, s5)
  {
  }

  method FourthProduct(s0: Word, s1: Word, s2: Word, s3: Word, s4: Word, s5: Word, y0: Word, y1: Word, y2: Word, y3: Word)
    returns (x0: Word, x1: Word, x2: Word, x3: Word, x4: Word, x5: Word, x6: Word, ghost d: int)
    ensures Product(Horner6(s0, s1, s2, s3, s4, s5), Horner(y0, y1, y2, y3))
         == B * (B * B) * Horner6(x0, x1, x2, x3, x4, x5 + B * x6) + d
    ensures 0 <= d < 3 * (B * (B * (B * B)))
  {
    hide Product, Horner6, Horner5, Horner, Horner3;
    x0, x1, x2, x3 := RowA(s3, s4, s5, y0);
    x0, x1, x2, x3, x4 := RowB(x0, x1, x2, x3, s2, s3, s4, s5, y1);
    x0, x1, x2, x3, x4, x5 := RowC(x0, x1, x2, x3, x4, s1, s2, s3, s4, s5, y2);
    x0, x1, x2, x3, x4, x5, x6 := RowD(x0, x1, x2, x3, x4, x5, s0, s1, s2, s3, s4, s5, y3);
    RowProducts(s0, s1, s2, s3, s4, s5, y0);
    RowProducts(s0, s1, s2, s3, s4, s5, y1);
    RowProducts(s0, s1, s2, s3, s4, s5, y2);
    RowProducts(s0, s1, s2, s3, s4, s5, y3);
    d := FourthDropped(s0, s1, s2, s3, s4, s5, y0, y1, y2, y3);
  }

  // The top five words of r3:0:0:0:0 less x.
  method FiveWordDifference(r3h: Word, r3m: Word, r3l: Word,
                            x0: Word, x1: Word, x2: Word, x3: Word, x4: Word, x5: Word, x6: Word)
    returns (r4h: Word, r4i: Word, r4j: Word, r4k: Word, r4l: Word, ghost t: int, ghost low: int)
    ensures 0 <= low < B * B
    ensures B * B * t + low == Horner3(r3l, r3m, r3h) * (B * (B * (B * B))) - Horner6(x0, x1, x2, x3, x4, x5 + B * x6)
    ensures 0 <= t < B * (B * (B * (B * B))) ==> Horner5(r4l, r4k, r4j, r4i, r4h) == t
  {
    hide Horner5, Horner6, Horner3;
    var lost;
    var d0, b0 := Sub64(0, x0, 0);
    var d1, b1 := Sub64(0, x1, b0);
    var b2, b3, b4, b5;
    r4l, b2 := Sub64(0, x2, b1);
    r4k, b3 := Sub64(0, x3, b2);
    r4j, b4 := Sub64(r3l, x4, b3);
    r4i, b5 := Sub64(r3m, x5, b4);
    r4h, lost := Sub64(r3h, x6, b5);
    ghost var words := Horner5(r4l, r4k, r4j, r4i, r4h);
    t, low := words - lost * (B * (B * (B * (B * B)))), d0 + B * d1;
    SevenBorrows(r3h, r3m, r3l, x0, x1, x2, x3, x4, x5, x6, d0, d1, r4l, r4k, r4j, r4i, r4h, b0, b1, b2, b3, b4, b5, lost);
    FiveWordRange(r4l, r4k, r4j, r4i, r4h);
    NoBorrow(words, t, lost, B * (B * (B * (B * B))));
  }

  lemma SevenBorrows(r3h: int, r3m: int, r3l: int, x0: int, x1: int, x2: int, x3: int, x4: int, x5: int, x6: int,
                     d0: int, d1: int, d2: int, d3: int, d4: int, d5: int, d6: int,
                     b0: int, b1: int, b2: int, b3: int, b4: int, b5: int, b6: int)
    requires d0 - b0 * B == 0 - x0 && d1 - b1 * B == 0 - x1 - b0 && d2 - b2 * B == 0 - x2 - b1
    requires d3 - b3 * B == 0 - x3 - b2 && d4 - b4 * B == r3l - x4 - b3
    requires d5 - b5 * B == r3m - x5 - b4 && d6 - b6 * B == r3h - x6 - b5
    ensures B * B * (Horner5(d2, d3, d4, d5, d6) - b6 * (B * (B * (B * (B * B))))) + (d0 + B * d1)
         == Horner3(r3l, r3m, r3h) * (B * (B * (B * B))) - Horner6(x0, x1, x2, x3, x4, x5 + B * x6)
  {
  }

  lemma FiveWordRange(a: Word, b: Word, c: Word, d: Word, e: Word)
    ensures 0 <= Horner5(a, b, c, d, e) < B * (B * (B * (B * B)))
  {
  }

  // A difference that stays in range had no borrow.
  lemma NoBorrow(words: int, t: int, lost: int, n: int)
    requires 0 <= lost <= 1 && t == words - lost * n && 0 <= words < n
    ensures 0 <= t ==> t == words
  {
  }

  // What the fourth iteration adds to the exact step, in base w.
  lemma FourthStep(w: int, w2: int, w3: int, k: int, r3: int, s: int, x: int, d: int, t: int, low: int)
    returns (d': int)
    requires 0 < w2 && 0 < w3 && w2 == w * w && w3 == w * w2 && 2 * k == w * w3 && 0 <= d < 6 * k && 0 <= low < w2
    requires s == w3 * x + d && w2 * t + low == r3 * (2 * k) - x
    ensures 2 * (w * k) * t == 2 * (w3 * k) * r3 - s + d'
    ensures -2 * (w * k) < d' < 6 * k
  {
    d' := AddedFourth(w, w2, w3, k, d, low);
    FourthSum(w, w2, w3, k, r3, s, x, d, t, low);
  }

  lemma AddedFourth(w: int, w2: int, w3: int, k: int, d: int, low: int) returns (d': int)
    requires 0 < w2 && 0 < w3 && w2 == w * w && 2 * k == w * w3 && 0 <= d < 6 * k && 0 <= low < w2
    ensures d' == d - w3 * low && -2 * (w * k) < d' < 6 * k
  {
    d' := d - w3 * low;
    LowRange(w, w2, w3, k, low);
  }

  lemma FourthSum(w: int, w2: int, w3: int, k: int, r3: int, s: int, x: int, d: int, t: int, low: int)
    requires w2 == w * w && 2 * k == w * w3 && s == w3 * x + d && w2 * t + low == r3 * (2 * k) - x
    ensures 2 * (w * k) * t == 2 * (w3 * k) * r3 - s + (d - w3 * low)
  {
    ReorderedTwice(w, w2, w3, k, t);
    ScaledTop(w3, r3, k);
    var left, right := w2 * t, r3 * (2 * k);
    ScaledDifference(w3, left, low, right, x);
    StepSum(2 * (w * k) * t, w3 * left, 2 * (w3 * k) * r3, w3 * right, w3 * x, w3 * low, s, d);
  }

  lemma ReorderedTwice(w: int, w2: int, w3: int, k: int, t: int)
    requires w2 == w * w && 2 * k == w * w3
    ensures w3 * (w2 * t) == 2 * (w * k) * t
  {
    Reordered(w, w2, w3, k, t);
    assert w * k * (2 * t) == 2 * (w * k) * t;
  }

  lemma LowRange(w: int, w2: int, w3: int, k: int, low: int)
    requires 0 < w2 && 0 < w3 && w2 == w * w && 2 * k == w * w3 && 0 <= low < w2
    ensures 0 <= w3 * low < 2 * (w * k)
  {
    MulBoth(0, low, 0, w3);
    MulLe(low, w2 - 1, w3);
    Distribute(w2, 1, w3);
    Reordered(w, w2, w3, k, 1);
  }

  lemma ScaledTop(w3: int, r3: int, k: int)
    ensures w3 * (r3 * (2 * k)) == 2 * (w3 * k) * r3
  {
  }

  // The candidate is at most one too large, and at most one and a half too small.
  lemma FourthError(w: int, w2: int, w3: int, k: int, y: int, r3: int, x: int, d: int, t: int, low: int)
    requires 8192 < w && w2 == w * w && w3 == w * w2 && 2 * k == w * w3
    requires k < y < 2 * k && 0 <= d < 6 * k && 0 <= low < w2
    requires Product(Product(r3, r3), y) == w3 * x + d && w2 * t + low == r3 * (2 * k) - x
    requires -12 * w2 <= w3 * k - Product(r3, y) < 2 * y + k
    ensures -y < w * (k * k) - Product(t, y) && 2 * (w * (k * k) - Product(t, y)) < 3 * y
    ensures 0 < t < 2 * (w * k)
  {
    hide Product;
    Powers(w, w2, w3, k);
    var d' := FourthStep(w, w2, w3, k, r3, Product(Product(r3, r3), y), x, d, t, low);
    var p3, p4, m := w3 * k, w * (k * k), w * k;
    var e3, e4 := p3 - Product(r3, y), p4 - Product(t, y);
    assert p3 * p3 == 2 * m * p4 by { FourthScale(w, w2, w3, k); }
    NewtonStep(p3, r3, y, 2 * m, p4, t, d', e3, e4);
    assert 12 * w2 <= 5 * k by { MulLe(13, w, w2); MulLe(1, w, w3); }
    SquareBound(e3, 5 * k);
    assert 0 <= Product(e3, e3) <= 25 * (k * k);
    LastBound(w, m, k, y, Product(e3, e3), e4, d');
    assert 3 * k < p4 by { MulLe(4, w, k * k); MulLe(1, k, k); }
    EstimatePositive(p4, y, t);
    assert p4 + y <= 2 * m * y by { LastFits(w, k, y); }
    EstimateBelow(p4, y, t, 2 * m, y);
  }

  lemma FourthScale(w: int, w2: int, w3: int, k: int)
    requires w2 == w * w && w3 == w * w2 && 2 * k == w * w3
    ensures (w3 * k) * (w3 * k) == 2 * (w * k) * (w * (k * k))
  {
    assert (2 * k) * (w * w) * (k * k) == (w * w3) * (w * w) * (k * k);
    assert (w * w) * (w * w3 * (k * k)) == w2 * (w * w3 * (k * k));
    assert (w * w2) * (w3 * (k * k)) == w3 * (w3 * (k * k));
  }

  lemma LastFits(w: int, k: int, y: int)
    requires 1 < w && 0 < k < y
    ensures w * (k * k) + y <= 2 * (w * k) * y
  {
    var m := w * k;
    MulLe(k, y, m);
    MulBoth(1, w, 1, k);
    MulLe(1, m, y);
    assert m * k == w * (k * k);
  }

  lemma LastBound(w: int, m: int, k: int, y: int, s: int, e': int, d: int)
    requires 25 < w && 0 < k < y && m == w * k && 2 * m * e' == s - Product(d, y)
    requires 0 <= s <= 25 * (k * k) && -2 * m < d < 6 * k
    ensures -y < e' && 2 * e' < 3 * y
  {
    var p := k * y;
    assert k * k <= p && 0 < p by { MulLe(k, y, k); MulLe(1, y, k); }
    assert 0 < m && m * y == w * p by { MulLe(1, w, k); Associate(w, k, y); }
    AddedRange(w, m, k, y, d, p);
    MulLe(26, w, p);
    FinalRange(m, y, e', s - Product(d, y), w * p);
  }

  lemma FinalRange(m: int, y: int, e': int, scaled: int, wp: int)
    requires 0 < m && m * y == wp && 2 * m * e' == scaled && -2 * wp < scaled < 3 * wp
    ensures -y < e' && 2 * e' < 3 * y
  {
    BelowByFactor(m, 2 * e', 3 * y, scaled, 3 * wp);
    BelowByFactor(m, -2 * y, 2 * e', -2 * wp, scaled);
  }

  lemma AddedRange(w: int, m: int, k: int, y: int, d: int, p: int)
    requires 0 < y && -2 * m < d < 6 * k && p == k * y && m * y == w * p
    ensures -2 * (w * p) <= Product(d, y) <= 6 * p
  {
    MulLe(-2 * m, d, y);
    MulLe(d, 6 * k, y);
    Associate(-2, m, y);
    Associate(6, k, y);
  }

  // ---- all four iterations ----

  // t is floor(n / unit), or one more where n is less than slack below that.
  predicate Truncated(t: int, n: int, unit: int, slack: int)
  {
    -unit < unit * t - n < slack
  }

  // What the last two iterations subtract from, in units of 2^320.
  function StepOf(r: int, scale: int, y: int): int
  {
    B * (B * B) * (r * scale) - Product(Product(r, r), y)
  }

  // The estimates of the first two iterations.
  function FirstEstimateOf(y3: Word): int
  {
    Capped(FirstExact(y3), B)
  }

  function SecondEstimateOf(y3: Word, y2: Word): int
  {
    Capped(SecondExact(FirstEstimateOf(y3), y3 * B + y2), B * B)
  }

  // Half the estimate of the third iteration, and the candidate that the fourth makes of it.
  ghost predicate ThirdOf(r2: int, y: int, t: int)
  {
    Truncated(t, StepOf(r2, B * (B * B), y), B * (B * B) * (B * B), 6 * (B * (B * B)))
  }

  ghost predicate FourthOf(t: int, y: int, c: int)
  {
    Truncated(c, StepOf(2 * t, B * (B * (B * B)), y), B * (B * B) * (B * B), 3 * (B * (B * (B * B))))
  }

  ghost predicate IsCandidate(y0: Word, y1: Word, y2: Word, y3: Word, c: int)
  {
    exists t: int :: ThirdOf(SecondEstimateOf(y3, y2), Horner(y0, y1, y2, y3), t) && FourthOf(t, Horner(y0, y1, y2, y3), c)
  }

  // What is dropped, and what is cut off, only move the result of a step inside its window.
  lemma StepWindow(w3: int, w2: int, scale: int, r: int, s: int, q: int, d: int, t: int, low: int, slack: int)
    requires 0 < w3 && 0 <= low < w2 && 0 <= d < slack && s == w3 * q + d && w2 * t + low == r * scale - q
    ensures Truncated(t, w3 * (r * scale) - s, w3 * w2, slack)
  {
    MulLe(0, low, w3);
    MulLe(low + 1, w2, w3);
    Distribute(low, 1, w3);
    ScaledDifference(w3, w2 * t, low, r * scale, q);
    Associate(w3, w2, t);
    WindowSum(w3 * w2 * t, w3 * (w2 * t), w3 * w2, w3 * (r * scale), w3 * q, w3 * low, s, d, slack);
  }

  lemma WindowSum(ut: int, left: int, unit: int, top: int, q: int, low: int, s: int, d: int, slack: int)
    requires ut == left && left == top - q - low && s == q + d && 0 <= low < unit && 0 <= d < slack
    ensures -unit < ut - (top - s) < slack
  {
  }

  // The candidate for 2^574 / y, at most one too large and at most one and a half too small.
  method Candidate(y0: Word, y1: Word, y2: Word, y3: Word) returns (r4: array<Word>)
    requires K < Horner(y0, y1, y2, y3)
    ensures fresh(r4) && r4.Length == 5
    ensures var e := B * (K * K) - Product(Horner5(r4[0], r4[1], r4[2], r4[3], r4[4]), Horner(y0, y1, y2, y3));
            -Horner(y0, y1, y2, y3) < e && 2 * e < 3 * Horner(y0, y1, y2, y3)
    ensures Horner5(r4[0], r4[1], r4[2], r4[3], r4[4]) > 0
    ensures IsCandidate(y0, y1, y2, y3, Horner5(r4[0], r4[1], r4[2], r4[3], r4[4]))
  {
    hide Product, Horner, Horner3, Horner5, Horner6, Truncated, FirstExact, SecondExact;
    ghost var y := Horner(y0, y1, y2, y3);
    LeftAligned(y0, y1, y2, y3);
    KTwice();

    var r1 := FirstIteration(y, y3);
    SecondExactError(y, r1, y3, y2);
    var r2h, r2l := SecondIteration(r1, y3, y2);
    ghost var r2: int := r2l + B * r2h;

    var x0, x1, x2, x3 := SquareTwo(r2h, r2l);
    var q0, q1, q2, q3, q4;
    ghost var t, low;
    q0, q1, q2, q3, q4, low := ThirdProduct(x0, x1, x2, x3, y0, y1, y2, y3);
    ghost var d := ThirdDropped(x0, x1, x2, x3, y0, y1, y2, y3, Horner5(q0, q1, q2, q3, q4), low);
    var r3h, r3m, r3l;
    r3h, r3m, r3l, t, low := TripleDifference(r2h, r2l, q0, q1, q2, q3, q4);
    ThirdError(B, B * B, B * (B * B), K, y, r2, Horner5(q0, q1, q2, q3, q4), d, t, low);
    StepWindow(B * (B * B), B * B, B * (B * B), r2, Product(Product(r2, r2), y), Horner5(q0, q1, q2, q3, q4), d, t, low,
               6 * (B * (B * B)));
    ghost var half := t;
    assert ThirdOf(SecondEstimateOf(y3, y2), y, half);
    ghost var r3 := Horner3(r3l, r3m, r3h);

    var s0, s1, s2, s3, s4, s5 := SquareThree(r3h, r3m, r3l);
    var x4, x5, x6;
    x0, x1, x2, x3, x4, x5, x6, d := FourthProduct(s0, s1, s2, s3, s4, s5, y0, y1, y2, y3);
    var r4h, r4i, r4j, r4k, r4l;
    r4h, r4i, r4j, r4k, r4l, t, low := FiveWordDifference(r3h, r3m, r3l, x0, x1, x2, x3, x4, x5, x6);
    FourthError(B, B * B, B * (B * B), K, y, r3, Horner6(x0, x1, x2, x3, x4, x5 + B * x6), d, t, low);
    StepWindow(B * (B * B), B * B, B * (B * (B * B)), r3, Product(Product(r3, r3), y),
               Horner6(x0, x1, x2, x3, x4, x5 + B * x6), d, t, low, 3 * (B * (B * (B * B))));
    assert FourthOf(half, y, t);
    r4 := FiveWords(r4l, r4k, r4j, r4i, r4h);
  }

  method FiveWords(a: Word, b: Word, c: Word, d: Word, e: Word) returns (r: array<Word>)
    ensures fresh(r) && r.Length == 5 && r[0] == a && r[1] == b && r[2] == c && r[3] == d && r[4] == e
  {
    r := new Word[5] [a, b, c, d, e];
  }

  lemma LeftAligned(y0: Word, y1: Word, y2: Word, y3: Word)
    requires K < Horner(y0, y1, y2, y3)
    ensures Horner(y0, y1, y2, y3) < 2 * K && 0x8000_0000_0000_0000 <= y3
    ensures y3 * (B * (B * B)) <= Horner(y0, y1, y2, y3) < (y3 + 1) * (B * (B * B))
    ensures (y3 * B + y2) * (B * B) <= Horner(y0, y1, y2, y3) < (y3 * B + y2 + 1) * (B * B)
  {
  }

  // ---- the final adjustment ----

  method FirstRow(x0: Word, x1: Word, x2: Word, x3: Word, x4: Word, y: Word)
    returns (q0: Word, q1: Word, q2: Word, q3: Word, q4: Word, q5: Word)
    ensures Horner6(q0, q1, q2, q3, q4, q5)
         == Horner5(Product(x0, y), Product(x1, y), Product(x2, y), Product(x3, y), Product(x4, y))
  {
    hide Product;
    var c;
    q1, q0 := MulFull(x0, y);
    q3, q2 := MulFull(x2, y);
    q5, q4 := MulFull(x4, y);
    ProductLimit(x0, y);
    ProductLimit(x1, y);
    ProductLimit(x2, y);
    ProductLimit(x3, y);
    ProductLimit(x4, y);
    q1, q2, c := MulAccumulate(q1, q2, x1, y, 0);
    q3, q4, c := MulAccumulate(q3, q4, x3, y, c);
    q5 := AddTop(q5, c);
  }

  // The whole product of the candidate and y.
  method FullProduct(x0: Word, x1: Word, x2: Word, x3: Word, x4: Word, y0: Word, y1: Word, y2: Word, y3: Word)
    returns (q0: Word, q1: Word, q2: Word, q3: Word, q4: Word, q5: Word, q6: Word, q7: Word, q8: Word)
    ensures Horner3(q0, q1, q2) + B * (B * B) * Horner6(q3, q4, q5, q6, q7, q8)
         == Product(Horner5(x0, x1, x2, x3, x4), Horner(y0, y1, y2, y3))
  {
    hide Product, Horner, Horner3, Horner5, Horner6;
    q0, q1, q2, q3, q4, q5 := FirstRow(x0, x1, x2, x3, x4, y0);
    RowProducts(0, x0, x1, x2, x3, x4, y0);
    LowWordOff(q0, q1, q2, q3, q4, q5);
    q1, q2, q3, q4, q5, q6 := RowC(q1, q2, q3, q4, q5, x0, x1, x2, x3, x4, y1);
    RowProducts(0, x0, x1, x2, x3, x4, y1);
    LowWordOff(q1, q2, q3, q4, q5, q6);
    q2, q3, q4, q5, q6, q7 := RowC(q2, q3, q4, q5, q6, x0, x1, x2, x3, x4, y2);
    RowProducts(0, x0, x1, x2, x3, x4, y2);
    LowWordOff(q2, q3, q4, q5, q6, q7);
    q3, q4, q5, q6, q7, q8 := RowC(q3, q4, q5, q6, q7, x0, x1, x2, x3, x4, y3);
    RowProducts(0, x0, x1, x2, x3, x4, y3);
    ByHorner(Horner5(x0, x1, x2, x3, x4), y0, y1, y2, y3);
    assert Horner3(q0, q1, q2) == q0 + B * (q1 + B * q2) by { Horner3Is(q0, q1, q2); }
  }

  lemma LowWordOff(q0: int, q1: int, q2: int, q3: int, q4: int, q5: int)
    ensures Horner6(q0, q1, q2, q3, q4, q5) == q0 + B * Horner5(q1, q2, q3, q4, q5)
  {
  }

  lemma Horner3Is(a: int, b: int, c: int)
    ensures Horner3(a, b, c) == a + B * (b + B * c)
  {
  }

  // Whether the product is above a quarter of 2^576.
  method AboveQuarter(q0: Word, q1: Word, q2: Word, q3: Word, q4: Word, q5: Word, q6: Word, q7: Word, q8: Word)
    returns (b: int)
    ensures b == if Horner3(q0, q1, q2) + B * (B * B) * Horner6(q3, q4, q5, q6, q7, q8) > B * (K * K) then 1 else 0
  {
    ghost var d0, d1, d2, d3, d4, d5, d6, d7, d8;
    d0, b := Sub64(0, q0, 0);
    d1, b := Sub64(0, q1, b);
    d2, b := Sub64(0, q2, b);
    d3, b := Sub64(0, q3, b);
    d4, b := Sub64(0, q4, b);
    d5, b := Sub64(0, q5, b);
    d6, b := Sub64(0, q6, b);
    d7, b := Sub64(0, q7, b);
    d8, b := Sub64(0x4000_0000_0000_0000, q8, b);
  }

  method Decrement(r4h: Word, r4i: Word, r4j: Word, r4k: Word, r4l: Word)
    returns (x4: Word, x3: Word, x2: Word, x1: Word, x0: Word)
    requires Horner5(r4l, r4k, r4j, r4i, r4h) > 0
    ensures Horner5(x0, x1, x2, x3, x4) == Horner5(r4l, r4k, r4j, r4i, r4h) - 1
  {
    var t, lost;
    x0, t := Sub64(r4l, 1, 0);
    x1, t := Sub64(r4k, 0, t);
    x2, t := Sub64(r4j, 0, t);
    x3, t := Sub64(r4i, 0, t);
    x4, lost := Sub64(r4h, 0, t);
  }

  // The candidate, less one if it times y is above 2^574.
  ghost predicate IsAdjusted(y0: Word, y1: Word, y2: Word, y3: Word, a: int)
  {
    exists c: int :: IsCandidate(y0, y1, y2, y3, c)
                  && a == if Product(c, Horner(y0, y1, y2, y3)) > B * (K * K) then c - 1 else c
  }

  // floor(2^574 / y) or one less.
  method Adjusted(y0: Word, y1: Word, y2: Word, y3: Word) returns (r4: array<Word>)
    requires K < Horner(y0, y1, y2, y3)
    ensures fresh(r4) && r4.Length == 5
    ensures var e := B * (K * K) - Product(Horner5(r4[0], r4[1], r4[2], r4[3], r4[4]), Horner(y0, y1, y2, y3));
            0 <= e && 2 * e < 3 * Horner(y0, y1, y2, y3)
    ensures IsAdjusted(y0, y1, y2, y3, Horner5(r4[0], r4[1], r4[2], r4[3], r4[4]))
  {
    hide Product, Horner, Horner3, Horner5, Horner6, IsCandidate;
    r4 := Candidate(y0, y1, y2, y3);
    var q0, q1, q2, q3, q4, q5, q6, q7, q8 := FullProduct(r4[0], r4[1], r4[2], r4[3], r4[4], y0, y1, y2, y3);
    var b := AboveQuarter(q0, q1, q2, q3, q4, q5, q6, q7, q8);
    OneLess(Horner5(r4[0], r4[1], r4[2], r4[3], r4[4]), Horner(y0, y1, y2, y3));
    var x4, x3, x2, x1, x0 := Decrement(r4[4], r4[3], r4[2], r4[1], r4[0]);
    if b != 0 {
      r4 := FiveWords(x0, x1, x2, x3, x4);
    }
  }

  lemma OneLess(c: int, y: int)
    ensures Product(c - 1, y) == Product(c, y) - y
  {
  }
}
