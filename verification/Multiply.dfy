// The full 256 x 256 -> 512-bit product, and its low half computed without the rest.
module Multiply {
  import opened Arith
  import opened Words
  import opened Limbs
  import opened LongDivision

  // res[i..] += y * xi over the first n words of y; the carry out is returned.
  method AddMulTo(res: array<Word>, i: nat, y: array<Word>, n: nat, xi: Word) returns (carry: Word)
    requires n <= y.Length && i + n <= res.Length && res != y
    modifies res
    ensures Value(res[..][i..i + n]) + carry * Weight(n) == Value(old(res[..])[i..i + n]) + Value(y[..][..n]) * xi
    ensures forall k :: 0 <= k < res.Length && !(i <= k < i + n) ==> res[k] == old(res[k])
  {
    hide Value, Weight;
    carry := 0;
    var j, k := 0, i;
    ghost var r0 := res[..];
    EmptyProduct(r0, i, y[..], xi);
    while j < n
      invariant 0 <= j <= n && k == i + j
      invariant Value(res[..][i..i + j]) + carry * Weight(j) == Value(r0[i..i + j]) + Value(y[..][..j]) * xi
      invariant forall m :: 0 <= m < res.Length && !(i <= m < i + j) ==> res[m] == r0[m]
    {
      ghost var before, carry0 := res[..], carry;
      var hi, lo := Mul64(xi, y[j]);
      ProductBound(xi, y[j]);
      var c;
      lo, c := Add64(lo, res[k], 0);
      hi := hi + c;
      lo, c := Add64(lo, carry, 0);
      hi := hi + c;
      res[k] := lo;
      carry := hi;
      k := k + 1;
      AddMulAdvance(r0, before, res[..], i, y[..], j, xi, lo, carry0, carry);
      j := j + 1;
    }
  }

  lemma EmptyProduct(r: seq<Word>, i: nat, y: seq<Word>, xi: Word)
    requires i <= |r|
    ensures Value(r[i..i + 0]) == 0 && Value(y[..0]) * xi == 0 && Weight(0) == 1
  {
  }

  lemma AddMulAdvance(r0: seq<Word>, r: seq<Word>, r': seq<Word>, i: nat, y: seq<Word>, j: nat,
                      m: Word, t: Word, c: Word, c': Word)
    requires j < |y| && i + j < |r| && |r| == |r0|
    requires r' == r[i + j := t] && r[i + j] == r0[i + j]
    requires Value(r[i..i + j]) + c * Weight(j) == Value(r0[i..i + j]) + Value(y[..j]) * m
    requires c' * B + t == m * y[j] + r[i + j] + c
    ensures Value(r'[i..i + j + 1]) + c' * Weight(j + 1) == Value(r0[i..i + j + 1]) + Value(y[..j + 1]) * m
  {
    hide Value;
    SliceSnoc(r', i, j);
    SliceSnoc(r0, i, j);
    SliceSnoc(y, 0, j);
    assert r'[i..i + j] == r[i..i + j];
    AddMulStep(Weight(j), Value(r0[i..i + j]), Value(y[..j]), Value(r[i..i + j]), r0[i + j], y[j], m, t, c, c');
  }

  lemma AddMulStep(w: int, v: int, d: int, r: int, x: int, y: int, m: int, t: int, c: int, c': int)
    requires r + c * w == v + d * m
    requires c' * B + t == m * y + x + c
    ensures r + w * t + c' * (B * w) == v + w * x + (d + w * y) * m
  {
    assert w * (c' * B + t) == w * (m * y + x + c);
  }

  method UMul(x: array<Word>, y: array<Word>) returns (res: array<Word>)
    requires x.Length == 4 && y.Length == 4
    ensures fresh(res) && res.Length == 8
    ensures Value(res[..]) == Value(x[..]) * Value(y[..])
  {
    hide Value, Weight;
    res := new Word[8](_ => 0);
    var lenX := SignificantLength(x);
    var lenY := SignificantLength(y);
    ghost var xs, ys := x[..], y[..];
    ValuePadded(xs, lenX);
    ValuePadded(ys, lenY);
    ZeroResult(res[..], xs, ys);
    var i := 0;
    if lenX == 0 || lenY == 0 {
      EmptyValue(xs[..lenX], ys[..lenY]);
      return;
    }
    while i < lenX
      invariant 0 <= i <= lenX && x[..] == xs && y[..] == ys
      invariant Value(res[..]) == Value(xs[..i]) * Value(ys[..lenY])
      invariant forall k :: i + lenY <= k < 8 ==> res[k] == 0
    {
      var xi := x[i];
      ghost var before := res[..];
      if xi != 0 {
        var carry := AddMulTo(res, i, y, lenY, xi);
        ghost var added := res[..];
        res[i + lenY] := carry;
        RowAdded(before, added, res[..], i, lenY, carry, Value(ys[..lenY]) * xi);
      } else {
        assert Value(ys[..lenY]) * xi == 0;
      }
      RowTotal(xs, i, Value(ys[..lenY]));
      i := i + 1;
    }
  }

  lemma ZeroResult(res: seq<Word>, x: seq<Word>, y: seq<Word>)
    requires forall k :: 0 <= k < |res| ==> res[k] == 0
    ensures Value(res) == 0 && Value(x[..0]) * Value(y[..SigLen(y)]) == 0
  {
    ValueZeros(res);
  }

  lemma EmptyValue(s: seq<Word>, t: seq<Word>)
    requires s == [] || t == []
    ensures Value(s) * Value(t) == 0
  {
  }

  // A row of the product and its carry word, in the whole result.
  lemma RowAdded(r0: seq<Word>, r1: seq<Word>, r2: seq<Word>, i: nat, n: nat, carry: Word, row: nat)
    requires |r0| == |r1| && i + n < |r0|
    requires forall k :: 0 <= k < |r0| && !(i <= k < i + n) ==> r1[k] == r0[k]
    requires forall k :: i + n <= k < |r0| ==> r0[k] == 0
    requires r2 == r1[i + n := carry]
    requires Value(r1[i..i + n]) + carry * Weight(n) == Value(r0[i..i + n]) + row
    ensures Value(r2) == Value(r0) + Weight(i) * row
  {
    hide Value, Weight;
    ThreeParts(r0, i, n);
    ThreeParts(r2, i, n);
    assert r2[..i] == r0[..i] && r2[i..i + n] == r1[i..i + n];
    RowStep(Weight(i), Weight(n), Value(r0[i..i + n]), Value(r1[i..i + n]), carry, row);
  }

  lemma RowStep(w: int, wn: int, v0: int, v1: int, carry: int, row: int)
    requires v1 + carry * wn == v0 + row
    ensures w * (v1 + wn * carry) == w * (v0 + wn * 0) + w * row
  {
    assert w * (v1 + carry * wn) == w * (v0 + row);
  }

  lemma ThreeParts(s: seq<Word>, i: nat, n: nat)
    requires i + n < |s| && forall k :: i + n < k < |s| ==> s[k] == 0
    ensures Value(s) == Value(s[..i]) + Weight(i) * (Value(s[i..i + n]) + Weight(n) * s[i + n])
  {
    hide Value, Weight;
    ValuePadded(s, i + n + 1);
    var t := s[..i + n + 1];
    ValueSplit(t, i);
    assert t[..i] == s[..i] && t[i..] == s[i..i + n] + [s[i + n]];
    ValueSnoc(s[i..i + n], s[i + n]);
  }

  lemma RowTotal(x: seq<Word>, i: nat, y: nat)
    requires i < |x|
    ensures Value(x[..i + 1]) * y == Value(x[..i]) * y + Weight(i) * (y * x[i])
  {
    hide Value, Weight;
    SliceSnoc(x, 0, i);
    assert x[0..i + 1] == x[..i + 1] && x[0..i] == x[..i];
    assert (Value(x[..i]) + Weight(i) * x[i]) * y == Value(x[..i]) * y + Weight(i) * (y * x[i]);
  }

  // hi:lo = z + x * y
  method UMulHop(z: Word, x: Word, y: Word) returns (hi: Word, lo: Word)
    ensures hi * B + lo == z + x * y
  {
    ProductBound(x, y);
    hi, lo := Mul64(x, y);
    var carry;
    lo, carry := Add64(lo, z, 0);
    hi := hi + carry;
  }

  // hi:lo = z + x * y + carry
  method UMulStep(z: Word, x: Word, y: Word, carry: Word) returns (hi: Word, lo: Word)
    ensures hi * B + lo == z + x * y + carry
  {
    ProductBound(x, y);
    hi, lo := Mul64(x, y);
    var c;
    lo, c := Add64(lo, carry, 0);
    hi := hi + c;
    lo, c := Add64(lo, z, 0);
    hi := hi + c;
  }

  // Wrapping z + x * y + carry, with what is lost.
  method MulAddWrap(z: Word, x: Word, y: Word, carry: Word) returns (r: Word, ghost lost: int)
    ensures r + lost * B == z + x * y + carry
  {
    var p, s;
    ghost var ph, c1, c2;
    p, ph := MulWrap(x, y);
    s, c1 := Add64(z, p, 0);
    r, c2 := Add64(s, carry, 0);
    lost := ph + c1 + c2;
    Distribute(ph, c1 + c2, B);
  }

  // z = x * y modulo 2^256; z may be x or y.
  method Mul(z: array<Word>, x: array<Word>, y: array<Word>)
    requires x.Length == y.Length == z.Length == 4
    modifies z
    ensures Value(z[..]) == old(Value(x[..]) * Value(y[..])) % Weight(4)
  {
    hide Value, Weight;
    ghost var xs, ys := x[..], y[..];
    ghost var l0, l1, l2, l3;
    var carry, r0 := Mul64(x[0], y[0]);
    var res1, res2, res3, r1, r2, r3;
    carry, res1 := UMulHop(carry, x[1], y[0]);
    carry, res2 := UMulHop(carry, x[2], y[0]);
    res3, l0 := MulAddWrap(0, x[3], y[0], carry);

    carry, r1 := UMulHop(res1, x[0], y[1]);
    carry, res2 := UMulStep(res2, x[1], y[1], carry);
    res3, l1 := MulAddWrap(res3, x[2], y[1], carry);

    carry, r2 := UMulHop(res2, x[0], y[2]);
    res3, l2 := MulAddWrap(res3, x[1], y[2], carry);

    r3, l3 := MulAddWrap(res3, x[0], y[3], 0);

    z[0], z[1], z[2], z[3] := r0, r1, r2, r3;
    LowProduct(xs, ys, z[..], l0 + l1 + l2 + l3);
  }

  // The columns of weight below 2^256 determine the product modulo 2^256.
  lemma LowProduct(x: seq<Word>, y: seq<Word>, r: seq<Word>, lost: int)
    requires |x| == |y| == |r| == 4
    requires Horner(r[0], r[1], r[2], r[3] + B * lost)
          == Horner(Column1(x[0], y[0]), Column2(x[0], x[1], y[0], y[1]),
                    Column3(x[0], x[1], x[2], y[0], y[1], y[2]),
                    Column4(x[0], x[1], x[2], x[3], y[0], y[1], y[2], y[3]))
    ensures Value(r) == Value(x) * Value(y) % Weight(4)
  {
    hide Value, Weight, Horner, Column1, Column2, Column3, Column4, FourByFourHigh;
    ValueFour(x);
    ValueFour(y);
    ValueFour(r);
    ValueBound(r);
    var high := FourByFourHigh(x[1], x[2], x[3], y[1], y[2], y[3]);
    FourByFour(x[0], x[1], x[2], x[3], y[0], y[1], y[2], y[3]);
    HornerCarry(r[0], r[1], r[2], r[3], lost);
    WeightFour();
    Distribute(lost, high, Weight(4));
    DivUnique(Value(x) * Value(y), Weight(4), lost + high, Value(r));
  }

  lemma HornerCarry(a: int, b: int, c: int, d: int, lost: int)
    ensures Horner(a, b, c, d + B * lost) == Horner(a, b, c, d) + Weight(4) * lost
  {
    WeightFour();
  }

  lemma WeightFour()
    ensures Weight(4) == B * (B * (B * B))
  {
  }

  function Column1(x0: int, y0: int): int {
    x0 * y0
  }

  function Column2(x0: int, x1: int, y0: int, y1: int): int {
    x1 * y0 + x0 * y1
  }

  function Column3(x0: int, x1: int, x2: int, y0: int, y1: int, y2: int): int {
    x2 * y0 + x1 * y1 + x0 * y2
  }

  function Column4(x0: int, x1: int, x2: int, x3: int, y0: int, y1: int, y2: int, y3: int): int {
    x3 * y0 + x2 * y1 + x1 * y2 + x0 * y3
  }

  function FourByFourHigh(x1: int, x2: int, x3: int, y1: int, y2: int, y3: int): int {
    x3 * y1 + x2 * y2 + x1 * y3 + B * (x3 * y2 + x2 * y3) + B * B * (x3 * y3)
  }

  lemma FourByFour(x0: int, x1: int, x2: int, x3: int, y0: int, y1: int, y2: int, y3: int)
    ensures Horner(x0, x1, x2, x3) * Horner(y0, y1, y2, y3)
         == Horner(Column1(x0, y0), Column2(x0, x1, y0, y1), Column3(x0, x1, x2, y0, y1, y2),
                   Column4(x0, x1, x2, x3, y0, y1, y2, y3)) + Weight(4) * FourByFourHigh(x1, x2, x3, y1, y2, y3)
  {
    WeightFour();
  }
}
