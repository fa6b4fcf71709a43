module Division {
  import opened Arith
  import opened Words
  import opened Limbs

  const HALF: int := 0x8000_0000_0000_0000

  // v is the word the division by the normalised word d works with: floor((2^128 - 1) / d) - 2^64.
  ghost predicate IsReciprocal(v: Word, d: Word) {
    B * B - d <= (B + v) * d < B * B
  }

  method Reciprocal2by1(d: Word) returns (v: Word)
    requires HALF <= d
    ensures IsReciprocal(v, d)
  {
    ghost var r;
    v, r := Div64(B - 1 - d, B - 1, d);
    Distribute(B, v, d);
  }

  // The candidate remainder r of the quotient guess q + 1, scaled by 2^64.
  lemma CandidateIdentity(uh: int, ul: int, d: int, v: int, q: int, q0: int)
    requires q * B + q0 == v * uh + uh * B + ul
    ensures B * (uh * B + ul - (q + 1) * d)
         == uh * (B * B - (B + v) * d) + ul * (B - d) + (q0 - B) * d
  {
    assert (q * B + q0) * d == (v * uh + uh * B + ul) * d;
  }

  // The guess itself stays below 2^64, so q + 1 wraps at most to zero.
  lemma CandidateFits(uh: int, ul: int, d: int, v: int, q: int, q0: int)
    requires q * B + q0 == v * uh + uh * B + ul && 0 <= q0
    requires 0 <= uh < d < B && 0 <= ul < B && 0 <= v && (B + v) * d < B * B
    ensures q < B
  {
    MulLe(uh, d - 1, B + v);
    Distribute(d, 1, B + v);
    Distribute(B, v, uh);
  }

  // Moller and Granlund's bound: the candidate quotient q + 1 leaves a remainder that is
  // above both -d and q0 - 2^64, and below 2^64 - d or below q0.
  lemma CandidateRemainder(uh: int, ul: int, d: int, v: int, q: int, q0: int, r: int)
    requires 0 <= uh < d < B && 0 <= ul < B && 0 <= q0 < B
    requires B * B - d <= (B + v) * d < B * B
    requires q * B + q0 == v * uh + uh * B + ul
    requires r == uh * B + ul - (q + 1) * d
    ensures -d <= r && q0 - B < r && (r < B - d || r < q0)
  {
    var k := B * B - (B + v) * d;
    CandidateIdentity(uh, ul, d, v, q, q0);
    MulBoth(uh, d - 1, k, d);
    MulBoth(ul, B - 1, B - d, B - d);
    CandidateLower(d, q0, r);
    CandidateUpper(d, q0, r);
  }

  lemma CandidateLower(d: int, q0: int, r: int)
    requires 0 < d < B && 0 <= q0 < B
    requires B * r >= (q0 - B) * d
    ensures -d <= r && q0 - B < r
  {
    MulLe(0, q0, d);
    MulLe(d + 1, B, B - q0);
  }

  lemma CandidateUpper(d: int, q0: int, r: int)
    requires 0 < d < B && 0 <= q0 < B
    requires B * r <= (d - 1) * d + (B - 1) * (B - d) + (q0 - B) * d
    ensures r < B - d || r < q0
  {
    if r >= B - d && r >= q0 {
      MulLe(B - d, r, B - d);
      MulLe(q0, r, d);
    }
  }

  // The wrapped remainder the code computes is the candidate remainder modulo 2^64.
  lemma WrappedCandidate(uh: int, ul: int, d: int, q: int, qh: int, p: int, overflow: int, r: int, t: int)
    requires 0 <= r < B && -B < t < B
    requires qh == q + 1 || qh == q + 1 - B
    requires overflow * B + p == qh * d
    requires r == ul - p || r == ul - p + B
    requires t == uh * B + ul - (q + 1) * d
    ensures r == t || r == t + B
  {
    Distribute(q + 1, B, d);
  }

  lemma QuotientFits(uh: int, ul: int, d: int, q: int, r: int)
    requires 0 <= uh < d && 0 <= ul < B && 0 <= r < d
    requires q * d + r == uh * B + ul
    ensures 0 <= q < B
  {
    if q < 0 { MulLe(q, -1, d); }
    if q >= B { MulLe(B, q, d); }
  }

  // Everything the two corrections need: the true quotient and remainder, and the true
  // (possibly negative) candidate remainder t of which r is the residue.
  lemma CandidateCorrection(uh: Word, ul: Word, d: Word, v: Word, q: int, q0: Word, qh: Word, p: Word,
                            overflow: int, r: Word)
    returns (quotient: Word, remainder: Word, t: int)
    requires HALF <= d && uh < d && IsReciprocal(v, d)
    requires q * B + q0 == v * uh + uh * B + ul
    requires qh == q + 1 || qh == q + 1 - B
    requires overflow * B + p == qh * d
    requires r == ul - p || r == ul - p + B
    ensures quotient * d + remainder == uh * B + ul && remainder < d
    ensures r == t || r == t + B
    ensures q0 - B < t && (t < B - d || t < q0)
    ensures remainder == if t < 0 then t + d else if t < d then t else t - d
    ensures quotient == if t < 0 then q else if t < d then q + 1 else q + 2
  {
    t := uh * B + ul - (q + 1) * d;
    CandidateRemainder(uh, ul, d, v, q, q0, t);
    WrappedCandidate(uh, ul, d, q, qh, p, overflow, r, t);
    var quo := if t < 0 then q else if t < d then q + 1 else q + 2;
    remainder := if t < 0 then t + d else if t < d then t else t - d;
    Distribute(q + 1, 1, d);
    QuotientFits(uh, ul, d, quo, remainder);
    quotient := quo;
  }

  method UDivRem2by1(uh: Word, ul: Word, d: Word, reciprocal: Word) returns (quot: Word, rem: Word)
    requires HALF <= d && uh < d && IsReciprocal(reciprocal, d)
    ensures quot * d + rem == uh * B + ul && rem < d
  {
    var qh, ql := Mul64(reciprocal, uh);
    var carry;
    ql, carry := Add64(ql, ul, 0);
    ghost var q := qh + uh + carry;
    CandidateFits(uh, ul, d, reciprocal, q, ql);
    qh, carry := Add64(qh, uh, carry);
    qh := AddWrap(qh, 1);

    ghost var overflow;
    var p;
    p, overflow := MulWrap(qh, d);
    var r := SubWrap(ul, p);
    ghost var quotient, remainder, t := CandidateCorrection(uh, ul, d, reciprocal, q, ql, qh, p, overflow, r);

    if r > ql {
      qh := SubWrap(qh, 1);
      r := AddWrap(r, d);
    }
    if r >= d {
      qh := AddWrap(qh, 1);
      r := SubWrap(r, d);
    }
    assert qh == quotient && r == remainder;
    return qh, r;
  }

  lemma EmptyWindow(x: seq<Word>, j: nat, y: seq<Word>)
    requires j <= |x|
    ensures Value(x[j..j]) == 0 && Value(x[j..j + 0]) == 0 && Value(y[..0]) == 0 && Weight(0) == 1
  {
  }

  // Division by one normalised word, most significant word first.
  method UDivRemBy1(quot: array<Word>, u: array<Word>, d: Word) returns (rem: Word)
    requires HALF <= d
    requires 2 <= u.Length <= quot.Length + 1 && u[u.Length - 1] < d
    requires quot != u
    modifies quot
    ensures Value(u[..]) == Value(quot[..][..u.Length - 1]) * d + rem && rem < d
    ensures forall k :: u.Length - 1 <= k < quot.Length ==> quot[k] == old(quot[k])
  {
    hide Value, Weight;
    var reciprocal := Reciprocal2by1(d);
    var n := u.Length - 1;
    rem := u[n];
    var j := n;
    assert u[..][n..n + 1] == [rem];
    ValueSingle(rem);
    EmptyWindow(quot[..], n, []);
    while j > 0
      invariant 0 <= j <= n && rem < d
      invariant Value(u[..][j..n + 1]) == Value(quot[..][j..n]) * d + rem
      invariant forall k :: n <= k < quot.Length ==> quot[k] == old(quot[k])
    {
      ghost var digits, r := quot[..], rem;
      j := j - 1;
      var q;
      q, rem := UDivRem2by1(rem, u[j], d, reciprocal);
      quot[j] := q;
      DigitAdvance(u[..], digits, quot[..], j, n, d, r, q, rem);
    }
    assert u[..][0..n + 1] == u[..] && quot[..][0..n] == quot[..][..n];
  }

  lemma DigitAdvance(u: seq<Word>, quot: seq<Word>, quot': seq<Word>, j: nat, n: nat, d: Word, r: Word, q: Word, r': Word)
    requires j < n < |u| && n <= |quot| && quot' == quot[j := q]
    requires Value(u[j + 1..n + 1]) == Value(quot[j + 1..n]) * d + r
    requires q * d + r' == r * B + u[j]
    ensures Value(u[j..n + 1]) == Value(quot'[j..n]) * d + r'
  {
    SliceCons(u, j, n + 1);
    SliceCons(quot', j, n);
    assert quot'[j + 1..n] == quot[j + 1..n];
    AppendDigit(u[j], Value(u[j + 1..n + 1]), Value(quot[j + 1..n]), d, r, q, r');
  }

  // One more quotient digit q, whatever the size of the divisor d.
  lemma AppendDigit(u: int, high: int, quotient: int, d: int, r: int, q: int, r': int)
    requires high == quotient * d + r
    requires q * d + r' == r * B + u
    ensures u + B * high == (q + B * quotient) * d + r'
  {
    Distribute(q, B * quotient, d);
    Associate(B, quotient, d);
  }

  // x[j..] -= y * multiplier, over the |y| words from position j; the borrow is returned.
  method SubMulTo(x: array<Word>, j: nat, y: array<Word>, multiplier: Word) returns (borrow: Word)
    requires j + y.Length <= x.Length && x != y
    modifies x
    ensures Value(x[..][j..j + y.Length]) - borrow * Weight(y.Length)
         == Value(old(x[..])[j..j + y.Length]) - Value(y[..]) * multiplier
    ensures forall k :: 0 <= k < x.Length && !(j <= k < j + y.Length) ==> x[k] == old(x[k])
  {
    hide Value, Weight;
    borrow := 0;
    var i := 0;
    EmptyWindow(x[..], j, y[..]);
    ghost var x0 := x[..];
    while i < y.Length
      invariant 0 <= i <= y.Length
      invariant Value(x[..][j..j + i]) - borrow * Weight(i) == Value(x0[j..j + i]) - Value(y[..][..i]) * multiplier
      invariant forall k :: 0 <= k < x.Length && !(j <= k < j + i) ==> x[k] == x0[k]
    {
      ghost var before, b := x[..], borrow;
      var s, carry1 := Sub64(x[j + i], borrow, 0);
      var ph, pl := Mul64(y[i], multiplier);
      var t, carry2 := Sub64(s, pl, 0);
      x[j + i] := t;
      ProductBound(y[i], multiplier);
      borrow := ph + carry1 + carry2;
      SubMulAdvance(x0, before, x[..], j, y[..], i, multiplier, t, b, borrow);
      i := i + 1;
    }
    assert y[..][..i] == y[..];
  }

  lemma SubMulAdvance(x0: seq<Word>, x: seq<Word>, x': seq<Word>, j: nat, y: seq<Word>, i: nat,
                      m: Word, t: Word, b: Word, b': int)
    requires i < |y| && j + i < |x| && |x| == |x0|
    requires x' == x[j + i := t] && x[j + i] == x0[j + i]
    requires Value(x[j..j + i]) - b * Weight(i) == Value(x0[j..j + i]) - Value(y[..i]) * m
    requires t - b' * B == x[j + i] - y[i] * m - b
    ensures Value(x'[j..j + i + 1]) - b' * Weight(i + 1) == Value(x0[j..j + i + 1]) - Value(y[..i + 1]) * m
  {
    SliceSnoc(x', j, i);
    SliceSnoc(x0, j, i);
    SliceSnoc(y, 0, i);
    assert x'[j..j + i] == x[j..j + i];
    SubMulStep(Weight(i), Value(x0[j..j + i]), Value(y[..i]), Value(x[j..j + i]), x0[j + i], y[i], m, t, b, b');
  }

  lemma SubMulStep(w: int, v: int, d: int, r: int, x: int, y: int, m: int, t: int, b: int, b': int)
    requires r - b * w == v - d * m
    requires t - b' * B == x - y * m - b
    ensures r + w * t - b' * (B * w) == v + w * x - (d + w * y) * m
  {
    assert w * (t - b' * B) == w * (x - y * m - b);
  }

  // x[j..] += y, over the |y| words from position j; the carry is returned.
  method AddTo(x: array<Word>, j: nat, y: array<Word>) returns (carry: Word)
    requires j + y.Length <= x.Length && x != y
    modifies x
    ensures carry <= 1
    ensures Value(x[..][j..j + y.Length]) + carry * Weight(y.Length)
         == Value(old(x[..])[j..j + y.Length]) + Value(y[..])
    ensures forall k :: 0 <= k < x.Length && !(j <= k < j + y.Length) ==> x[k] == old(x[k])
  {
    hide Value, Weight;
    carry := 0;
    var i := 0;
    EmptyWindow(x[..], j, y[..]);
    ghost var x0 := x[..];
    while i < y.Length
      invariant 0 <= i <= y.Length && carry <= 1
      invariant Value(x[..][j..j + i]) + carry * Weight(i) == Value(x0[j..j + i]) + Value(y[..][..i])
      invariant forall k :: 0 <= k < x.Length && !(j <= k < j + i) ==> x[k] == x0[k]
    {
      ghost var before, c := x[..], carry;
      var s;
      s, carry := Add64(x[j + i], y[i], carry);
      x[j + i] := s;
      AddAdvance(x0, before, x[..], j, y[..], i, s, c, carry);
      i := i + 1;
    }
    assert y[..][..i] == y[..];
  }

  lemma AddAdvance(x0: seq<Word>, x: seq<Word>, x': seq<Word>, j: nat, y: seq<Word>, i: nat,
                   s: Word, c: int, c': int)
    requires i < |y| && j + i < |x| && |x| == |x0|
    requires x' == x[j + i := s] && x[j + i] == x0[j + i]
    requires Value(x[j..j + i]) + c * Weight(i) == Value(x0[j..j + i]) + Value(y[..i])
    requires s + c' * B == x[j + i] + y[i] + c
    ensures Value(x'[j..j + i + 1]) + c' * Weight(i + 1) == Value(x0[j..j + i + 1]) + Value(y[..i + 1])
  {
    SliceSnoc(x', j, i);
    SliceSnoc(x0, j, i);
    SliceSnoc(y, 0, i);
    assert x'[j..j + i] == x[j..j + i];
    AddStep(Weight(i), x[j + i], y[i], s, c, c');
  }

  lemma AddStep(w: int, x: int, y: int, s: int, c: int, c': int)
    requires s + c' * B == x + y + c
    ensures w * s + c' * (B * w) == w * x + w * y + c * w
  {
    assert w * (s + c' * B) == w * (x + y + c);
  }

  // Knuth's trial digit from the top three words of the dividend and top two of the divisor:
  // never below the true digit, at most one above it. A single correction is made, and none
  // at all when u2 has reached dh.
  method EstimateDigit(u2: Word, u1: Word, u0: Word, dh: Word, dl: Word, reciprocal: Word) returns (qhat: Word)
    requires HALF <= dh && u2 <= dh && IsReciprocal(reciprocal, dh)
    ensures (qhat - 1) * (dh * B + dl + 1) <= (u2 * B + u1) * B + u0
    ensures qhat == B - 1 || (u2 * B + u1) * B + u0 < (qhat + 1) * (dh * B + dl)
  {
    if u2 >= dh {
      qhat := B - 1;
      SaturatedDigit(u2, u1, u0, dh, dl);
    } else {
      var rhat;
      qhat, rhat := UDivRem2by1(u2, u1, dh, reciprocal);
      var ph, pl := Mul64(qhat, dl);
      TrialDigit(u2, u1, u0, dh, dl, qhat, rhat);
      if ph > rhat || (ph == rhat && pl > u0) {
        CorrectedDigit(u2, u1, u0, dh, dl, qhat, rhat);
        qhat := qhat - 1;
      }
    }
  }

  lemma SaturatedDigit(u2: Word, u1: Word, u0: Word, dh: Word, dl: Word)
    requires HALF <= dh <= u2
    ensures (B - 2) * (dh * B + dl + 1) <= (u2 * B + u1) * B + u0
  {
    assert (B - 2) * (dh * B + dl + 1) <= (B - 2) * (dh * B + B);
  }

  lemma TrialDigit(u2: Word, u1: Word, u0: Word, dh: Word, dl: Word, q: Word, r: Word)
    requires HALF <= dh && r < dh && q * dh + r == u2 * B + u1
    ensures (u2 * B + u1) * B + u0 < (q + 1) * (dh * B + dl)
    ensures q * dl <= r * B + u0 ==> (q - 1) * (dh * B + dl + 1) <= (u2 * B + u1) * B + u0
  {
    MulBoth(0, q + 1, 0, dl);
    assert (q + 1) * (dh * B + dl) == (q * dh) * B + dh * B + (q + 1) * dl;
    assert (q - 1) * (dh * B + dl + 1) == (q * dh) * B + q * dl + q - dh * B - dl - 1;
  }

  lemma CorrectedDigit(u2: Word, u1: Word, u0: Word, dh: Word, dl: Word, q: Word, r: Word)
    requires HALF <= dh && r < dh && q * dh + r == u2 * B + u1
    requires q * dl > r * B + u0
    ensures q > 0
    ensures (q - 2) * (dh * B + dl + 1) <= (u2 * B + u1) * B + u0
    ensures (u2 * B + u1) * B + u0 < q * (dh * B + dl)
  {
    assert q * (dh * B + dl) == (q * dh) * B + q * dl;
    if q >= 2 {
      MulLe(dh * B + dl + 1, dh * B + B, q - 2);
      assert (q - 2) * (dh * B + B) == (q * dh) * B + q * B - 2 * dh * B - 2 * B;
    } else {
      MulLe(q - 2, 0, dh * B + dl + 1);
    }
  }

  // The trial digit is within one of the true digit for the whole numbers too.
  lemma DigitLower(w: int, u: int, d: int, top: int, dTop: int, qhat: int)
    requires 0 < w && 0 <= top && 0 <= d && 0 <= qhat
    requires top * w <= u && d <= (dTop + 1) * w
    requires (qhat - 1) * (dTop + 1) <= top
    ensures (qhat - 1) * d <= u
  {
    if qhat >= 1 {
      MulLe(d, (dTop + 1) * w, qhat - 1);
      Associate(qhat - 1, dTop + 1, w);
      MulLe((qhat - 1) * (dTop + 1), top, w);
    } else {
      MulLe(qhat - 1, 0, d);
      MulLe(0, top, w);
    }
  }

  lemma DigitUpper(w: int, u: int, d: int, top: int, dTop: int, qhat: int)
    requires 0 < w && 0 <= qhat
    requires u < (top + 1) * w && dTop * w <= d
    requires top < (qhat + 1) * dTop
    ensures u < (qhat + 1) * d
  {
    MulLe(top + 1, (qhat + 1) * dTop, w);
    Associate(qhat + 1, dTop, w);
    MulLe(dTop * w, d, qhat + 1);
  }

  lemma DigitBounds(w: int, u: int, d: int, top: int, dTop: int, uLow: int, dLow: int, qhat: int)
    requires 0 < w && 0 <= uLow < w && 0 <= dLow < w && 0 <= top && 0 <= dTop && 0 <= qhat
    requires u == w * top + uLow && d == w * dTop + dLow
    requires u < B * d
    requires (qhat - 1) * (dTop + 1) <= top
    requires qhat == B - 1 || top < (qhat + 1) * dTop
    ensures (qhat - 1) * d <= u < (qhat + 1) * d
  {
    Distribute(dTop, 1, w);
    Distribute(top, 1, w);
    MulBoth(0, dTop, 0, w);
    DigitLower(w, u, d, top, dTop, qhat);
    if qhat < B - 1 {
      DigitUpper(w, u, d, top, dTop, qhat);
    }
  }

  // A whole window of the dividend against the whole divisor, from their top words.
  lemma RoundBounds(u: seq<Word>, d: seq<Word>, top: int, dTop: int, qhat: Word)
    requires 2 <= |d| && |u| == |d| + 1
    requires Value(u[1..]) < Value(d)
    requires top == (u[|d|] * B + u[|d| - 1]) * B + u[|d| - 2] && dTop == d[|d| - 1] * B + d[|d| - 2]
    requires (qhat - 1) * (dTop + 1) <= top
    requires qhat == B - 1 || top < (qhat + 1) * dTop
    ensures (qhat - 1) * Value(d) <= Value(u) < (qhat + 1) * Value(d)
  {
    hide Value, Weight;
    var n := |d|;
    var w, uLow, dLow := Weight(n - 2), Value(u[..n - 2]), Value(d[..n - 2]);
    assert Value(u) == w * top + uLow by { ValueTopThree(u); }
    assert Value(d) == w * dTop + dLow by { ValueTopTwo(d); }
    assert Value(u) < B * Value(d) by { ValueCons(u[0], u[1..]); assert u == [u[0]] + u[1..]; }
    ValueBound(u[..n - 2]);
    ValueBound(d[..n - 2]);
    DigitBounds(w, Value(u), Value(d), top, dTop, uLow, dLow, qhat);
  }

  // Whether or not too much was subtracted is visible in the top word alone.
  lemma SubtractedDigit(w: int, u: int, d: int, low: int, u2: int, r: int, borrow: int, qhat: int)
    requires 0 < d < w && 0 <= r < w && 0 <= u && 0 <= qhat
    requires u == low + w * u2
    requires r - borrow * w == low - d * qhat
    requires (qhat - 1) * d <= u < (qhat + 1) * d
    ensures u2 >= borrow ==> u2 == borrow && u == qhat * d + r && r < d
    ensures u2 < borrow ==> u2 + 1 == borrow && qhat > 0 && w <= r + d && u == (qhat - 1) * d + (r + d - w)
  {
    var e := u2 - borrow;
    Distribute(u2, borrow, w);
    Distribute(qhat, 1, d);
    assert u - qhat * d == r + e * w;
    if e >= 1 { MulLe(1, e, w); }
    if e <= -2 { MulLe(e, -2, w); }
    if qhat == 0 { assert qhat * d == 0; }
  }

  lemma RoundOutcome(before: seq<Word>, j: nat, ds: seq<Word>, r: nat, borrow: Word, qhat: Word)
    requires 2 <= |ds| && j + |ds| < |before|
    requires Value(before[j + 1..j + 1 + |ds|]) < Value(ds)
    requires r - borrow * Weight(|ds|) == Value(before[j..j + |ds|]) - Value(ds) * qhat
    requires r < Weight(|ds|)
    requires (qhat - 1) * Value(ds) <= Value(before[j..j + |ds| + 1]) < (qhat + 1) * Value(ds)
    ensures var u, u2, d, w := Value(before[j..j + |ds| + 1]), before[j + |ds|], Value(ds), Weight(|ds|);
            (u2 >= borrow ==> u2 == borrow && u == qhat * d + r && r < d) &&
            (u2 < borrow ==> u2 + 1 == borrow && qhat > 0 && w <= r + d < 2 * w && u == (qhat - 1) * d + (r + d - w))
  {
    hide Value, Weight;
    SliceSnoc(before, j, |ds|);
    ValueBound(ds);
    SubtractedDigit(Weight(|ds|), Value(before[j..j + |ds| + 1]), Value(ds), Value(before[j..j + |ds|]),
                    before[j + |ds|], r, borrow, qhat);
  }

  lemma AddBack(r: int, d: int, w: int, r': int, carry: int)
    requires w <= r + d < 2 * w && 0 <= r' < w && 0 <= carry <= 1
    requires r' + carry * w == r + d
    ensures carry == 1 && r' == r + d - w
  {
  }

  // Multiply and subtract, adding the divisor back when the trial digit was one too big.
  method SubtractDigit(u: array<Word>, j: nat, d: array<Word>, trial: Word) returns (qhat: Word)
    requires 2 <= d.Length && j + d.Length < u.Length && u != d
    requires Value(u[..][j + 1..j + 1 + d.Length]) < Value(d[..])
    requires (trial - 1) * Value(d[..]) <= Value(u[..][j..j + d.Length + 1]) < (trial + 1) * Value(d[..])
    modifies u
    ensures Value(old(u[..])[j..j + d.Length + 1]) == qhat * Value(d[..]) + Value(u[..][j..j + d.Length])
    ensures Value(u[..][j..j + d.Length]) < Value(d[..])
    ensures u[j + d.Length] == 0
    ensures forall k :: 0 <= k < u.Length && !(j <= k <= j + d.Length) ==> u[k] == old(u[k])
  {
    hide Value, Weight;
    var dLen := d.Length;
    var u2 := u[j + dLen];
    ghost var before, ds := u[..], d[..];
    qhat := trial;
    var borrow := SubMulTo(u, j, d, qhat);
    ValueBound(u[..][j..j + dLen]);
    RoundOutcome(before, j, ds, Value(u[..][j..j + dLen]), borrow, qhat);
    ghost var subtracted := u[..];
    u[j + dLen] := SubWrap(u2, borrow);
    assert u[..][j..j + dLen] == subtracted[j..j + dLen];
    if u2 < borrow {
      qhat := qhat - 1;
      var carry := AddTo(u, j, d);
      ValueBound(u[..][j..j + dLen]);
      AddBack(Value(subtracted[j..j + dLen]), Value(ds), Weight(dLen), Value(u[..][j..j + dLen]), carry);
      subtracted := u[..];
      u[j + dLen] := AddWrap(u[j + dLen], carry);
      assert u[..][j..j + dLen] == subtracted[j..j + dLen];
    }
  }

  // One round of Algorithm D on the window u[j..j + n], leaving the remainder in its low n words.
  method KnuthRound(u: array<Word>, j: nat, d: array<Word>, reciprocal: Word) returns (qhat: Word)
    requires 2 <= d.Length && j + d.Length < u.Length && u != d
    requires HALF <= d[d.Length - 1] && IsReciprocal(reciprocal, d[d.Length - 1])
    requires Value(u[..][j + 1..j + 1 + d.Length]) < Value(d[..])
    modifies u
    ensures Value(old(u[..])[j..j + d.Length + 1]) == qhat * Value(d[..]) + Value(u[..][j..j + d.Length])
    ensures Value(u[..][j..j + d.Length]) < Value(d[..])
    ensures u[j + d.Length] == 0
    ensures forall k :: 0 <= k < u.Length && !(j <= k <= j + d.Length) ==> u[k] == old(u[k])
  {
    hide Value, Weight;
    var n := d.Length;
    var u2, u1, u0, dh, dl := u[j + n], u[j + n - 1], u[j + n - 2], d[n - 1], d[n - 2];
    ghost var window := u[..][j..j + n + 1];
    assert window[1..] == u[..][j + 1..j + 1 + n];
    TopWordOrder(window[1..], d[..]);
    qhat := EstimateDigit(u2, u1, u0, dh, dl, reciprocal);
    RoundBounds(window, d[..], (u2 * B + u1) * B + u0, dh * B + dl, qhat);
    qhat := SubtractDigit(u, j, d, qhat);
  }

  // Algorithm D with the dividend's top words already below the divisor: quotient digits go
  // to quot, the remainder stays in the low words of u.
  method UDivRemKnuth(quot: array<Word>, u: array<Word>, d: array<Word>)
    requires 2 <= d.Length < u.Length <= quot.Length + d.Length
    requires HALF <= d[d.Length - 1] && Value(u[..][u.Length - d.Length..]) < Value(d[..])
    requires quot != u && quot != d && u != d
    modifies quot, u
    ensures Value(old(u[..])) == Value(quot[..][..u.Length - d.Length]) * Value(d[..]) + Value(u[..][..d.Length])
    ensures Value(u[..][..d.Length]) < Value(d[..])
    ensures forall k :: u.Length - d.Length <= k < quot.Length ==> quot[k] == old(quot[k])
  {
    hide Value, Weight;
    var dLen := d.Length;
    var reciprocal := Reciprocal2by1(d[dLen - 1]);
    var n := u.Length - dLen;
    var j := n;
    ghost var u0, ds, dv := u[..], d[..], Value(d[..]);
    assert u0[n..n + dLen] == u0[n..];
    EmptyWindow(quot[..], n, []);
    while j > 0
      invariant 0 <= j <= n && d[..] == ds
      invariant forall k :: 0 <= k < j ==> u[k] == u0[k]
      invariant Value(u[..][j..j + dLen]) < dv
      invariant Value(u0[j..n + dLen]) == Value(quot[..][j..n]) * dv + Value(u[..][j..j + dLen])
      invariant forall k :: n <= k < quot.Length ==> quot[k] == old(quot[k])
    {
      ghost var before, digits := u[..], quot[..];
      ghost var remainder := before[j..j + dLen];
      j := j - 1;
      assert u[..][j + 1..j + 1 + dLen] == remainder && d[..] == ds;
      var qhat := KnuthRound(u, j, d, reciprocal);
      quot[j] := qhat;
      RoundAdvance(u0, before, digits, quot[..], j, n, dLen, dv, qhat, Value(u[..][j..j + dLen]));
    }
    assert u0[0..n + dLen] == u0 && quot[..][0..n] == quot[..][..n];
  }

  lemma RoundAdvance(u0: seq<Word>, u: seq<Word>, quot: seq<Word>, quot': seq<Word>,
                     j: nat, n: nat, k: nat, d: int, q: Word, r: int)
    requires |u0| == |u| == n + k && j < n <= |quot|
    requires u[j] == u0[j] && quot' == quot[j := q]
    requires Value(u0[j + 1..n + k]) == Value(quot[j + 1..n]) * d + Value(u[j + 1..j + 1 + k])
    requires Value(u[j..j + k + 1]) == q * d + r
    ensures Value(u0[j..n + k]) == Value(quot'[j..n]) * d + r
  {
    SliceCons(u, j, j + k + 1);
    SliceCons(u0, j, n + k);
    SliceCons(quot', j, n);
    assert quot'[j + 1..n] == quot[j + 1..n];
    AppendDigit(u0[j], Value(u0[j + 1..n + k]), Value(quot[j + 1..n]), d, Value(u[j + 1..j + 1 + k]), q, r);
  }
}
