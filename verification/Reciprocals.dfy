// What a Barrett reciprocal is, the reciprocals of powers of two, and the reciprocal of any modulus from
// the Newton iterations, with the moduli for which it is two below the floor.
module Reciprocals {
  import opened Arith
  import opened Words
  import opened Limbs
  import opened Bits
  import opened Multiply
  import opened Shifts
  import opened Uint256
  import opened Bitwise256
  import opened Columns
  import opened Newton
  import opened NewtonWide
  import opened Shortfall

  // What the reciprocal has to be: floor(2^512 / m), or at most two less.
  ghost predicate IsBarrettReciprocal(mu: nat, m: nat) {
    Weight(8) - 3 * m < mu * m <= Weight(8)
  }

  // The contract in terms of the floor.
  lemma ReciprocalRange(mu: nat, m: nat)
    requires m > 0
    ensures IsBarrettReciprocal(mu, m) <==> Weight(8) / m - 2 <= mu <= Weight(8) / m
  {
    hide Weight;
    var w := Weight(8);
    var f, r := w / m, w % m;
    assert w == f * m + r && 0 <= r < m;
    FloorRange(mu, m, w, f, r);
  }

  lemma FloorRange(mu: int, m: int, w: int, f: int, r: int)
    requires 0 < m && w == f * m + r && 0 <= r < m
    ensures w - 3 * m < mu * m <= w <==> f - 2 <= mu <= f
  {
    if mu > f { MulLe(f + 1, mu, m); Distribute(f, 1, m); }
    if mu < f - 2 { MulLe(mu, f - 3, m); Distribute(f, 3, m); }
    if f - 2 <= mu <= f { MulLe(f - 2, mu, m); MulLe(mu, f, m); Distribute(f, 2, m); }
  }

  lemma TopWordNonZero(s: seq<Word>)
    requires |s| == 4 && s[3] != 0
    ensures Weight(3) <= Value(s) < Weight(4)
  {
    hide Value, Weight;
    ValueBound(s);
    assert s == s[..3] + [s[3]];
    ValueSnoc(s[..3], s[3]);
    MulLe(1, s[3], Weight(3));
  }

  lemma {:induction false} LenOfPower(j: nat)
    ensures Len64(Pow2(j)) == j + 1
  {
    if j > 0 {
      LenOfPower(j - 1);
      assert Pow2(j) / 2 == Pow2(j - 1);
    }
  }

  // Pow2(192 + j) has the single word Pow2(j) at the top.
  lemma TopPower(m: seq<Word>, j: nat)
    requires |m| == 4 && j < 64
    ensures Value(m) == Pow2(192 + j) <==> m[0] == 0 && m[1] == 0 && m[2] == 0 && m[3] == Pow2(j)
  {
    hide Value, Weight, Pow2;
    Pow2Word();
    PowerBelowWord(j);
    PowerOfTwoWeight(3);
    Pow2Add(192, j);
    var t: seq<Word> := [0, 0, 0, Pow2(j)];
    ValueZeros([0, 0, 0]);
    assert t == [0, 0, 0] + [Pow2(j)];
    ValueSnoc([0, 0, 0], Pow2(j));
    if Value(m) == Pow2(192 + j) { ValueInjective(m, t); }
    if m[0] == 0 && m[1] == 0 && m[2] == 0 && m[3] == Pow2(j) { assert m == t; }
  }

  lemma PowerBelowWord(j: nat)
    requires j < 64
    ensures Pow2(j) < B
  {
    PowMono(2, j, 63);
    Pow2Word();
  }

  ghost predicate IsPowerOfTwo(v: nat)
  {
    exists e: nat :: v == Pow2(e)
  }

  lemma PowerIs(v: nat, e: nat)
    requires v == Pow2(e)
    ensures IsPowerOfTwo(v)
  {
  }

  lemma PowerOfTwoTest(m: seq<Word>)
    requires |m| == 4 && m[3] != 0
    ensures Or(Or(Or(m[0], m[1]), m[2]), And(m[3], m[3] - 1)) == 0
       <==> m[0] == 0 && m[1] == 0 && m[2] == 0 && m[3] == Pow2(Len64(m[3]) - 1)
    ensures Or(Or(Or(m[0], m[1]), m[2]), And(m[3], m[3] - 1)) == 0 <==> IsPowerOfTwo(Value(m))
  {
    hide Value, Weight, Or;
    OrIsZero(m[0], m[1]);
    OrIsZero(Or(m[0], m[1]), m[2]);
    OrIsZero(Or(Or(m[0], m[1]), m[2]), And(m[3], m[3] - 1));
    Pow2Word();
    AndPredecessor(64, m[3]);
    LenAtMost(m[3], 64);
    var j := Len64(m[3]) - 1;
    TopPower(m, j);
    if e: nat :| Value(m) == Pow2(e) {
      ExponentRange(m, e);
      TopPower(m, e - 192);
      LenOfPower(e - 192);
    }
  }

  lemma ExponentRange(m: seq<Word>, e: nat)
    requires |m| == 4 && m[3] != 0 && Value(m) == Pow2(e)
    ensures 192 <= e < 256
  {
    hide Value, Weight, Pow2;
    TopWordNonZero(m);
    PowerOfTwoWeight(3);
    PowerOfTwoWeight(4);
    if e < 192 { Pow2Mono(e, 192); }
    if e >= 256 { Pow2Mono(256, e); }
  }

  lemma AllOnes(m: seq<Word>, mu: seq<Word>, s: nat)
    requires |m| == 4 && m[3] != 0 && s == LeadingZeros64(m[3])
    requires m[0] == 0 && m[1] == 0 && m[2] == 0 && m[3] == Pow2(Len64(m[3]) - 1)
    requires mu == [B - 1, B - 1, B - 1, B - 1, Shr(B - 1, (255 - s) % 64)]
    ensures 0 < Value(m) && Value(mu) == Weight(8) / Value(m) - 1
    ensures IsBarrettReciprocal(Value(mu), Value(m))
  {
    hide Value, Weight, Pow2;
    Pow2Word();
    LenAtMost(m[3], 64);
    var j := Len64(m[3]) - 1;
    assert (255 - s) % 64 == j;
    ShiftedOnes(j);
    TopPower(m, j);
    AllOnesValue(mu, Pow2(64 - j));
    PowerOfTwoWeight(4);
    PowerOfTwoWeight(8);
    Pow2Add(256, 64 - j);
    Pow2Add(320 - j, 192 + j);
    Distribute(Value(mu), 1, Value(m));
    DivUnique(Weight(8), Value(m), Value(mu) + 1, 0);
  }

  lemma ShiftedOnes(j: nat)
    requires j < 64
    ensures Shr(B - 1, j) == Pow2(64 - j) - 1
  {
    hide Pow2;
    Pow2Complement(j);
    Distribute(Pow2(64 - j), 1, Pow2(j));
    DivUnique(B - 1, Pow2(j), Pow2(64 - j) - 1, Pow2(j) - 1);
  }

  lemma AllOnesValue(mu: seq<Word>, t: int)
    requires |mu| == 5 && mu[0] == mu[1] == mu[2] == mu[3] == B - 1 && mu[4] == t - 1
    ensures Value(mu) == Weight(4) * t - 1
  {
    ValueFive(mu);
    WeightFour();
  }

  // The branch of Reciprocal for a modulus 2^p with 192 <= p <= 255: all ones, 512 - p of them.
  method PowerOfTwoReciprocal(m: array<Word>) returns (found: bool, mu: seq<Word>)
    requires IsUint(m) && m[3] != 0
    ensures found <==> IsPowerOfTwo(Val(m))
    ensures found ==> |mu| == 5 && Value(mu) == Weight(8) / Val(m) - 1
    ensures found ==> IsBarrettReciprocal(Value(mu), Val(m))
  {
    hide Value, Weight, Pow2, IsBarrettReciprocal, Or, And;
    var s := LeadingZeros64(m[3]);
    var p := 255 - s;
    Pow2Word();
    LenAtMost(m[3], 64);
    mu := [B - 1, B - 1, B - 1, B - 1, Shr(B - 1, p % 64)];
    PowerOfTwoTest(m[..]);
    found := Or(Or(Or(m[0], m[1]), m[2]), And(m[3], m[3] - 1)) == 0;
    if found {
      AllOnes(m[..], mu, s);
    }
  }

  // ---- any other modulus ----

  // mu[..] doubled, its top bit being clear.
  method Doubled(r: seq<Word>) returns (x: seq<Word>)
    requires |r| == 5
    ensures |x| == 5 && (2 * Value(r) < Weight(5) ==> Value(x) == 2 * Value(r))
  {
    hide Weight, Value, Horner5;
    var x0, c0 := Add64(r[0], r[0], 0);
    var x1, c1 := Add64(r[1], r[1], c0);
    var x2, c2 := Add64(r[2], r[2], c1);
    var x3, c3 := Add64(r[3], r[3], c2);
    var x4, c4 := Add64(r[4], r[4], c3);
    x := [x0, x1, x2, x3, x4];
    ValueFive(r);
    ValueFive(x);
    ValueBound(x);
    DoubledWords(r[0], r[1], r[2], r[3], r[4], x0, x1, x2, x3, x4, c0, c1, c2, c3, c4);
    if c4 >= 1 { MulLe(1, c4, Weight(5)); }
  }

  lemma DoubledWords(r0: int, r1: int, r2: int, r3: int, r4: int, x0: int, x1: int, x2: int, x3: int, x4: int,
                     c0: int, c1: int, c2: int, c3: int, c4: int)
    requires x0 + c0 * B == 2 * r0 && x1 + c1 * B == 2 * r1 + c0 && x2 + c2 * B == 2 * r2 + c1
    requires x3 + c3 * B == 2 * r3 + c2 && x4 + c4 * B == 2 * r4 + c3
    ensures Horner5(x0, x1, x2, x3, x4) + c4 * Weight(5) == 2 * Horner5(r0, r1, r2, r3, r4)
  {
    assert Weight(5) == B * (B * (B * (B * B)));
  }

  // The candidate for 2^574 / y, shifted to the scale of 2^512 / m.
  method Aligned(r4: seq<Word>, s: nat) returns (mu: seq<Word>)
    requires |r4| == 5 && s < 64
    ensures |mu| == 5
    ensures s == 63 && 2 * Value(r4) < Weight(5) ==> Value(mu) == 2 * Value(r4)
    ensures s < 63 ==> Value(mu) * Pow2(62 - s) <= Value(r4) < (Value(mu) + 1) * Pow2(62 - s)
  {
    hide Value, Weight, Pow2, ShrWord, Shr;
    mu := r4;
    var p: int := (255 - s) % 64 - 1;
    var x := Doubled(r4);
    if p < 0 {
      mu := x;
      p := 0;
    }
    x := [ShrWord(mu[0], mu[1], p), ShrWord(mu[1], mu[2], p), ShrWord(mu[2], mu[3], p),
          ShrWord(mu[3], mu[4], p), Shr(mu[4], p)];
    NoShift();
    if p > 0 {
      assert ShiftedDown(mu, x, p);
      ShiftedDownValue(mu, x, p);
      Distribute(Value(x), 1, Pow2(p));
      mu := x;
    }
  }

  lemma NoShift()
    ensures Pow2(0) == 1
  {
  }

  // What a candidate that misses 2^574 / y by less than three halves makes of 2^512 / m; k is the
  // shift by 62 - s, t is 2^62.
  lemma AlignedBound(m: int, y: int, c: int, mu: int, k: int, t: int, w: int)
    requires 0 < m && 0 < k && 0 < t && y * k == m * t && 0 < y
    requires 0 <= w * t - Product(c, y) && 2 * (w * t - Product(c, y)) < 3 * y
    requires mu * k <= c < (mu + 1) * k
    ensures w - 2 * m < mu * m <= w
  {
    MulLe(mu * k, c, y);
    MulLe(c + 1, (mu + 1) * k, y);
    Distribute(c, 1, y);
    assert (mu * k) * y == (mu * m) * t by { Associate(mu, k, y); Associate(mu, m, t); }
    assert ((mu + 1) * k) * y == ((mu + 1) * m) * t by { Associate(mu + 1, k, y); Associate(mu + 1, m, t); }
    MulLe(1, k, y);
    Distribute(mu, 1, m);
    ScaledRange(t, mu * m, w, c, y, m);
  }

  lemma ScaledRange(t: int, mm: int, w: int, c: int, y: int, m: int)
    requires 0 < t && mm * t <= c * y <= w * t && y <= m * t
    requires (mm + m) * t >= c * y + y && 2 * (w * t - c * y) < 3 * y
    ensures w - 2 * m < mm <= w
  {
    if mm > w { MulLe(w + 1, mm, t); Distribute(w, 1, t); }
    if mm <= w - 2 * m {
      MulLe(mm + m, w - m, t);
      Distribute(w, m, t);
    }
  }

  // For a top word of one the candidate is doubled, and so is what it misses.
  lemma AlignedTop(m: int, y: int, c: int, mu: int, t: int, w: int)
    requires 0 < t && y == 2 * (m * t) && mu == 2 * c
    requires 0 <= w * t - Product(c, y) && 2 * (w * t - Product(c, y)) < 3 * y
    ensures w - 3 * m < mu * m <= w
  {
    assert c * y == (mu * m) * t by { assert c * (2 * (m * t)) == ((2 * c) * m) * t; }
    if mu * m > w { MulLe(w + 1, mu * m, t); Distribute(w, 1, t); }
    if mu * m <= w - 3 * m { MulLe(mu * m, w - 3 * m, t); Distribute(w, 3 * m, t); Associate(3, m, t); }
  }

  // The scale of the candidate: 2^574 is 2^512 times 2^62.
  lemma CandidateScale()
    ensures B * (K * K) == Weight(8) * Pow2(62) && K == Pow2(255) && 2 * (B * K) == Weight(5)
  {
    hide Pow2;
    PowerOfTwoWeight(3);
    PowerOfTwoWeight(4);
    PowerOfTwoWeight(8);
    Pow2Word();
    Pow2Add(192, 63);
    Pow2Add(512, 62);
    Pow2Add(255, 255);
    Pow2Add(64, 510);
    assert Weight(3) == B * (B * B) by { ThreeWords(); }
    assert Weight(5) == B * (B * (B * (B * B)));
  }

  lemma ThreeWords()
    ensures Weight(3) == B * (B * B)
  {
  }

  // Shifted to the left, a modulus is at least 2^255.
  lemma ShiftedModulus(m: seq<Word>, s: nat)
    requires |m| == 4 && m[3] != 0 && s == LeadingZeros64(m[3])
    ensures s < 64 && K <= Value(m) * Pow2(s) < Weight(4)
    ensures s == 63 <==> m[3] == 1
  {
    hide Value, Weight, Pow2, Len64;
    var x, n := m[3] as int, Len64(m[3]);
    LenAtMost(m[3], 64) by { Pow2Word(); }
    Len64Bounds(m[3]);
    Pow2Zero(n, x);
    var w3 := Weight(3);
    assert m == m[..3] + [m[3]];
    ValueSnoc(m[..3], m[3]);
    ValueBound(m[..3]);
    TopBits(x, n, s);
    assert K == 0x8000_0000_0000_0000 * w3 && Weight(4) == B * w3 by { FourWeights(); }
    ShiftedRange(Value(m[..3]), w3, x, Pow2(s), Value(m));
    TopWordOne(m[3], n);
  }

  lemma FourWeights()
    ensures K == 0x8000_0000_0000_0000 * Weight(3) && Weight(4) == B * Weight(3)
  {
    assert Weight(3) == B * (B * B);
  }

  lemma TopBits(x: int, n: nat, s: nat)
    requires 0 < n <= 64 && s == 64 - n && Pow2(n - 1) <= x < Pow2(n)
    ensures 0x8000_0000_0000_0000 <= x * Pow2(s) && (x + 1) * Pow2(s) <= B
  {
    hide Pow2;
    Pow2Add(n - 1, s);
    Pow2Add(n, s);
    Pow2Word();
    MulLe(Pow2(n - 1), x, Pow2(s));
    MulLe(x + 1, Pow2(n), Pow2(s));
  }

  // It is exactly that only for a power of two.
  lemma ShiftedPower(v: nat, s: nat)
    requires s < 64 && v * Pow2(s) == K
    ensures v == Pow2(255 - s)
  {
    hide Pow2;
    CandidateScale();
    Pow2Add(255 - s, s);
    var q, p := Pow2(255 - s), Pow2(s);
    if v < q { MulLe(v + 1, q, p); Distribute(v, 1, p); }
    if v > q { MulLe(q + 1, v, p); Distribute(q, 1, p); }
  }

  lemma Pow2Zero(n: nat, x: nat)
    requires 0 < x < Pow2(n)
    ensures n > 0
  {
  }

  lemma TopWordOne(x: Word, n: nat)
    requires 0 < n <= 64 && Pow2(n - 1) <= x < Pow2(n)
    ensures n == 1 <==> x == 1
  {
    if n > 1 { Pow2Mono(1, n - 1); }
  }

  lemma ShiftedRange(low: int, w3: int, x: int, p: int, v: int)
    requires 0 <= low < w3 && 0 < p && v == low + w3 * x && 0x8000_0000_0000_0000 <= x * p && (x + 1) * p <= B
    ensures 0x8000_0000_0000_0000 * w3 <= v * p < B * w3
  {
    MulLe(0x8000_0000_0000_0000, x * p, w3);
    MulLe((x + 1) * p, B, w3);
    MulLe(w3 * x, v, p);
    MulLe(v + 1, w3 * (x + 1), p);
    Distribute(v, 1, p);
    assert (w3 * x) * p == (x * p) * w3 && (w3 * (x + 1)) * p == ((x + 1) * p) * w3;
  }

  // What the iterations compute from m shifted to the left by s bits.
  ghost predicate IsNewton(m: nat, s: nat, mu: nat)
  {
    s < 64 &&
    exists y: seq<Word>, a: nat ::
      && |y| == 4 && Value(y) == m * Pow2(s) && IsAdjusted(y[0], y[1], y[2], y[3], a)
      && if s == 63 then mu == 2 * a else mu == a / Pow2(62 - s)
  }

  // What a result two below floor(2^512 / m) says about the modulus, and which moduli force it.
  ghost predicate ByResidues(m: nat, mu: nat)
    requires m > 0
  {
    Residues(mu == Weight(8) / m - 2, m, Pow2(383) % m, Pow2(511) % m)
  }

  // The iterations on the shifted modulus, and the candidate shifted back.
  method ByNewton(m: array<Word>, s: nat) returns (mu: array<Word>)
    requires IsUint(m) && m[3] != 0 && !IsPowerOfTwo(Val(m)) && s == LeadingZeros64(m[3])
    ensures fresh(mu) && mu.Length == 5
    ensures IsNewton(Val(m), s, Value(mu[..])) && IsBarrettReciprocal(Value(mu[..]), Val(m))
    ensures s < 63 ==> Weight(8) - 2 * Val(m) < Value(mu[..]) * Val(m)
    ensures s == 63 ==> ByResidues(Val(m), Value(mu[..]))
  {
    hide Value, Weight, Pow2, IsBarrettReciprocal, Product, Horner, Horner5, IsAdjusted, IsPowerOfTwo, LeadingZeros64,
      Residues, FallsShort, Leaves;
    var y := new Word[4](_ => 0);
    ShiftedModulus(m[..], s);
    if Val(m) * Pow2(s) == K {
      ShiftedPower(Val(m), s);
      PowerIs(Val(m), 255 - s);
    }
    Lsh(y, m, s);
    DivUnique(Val(m) * Pow2(s), Weight(4), 0, Val(m) * Pow2(s));
    ValRange(y);
    var r4 := Adjusted(y[0], y[1], y[2], y[3]);
    ValueFive(r4[..]);
    var words := Aligned(r4[..], s);
    ghost var ys, a := y[..], Value(r4[..]);
    AlignedReciprocal(Val(m), s, Val(y), a, Value(words));
    if s < 63 { ShiftedQuotient(a, Pow2(62 - s), Value(words)); }
    assert IsNewton(Val(m), s, Value(words));
    if s == 63 {
      ghost var v := Val(m);
      ghost var r3, r4 := Pow2(383) % v, Pow2(511) % v;
      QuotientAndRest(Pow2(383), v);
      QuotientAndRest(Pow2(511), v);
      ShiftedLeaves(v, Val(y), Pow2(383) / v, r3, Pow2(511) / v, r4);
      ShortfallWords(ys[0], ys[1], ys[2], ys[3], a, Pow2(383) / v, B * r3, Pow2(511) / v, Pow2(63) * r4);
      TwoBelowResidues(v, Val(y), a, Value(words), r3, r4);
    }
    mu := Copied(words);
  }

  lemma ShiftedQuotient(a: nat, p: nat, mu: nat)
    requires mu * p <= a < (mu + 1) * p
    ensures p > 0 && mu == a / p
  {
    if p == 0 { assert false; }
    Distribute(mu, 1, p);
    DivUnique(a, p, mu, a - mu * p);
  }

  method Copied(s: seq<Word>) returns (a: array<Word>)
    ensures fresh(a) && a.Length == |s| && a[..] == s
  {
    a := new Word[|s|](i requires 0 <= i < |s| => s[i]);
  }

  // floor(2^512 / m) for a modulus with a non-zero top word, or at most two less; at most one less
  // unless the top word is one.
  method Reciprocal(m: array<Word>) returns (mu: array<Word>)
    requires IsUint(m)
    ensures fresh(mu) && mu.Length == 5 && (m[3] == 0 ==> mu[..] == [0, 0, 0, 0, 0])
    ensures m[3] != 0 ==> IsBarrettReciprocal(Value(mu[..]), Val(m))
    ensures m[3] > 1 ==> Weight(8) - 2 * Val(m) < Value(mu[..]) * Val(m)
    ensures m[3] != 0 ==> (if IsPowerOfTwo(Val(m)) then Value(mu[..]) == Weight(8) / Val(m) - 1
                           else IsNewton(Val(m), LeadingZeros64(m[3]), Value(mu[..])))
    ensures m[3] == 1 ==> ByResidues(Val(m), Value(mu[..]))
  {
    hide Value, Weight, Pow2, IsBarrettReciprocal, IsNewton, IsPowerOfTwo, LeadingZeros64, ByResidues;
    if m[3] == 0 {
      mu := Copied([0, 0, 0, 0, 0]);
      return;
    }
    var s := LeadingZeros64(m[3]);
    var power, words := PowerOfTwoReciprocal(m);
    if power {
      TopWordNonZero(m[..]);
      PowerMisses(Val(m), Value(words));
      PowerByResidues(Val(m), Value(words));
      mu := Copied(words);
      return;
    }
    ShiftedModulus(m[..], s);
    mu := ByNewton(m, s);
  }

  // ---- the moduli with the top word one ----

  // Twice the candidate is two below floor(2^512 / m) exactly when the candidate is one below
  // floor(2^574 / y).
  lemma TwoBelow(m: nat, y: nat, a: nat, mu: nat)
    requires 0 < m && y == m * Pow2(63) && mu == 2 * a
    requires 0 <= B * (K * K) - Product(a, y) && 2 * (B * (K * K) - Product(a, y)) < 3 * y
    ensures mu == Weight(8) / m - 2 <==> Product(a + 1, y) <= B * (K * K)
  {
    hide Weight, Pow2, Product;
    CandidateScale();
    assert Pow2(63) == 2 * Pow2(62) by { Pow2Add(1, 62); OneBit(); }
    TwoBelowScaled(m, y, a, mu, Pow2(62), Weight(8), B * (K * K));
  }

  lemma QuotientAndRest(x: int, m: int)
    requires 0 < m
    ensures Leaves(x, m, x / m, x % m)
  {
  }

  // A result two below in terms of the modulus alone. Between the last two cases, and where 2^383 leaves
  // very little or almost m, the rounding of the last iterations decides.
  lemma TwoBelowResidues(m: nat, y: nat, c: nat, mu: nat, a: nat, b: nat)
    requires 0 < m && y == m * Pow2(63) && mu == 2 * c
    requires 0 <= B * (K * K) - Product(c, y) && 2 * (B * (K * K) - Product(c, y)) < 3 * y
    requires FallsShort(B * (K * K) - Product(c, y) >= y, B, K, y, B * B, B * a, Pow2(63) * b)
    ensures Residues(mu == Weight(8) / m - 2, m, a, b)
  {
    hide Weight, Pow2, Product, FallsShort;
    Scales();
    TwoBelow(m, y, c, mu);
    OneLess(c + 1, y);
    FactorsOut(mu == Weight(8) / m - 2, Pow2(63), B, Pow2(127), K, y, m, a, b);
  }

  // What is left of 2^447 and 2^574 after dividing by 2y and y, for a modulus shifted by 63 bits.
  lemma ShiftedLeaves(m: nat, y: nat, q3: int, a: nat, q4: int, b: nat)
    requires 0 < m && y == m * Pow2(63) && Leaves(Pow2(383), m, q3, a) && Leaves(Pow2(511), m, q4, b)
    ensures Leaves(B * (B * B) * K, 2 * y, q3, B * a) && Leaves(B * (K * K), y, q4, Pow2(63) * b)
  {
    hide Pow2, Leaves;
    Scales();
    assert 2 * y == B * m by { Associate(2, Pow2(63), m); }
    ScaledLeaves(B, Pow2(383), m, q3, a);
    ScaledLeaves(Pow2(63), Pow2(511), m, q4, b);
  }

  lemma TwoBelowScaled(m: nat, y: nat, a: nat, mu: nat, t: nat, w: nat, p: nat)
    requires 0 < m && 0 < t && y == m * (2 * t) && mu == 2 * a && p == w * t
    requires 0 <= p - Product(a, y) && 2 * (p - Product(a, y)) < 3 * y
    ensures mu == w / m - 2 <==> Product(a + 1, y) <= p
  {
    var q, r := w / m, w % m;
    assert w == q * m + r;
    assert Product(a, y) == (mu * m) * t by { assert a * (m * (2 * t)) == ((2 * a) * m) * t; }
    assert y == (2 * m) * t;
    Distribute(a, 1, y);
    Distribute(mu * m, 2 * m, t);
    Distribute(mu, 2, m);
    AlignedTop(m, y, a, mu, t, w);
    FloorRange(mu, m, w, q, r);
    if mu == q - 2 { MulLe((mu + 2) * m, w, t); }
    if mu > q - 2 {
      MulLe(w + 1, (mu + 2) * m, t) by { MulLe(q + 1, mu + 2, m); Distribute(q, 1, m); }
      Distribute(w, 1, t);
    }
  }

  lemma PowerByResidues(m: nat, mu: nat)
    requires 0 < m < Weight(4) && IsPowerOfTwo(m) && mu == Weight(8) / m - 1
    ensures ByResidues(m, mu)
  {
    hide Weight, Pow2;
    var e: nat :| m == Pow2(e);
    PowerOfTwoWeight(4);
    if e >= 256 { Pow2Mono(256, e); }
    Pow2Add(383 - e, e);
    DivUnique(Pow2(383), m, Pow2(383 - e), 0);
    MulLe(0, Pow2(511) % m, Pow2(255));
    MulLe(0, 3 * Pow2(191), m);
  }

  lemma PowerMisses(m: int, mu: int)
    requires 0 < m && mu == Weight(8) / m - 1
    ensures Weight(8) - 2 * m < mu * m
  {
    hide Weight;
    var q, r := Weight(8) / m, Weight(8) % m;
    assert Weight(8) == q * m + r;
    Distribute(q, 1, m);
  }

  lemma AlignedReciprocal(m: nat, s: nat, y: nat, c: nat, mu: nat)
    requires 0 < m && s < 64 && y == m * Pow2(s) && K < y
    requires 0 <= B * (K * K) - Product(c, y) && 2 * (B * (K * K) - Product(c, y)) < 3 * y
    requires s == 63 && 2 * c < Weight(5) ==> mu == 2 * c
    requires s < 63 ==> mu * Pow2(62 - s) <= c < (mu + 1) * Pow2(62 - s)
    ensures IsBarrettReciprocal(mu, m) && (s < 63 ==> Weight(8) - 2 * m < mu * m)
    ensures s == 63 ==> mu == 2 * c
  {
    hide Weight, Pow2, Product;
    CandidateScale();
    AlignedScaled(m, s, y, c, mu, B, K, Weight(5), Weight(8));
  }

  // The same with b for 2^64 and k for 2^255.
  lemma AlignedScaled(m: nat, s: nat, y: nat, c: nat, mu: nat, b: int, k: int, w5: int, w8: int)
    requires 0 < m && s < 64 && y == m * Pow2(s) && 0 < k < y && 0 < b
    requires b * (k * k) == w8 * Pow2(62) && 2 * (b * k) == w5
    requires 0 <= b * (k * k) - Product(c, y) && 2 * (b * (k * k) - Product(c, y)) < 3 * y
    requires s == 63 && 2 * c < w5 ==> mu == 2 * c
    requires s < 63 ==> mu * Pow2(62 - s) <= c < (mu + 1) * Pow2(62 - s)
    ensures w8 - 3 * m < mu * m <= w8 && (s < 63 ==> w8 - 2 * m < mu * m)
    ensures s == 63 ==> mu == 2 * c
  {
    hide Pow2, Product;
    if s == 63 {
      Pow2Add(1, 62);
      assert Pow2(1) == 2 by { OneBit(); }
      assert y == 2 * (m * Pow2(62)) by { Associate(m, 2, Pow2(62)); }
      HalfRange(c, y, k, b);
      AlignedTop(m, y, c, mu, Pow2(62), w8);
    } else {
      assert y * Pow2(62 - s) == m * Pow2(62) by {
        Pow2Add(s, 62 - s);
        Associate(m, Pow2(s), Pow2(62 - s));
      }
      AlignedBound(m, y, c, mu, Pow2(62 - s), Pow2(62), w8);
    }
  }

  lemma OneBit()
    ensures Pow2(1) == 2
  {
  }

  lemma HalfRange(c: int, y: int, k: int, b: int)
    requires 0 < k < y && 0 < b && Product(c, y) <= b * (k * k)
    ensures c < b * k
  {
    MulBoth(1, b, 1, k);
    MulLe(k + 1, y, b * k);
    assert (b * k) * k == b * (k * k);
    BelowByFactor(y, c, b * k, c * y, (b * k) * y);
  }
}
