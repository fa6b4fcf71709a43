// Two moduli for which the reciprocal is two below floor(2^512 / m): one by evaluating the iterations,
// one by its residues alone.
module ReciprocalGap {
  import opened Arith
  import opened Words
  import opened Limbs
  import opened Bits
  import opened Columns
  import opened Newton
  import opened NewtonWide
  import opened Shortfall
  import opened Shifts
  import opened Uint256
  import opened Reciprocals

  // 2^193 - 2^34.
  const M: nat := 0x1_FFFF_FFFF_FFFF_FFFF_FFFF_FFFF_FFFF_FFFF_FFFF_FFFC_0000_0000

  // M shifted to the left by 63 bits.
  const Y: nat := 0xFFFF_FFFF_FFFF_FFFF_FFFF_FFFF_FFFF_FFFF_FFFF_FFFE_0000_0000_0000_0000_0000_0000

  // The estimates of the second and, halved, of the third iteration, and the candidate.
  const R2: nat := 0x7FFF_FFFF_FFFF_FFFF_FFFF_FFFF_FFFF_FFFA
  const T3: nat := 0x4000_0000_0000_0000_0000_0000_0000_0000_0000_0000_7FFF_FFFF
  const C4: nat := 0x4000_0000_0000_0000_0000_0000_0000_0000_0000_0000_8000_0000_0000_0000_0000_0000_0000_0000_0000_0000

  // A window that holds one multiple of the unit determines the result of a step.
  lemma OnlyMultiple(t: int, v: int, n: int, unit: int, slack: int)
    requires 0 < unit && Truncated(t, n, unit, slack) && unit * v <= n && n + slack <= unit * (v + 1)
    ensures t == v
  {
    if t < v { MulLe(t, v - 1, unit); Distribute(v, 1, unit); }
    if t > v { MulLe(v + 1, t, unit); }
  }

  // The products of the first two iterations, in words.
  lemma FirstProducts()
    ensures Product(Product(0x8000_0000, 0x8000_0000), 0xFFFF_FFFF_FFFF_FFFF)
         == 0xC000_0000_0000_0000 + B * 0x3FFF_FFFF_FFFF_FFFF
    ensures Product(Product(0x8000_0000_0000_0002, 0x8000_0000_0000_0002), 0xFFFF_FFFF_FFFF_FFFF_FFFF_FFFF_FFFF_FFFF)
         == 0xBFFF_FFFF_FFFF_FFFD_FFFF_FFFF_FFFF_FFFC + B * B * 0x4000_0000_0000_0002_0000_0000_0000_0003
  {
  }

  lemma ThirdWords(t: int)
    requires ThirdOf(R2, Y, t)
    ensures t == T3
  {
    var n, unit := StepOf(R2, B * (B * B), Y), B * (B * B) * (B * B);
    OnlyMultiple(t, T3, n, unit, 6 * (B * (B * B)));
  }

  lemma FourthWords(c: int)
    requires FourthOf(T3, Y, c)
    ensures c == C4
  {
    var n, unit := StepOf(2 * T3, B * (B * (B * B)), Y), B * (B * B) * (B * B);
    OnlyMultiple(c, C4, n, unit, 3 * (B * (B * (B * B))));
  }

  lemma NoAdjustment()
    ensures Product(C4, Y) < Product(C4 + 1, Y) <= B * (K * K)
  {
  }

  lemma ShiftedWords(y: seq<Word>)
    requires |y| == 4 && Value(y) == M * Pow2(63)
    ensures y == [0, 0xFFFF_FFFE_0000_0000, 0xFFFF_FFFF_FFFF_FFFF, 0xFFFF_FFFF_FFFF_FFFF]
    ensures Value(y) == Horner(y[0], y[1], y[2], y[3]) == Y
  {
    var w: seq<Word> := [0, 0xFFFF_FFFE_0000_0000, 0xFFFF_FFFF_FFFF_FFFF, 0xFFFF_FFFF_FFFF_FFFF];
    assert Pow2(63) == 0x8000_0000_0000_0000 by { Pow2Word(); }
    assert Value(w) == Y by { ValueFour(w); }
    ValueInjective(y, w);
    ValueFour(y);
  }

  lemma WordsOfM(s: seq<Word>)
    requires s == [0xFFFF_FFFC_0000_0000, 0xFFFF_FFFF_FFFF_FFFF, 0xFFFF_FFFF_FFFF_FFFF, 1]
    ensures Value(s) == M
  {
    ValueFour(s);
  }

  lemma CloseEnough()
    ensures 2 * (B * (K * K) - Product(C4, Y)) < 3 * Y
  {
  }

  // The reciprocal of 2^193 - 2^34 falls short by two.
  method ReciprocalOfM() returns (m: array<Word>, mu: array<Word>)
    ensures fresh(m) && fresh(mu) && IsUint(m) && mu.Length == 5
    ensures Val(m) == M && Value(mu[..]) == Weight(8) / M - 2
  {
    hide Value, Weight, Pow2, Product, Horner, ThirdOf, FourthOf, FirstExact, SecondExact;
    m := new Word[4] [0xFFFF_FFFC_0000_0000, 0xFFFF_FFFF_FFFF_FFFF, 0xFFFF_FFFF_FFFF_FFFF, 1];
    mu := Reciprocal(m);
    WordsOfM(m[..]);
    NotAPower();
    assert LeadingZeros64(1) == 63;
    ghost var v := Value(mu[..]);
    assert IsNewton(M, 63, v);
    ghost var y: seq<Word>, a: nat :|
      |y| == 4 && Value(y) == M * Pow2(63) && IsAdjusted(y[0], y[1], y[2], y[3], a) && v == 2 * a;
    ShiftedWords(y);
    ghost var c: int :| IsCandidate(y[0], y[1], y[2], y[3], c) && a == if Product(c, Y) > B * (K * K) then c - 1 else c;
    ghost var t: int :| ThirdOf(SecondEstimateOf(y[3], y[2]), Y, t) && FourthOf(t, Y, c);
    FirstProducts();
    FirstIsExact(y[3], 0xFFFF_FFFF, 0x8000_0000, 0x3FFF_FFFF_FFFF_FFFF, 0xC000_0000_0000_0000, 0x8000_0000_0000_0002);
    SecondIsExact(0x8000_0000_0000_0002, 0xFFFF_FFFF_FFFF_FFFF_FFFF_FFFF_FFFF_FFFF,
                  0x4000_0000_0000_0002_0000_0000_0000_0003, 0xBFFF_FFFF_FFFF_FFFD_FFFF_FFFF_FFFF_FFFC);
    assert SecondEstimateOf(y[3], y[2]) == R2;
    ThirdWords(t);
    FourthWords(c);
    NoAdjustment();
    CloseEnough();
    TwoBelow(M, Y, a, v);
  }

  // M lies between two powers.
  lemma NotAPower()
    ensures !IsPowerOfTwo(M)
  {
    hide Pow2;
    PowerOfTwoWeight(3);
    ThreeWords();
    Pow2Add(192, 1);
    OneBit();
    if e: nat :| M == Pow2(e) {
      if e <= 192 { Pow2Mono(e, 192); } else { Pow2Mono(193, e); }
    }
  }

  // ---- a modulus whose residues decide ----

  const N: nat := 0x1_C0E0_0000_0000_0000_0E07_0000_0000_0000_0070_3800_0000_0000

  // What 2^383 and 2^511 leave when divided by N.
  const A383: nat := 0x1_B2E1_0000_0000_0000_0D97_0000_0000_0000_006C_B800_0000_0000
  const A511: nat := 0x2_0000_0000_0000_0000_0000_0000

  lemma ResiduesOfN()
    ensures Pow2(383) % N == A383 && Pow2(511) % N == A511
  {
    hide Pow2;
    Scales();
    HighPowers();
    DivUnique(Pow2(383), N, 0x4900_1240_0490_0123_FE00_FF80_3FE0_0FF8_03FE_00FF_803F_E00F, A383);
    DivUnique(Pow2(511), N, 0x4900_1240_0490_0123_FE00_FF80_3FE0_0FF8_03FE_00FF_803F_E00F_F804_9001_2400_4900_1240_0000_0000_0000,
              A511);
  }

  lemma HighPowers()
    ensures Pow2(383) == B * (B * K) && Pow2(511) == 2 * (K * K)
  {
    hide Pow2;
    Scales();
    Pow2Word();
    Pow2Add(64, 64);
    Pow2Add(128, 255);
    Pow2Add(255, 255);
    SmallPowers();
    Pow2Add(1, 510);
  }

  // The residues force the shortfall.
  lemma ForcedAtN(mu: nat)
    requires ByResidues(N, mu)
    ensures mu == Weight(8) / N - 2
  {
    hide Weight, Pow2;
    ResiduesOfN();
    Scales();
  }

  method ReciprocalOfN() returns (m: array<Word>, mu: array<Word>)
    ensures fresh(m) && fresh(mu) && IsUint(m) && mu.Length == 5
    ensures Val(m) == N && Value(mu[..]) == Weight(8) / N - 2
  {
    hide Value, Weight, Pow2, ByResidues, IsNewton;
    m := new Word[4] [0x70_3800_0000_0000, 0xE07_0000_0000_0000, 0xC0E0_0000_0000_0000, 0x1];
    mu := Reciprocal(m);
    WordsOfN(m[..]);
    ForcedAtN(Value(mu[..]));
  }

  lemma WordsOfN(s: seq<Word>)
    requires s == [0x70_3800_0000_0000, 0xE07_0000_0000_0000, 0xC0E0_0000_0000_0000, 0x1]
    ensures Value(s) == N
  {
    ValueFour(s);
  }
}
