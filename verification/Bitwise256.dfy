// Bitwise operators and whole-number shifts of 256-bit numbers.
module Bitwise256 {
  import opened Arith
  import opened Words
  import opened Limbs
  import opened Bits
  import opened Shifts
  import opened Uint256

  // One gate applied to the four words is the gate applied to the numbers.
  lemma FourGates(g: Gate, x: seq<Word>, y: seq<Word>, r: seq<Word>)
    requires |x| == |y| == |r| == 4
    requires forall k :: 0 <= k < 4 ==> r[k] == Bitwise(g, 64, x[k], y[k])
    ensures Value(r) == Bitwise(g, 256, Value(x), Value(y))
  {
    hide Value, Weight, Bitwise;
    GateCons(g, x, y, r, 192);
    GateCons(g, x[1..], y[1..], r[1..], 128);
    GateCons(g, x[2..], y[2..], r[2..], 64);
    GateCons(g, x[3..], y[3..], r[3..], 0);
    assert x[1..][1..] == x[2..] && y[1..][1..] == y[2..] && r[1..][1..] == r[2..];
    assert x[2..][1..] == x[3..] && y[2..][1..] == y[3..] && r[2..][1..] == r[3..];
    assert x[3..][1..] == [] && y[3..][1..] == [] && r[3..][1..] == [];
    NoWords(g);
  }

  lemma NoWords(g: Gate)
    ensures Value([]) == 0 && Bitwise(g, 0, 0, 0) == 0
  {
  }

  lemma GateCons(g: Gate, x: seq<Word>, y: seq<Word>, r: seq<Word>, n: nat)
    requires |x| == |y| == |r| > 0 && r[0] == Bitwise(g, 64, x[0], y[0])
    ensures Bitwise(g, 64 + n, Value(x), Value(y)) == r[0] + B * Bitwise(g, n, Value(x[1..]), Value(y[1..]))
    ensures Value(r) == r[0] + B * Value(r[1..])
  {
    hide Bitwise, Pow2;
    Pow2Word();
    BitwiseConcat(g, 64, n, x[0], Value(x[1..]), y[0], Value(y[1..]));
  }

  method OrInto(z: array<Word>, x: array<Word>, y: array<Word>)
    requires IsUint(z) && IsUint(x) && IsUint(y)
    modifies z
    ensures Val(z) == Bitwise(OrGate, 256, old(Val(x)), old(Val(y)))
  {
    hide Value, Bitwise;
    ghost var xs, ys := x[..], y[..];
    z[0] := Or(x[0], y[0]);
    z[1] := Or(x[1], y[1]);
    z[2] := Or(x[2], y[2]);
    z[3] := Or(x[3], y[3]);
    FourGates(OrGate, xs, ys, z[..]);
  }

  method AndInto(z: array<Word>, x: array<Word>, y: array<Word>)
    requires IsUint(z) && IsUint(x) && IsUint(y)
    modifies z
    ensures Val(z) == Bitwise(AndGate, 256, old(Val(x)), old(Val(y)))
  {
    hide Value, Bitwise;
    ghost var xs, ys := x[..], y[..];
    z[0] := And(x[0], y[0]);
    z[1] := And(x[1], y[1]);
    z[2] := And(x[2], y[2]);
    z[3] := And(x[3], y[3]);
    FourGates(AndGate, xs, ys, z[..]);
  }

  method AndNotInto(z: array<Word>, x: array<Word>, y: array<Word>)
    requires IsUint(z) && IsUint(x) && IsUint(y)
    modifies z
    ensures Val(z) == Bitwise(AndNotGate, 256, old(Val(x)), old(Val(y)))
  {
    hide Value, Bitwise;
    ghost var xs, ys := x[..], y[..];
    z[0] := AndNot(x[0], y[0]);
    z[1] := AndNot(x[1], y[1]);
    z[2] := AndNot(x[2], y[2]);
    z[3] := AndNot(x[3], y[3]);
    FourGates(AndNotGate, xs, ys, z[..]);
  }

  // z = x << 64 * k, dropping k words at the top.
  method ShlWords(z: array<Word>, x: array<Word>, k: nat)
    requires IsUint(z) && IsUint(x) && k <= 3
    modifies z
    ensures forall i :: 0 <= i < 4 ==> z[i] == if i < k then 0 else old(x[i - k])
  {
    if k == 0 {
      z[3], z[2], z[1], z[0] := x[3], x[2], x[1], x[0];
    } else if k == 1 {
      z[3], z[2], z[1], z[0] := x[2], x[1], x[0], 0;
    } else if k == 2 {
      z[3], z[2], z[1], z[0] := x[1], x[0], 0, 0;
    } else {
      z[3], z[2], z[1], z[0] := x[0], 0, 0, 0;
    }
  }

  method ShrWords(z: array<Word>, x: array<Word>, k: nat)
    requires IsUint(z) && IsUint(x) && k <= 3
    modifies z
    ensures forall i :: 0 <= i < 4 ==> z[i] == if i + k > 3 then 0 else old(x[i + k])
  {
    if k == 0 {
      z[3], z[2], z[1], z[0] := x[3], x[2], x[1], x[0];
    } else if k == 1 {
      z[3], z[2], z[1], z[0] := 0, x[3], x[2], x[1];
    } else if k == 2 {
      z[3], z[2], z[1], z[0] := 0, 0, x[3], x[2];
    } else {
      z[3], z[2], z[1], z[0] := 0, 0, 0, x[3];
    }
  }

  // The left shift: whole words first, then the rest from the lowest word that can be non-zero.
  method Lsh(z: array<Word>, x: array<Word>, n: nat)
    requires IsUint(z) && IsUint(x)
    modifies z
    ensures Val(z) == old(Val(x)) * Pow2(n) % Weight(4)
  {
    hide Value, Weight, Pow2, Shl, Shr, Or, ShlWord;
    ghost var xs := x[..];
    var zero := IsZero(x);
    if zero {
      SetUint64(z, 0);
      ShiftedOut(Value(xs), n);
      return;
    }
    if n % 64 == 0 {
      if n <= 192 {
        ShlWords(z, x, n / 64);
        ShlWordsValue(xs, z[..], n / 64);
      } else {
        SetUint64(z, 0);
        ShiftedOut(Value(xs), n);
      }
      return;
    }
    var k := if n > 192 then 3 else if n > 128 then 2 else if n > 64 then 1 else 0;
    var s := n - 64 * k;
    ShlWords(z, x, k);
    ghost var moved := z[..];
    var a, b := 0, 0;
    if k == 0 {
      a := Shr(z[0], 64 - s);
      z[0] := Shl(z[0], s);
    }
    if k <= 1 {
      b := Shr(z[1], 64 - s);
      z[1] := Or(Shl(z[1], s), a);
    }
    if k <= 2 {
      a := Shr(z[2], 64 - s);
      z[2] := Or(Shl(z[2], s), b);
    }
    z[3] := Or(Shl(z[3], s), a);
    if s < 64 {
      NothingShifted(s);
      assert ShiftedUp(moved, z[..], s) by { Ladder(moved, z[..], k, s); }
      ShlTotal(xs, moved, z[..], k, s);
    } else {
      NothingLeft(z[3], moved[3], s);
      ValueZeros(z[..]);
      ShiftedOut(Value(xs), n);
    }
  }

  // Nothing is left of a shift by 256 or more, or of zero.
  lemma ShiftedOut(x: nat, n: nat)
    requires n >= 256 || x == 0
    ensures x * Pow2(n) % Weight(4) == 0
  {
    hide Weight, Pow2;
    if n >= 256 {
      PowerOfTwoWeight(4);
      Pow2Add(256, n - 256);
      Associate(x, Pow2(n - 256), Weight(4));
      DivUnique(x * Pow2(n), Weight(4), x * Pow2(n - 256), 0);
    } else {
      DivUnique(0, Weight(4), 0, 0);
    }
  }

  lemma NothingShifted(s: nat)
    requires s < 64
    ensures Shl(0, s) == 0 && Shr(0, 64 - s) == 0 && ShlWord(0, 0, s) == 0
  {
    assert 0 * Pow2(s) == 0;
    DivUnique(0, Pow2(64 - s), 0, 0);
    OrIsZero(0, 0);
  }

  lemma NothingLeft(r: Word, x: Word, s: nat)
    requires s >= 64 && r == Or(Shl(x, s), 0)
    ensures r == 0
  {
    hide Pow2;
    Pow2Add(64, s - 64);
    Pow2Word();
    Associate(x, Pow2(s - 64), B);
    DivUnique(x * Pow2(s), B, x * Pow2(s - 64), 0);
    OrIsZero(0, 0);
  }

  // The ladder entered at word k, everything below it being zero.
  lemma Ladder(moved: seq<Word>, r: seq<Word>, k: nat, s: nat)
    requires |moved| == |r| == 4 && k <= 3 && s < 64
    requires forall i :: 0 <= i < k ==> moved[i] == 0 && r[i] == 0
    requires Shl(0, s) == 0 && Shr(0, 64 - s) == 0 && ShlWord(0, 0, s) == 0
    requires k == 0 ==> r[0] == Shl(moved[0], s)
    requires k > 0 ==> r[k] == Or(Shl(moved[k], s), 0)
    requires forall i :: k < i < 4 ==> r[i] == Or(Shl(moved[i], s), Shr(moved[i - 1], 64 - s))
    ensures ShiftedUp(moved, r, s)
  {
    hide Shl, Shr, Or;
  }

  lemma ShlWordsValue(x: seq<Word>, moved: seq<Word>, k: nat)
    requires |x| == |moved| == 4 && k <= 3
    requires forall i :: 0 <= i < 4 ==> moved[i] == if i < k then 0 else x[i - k]
    ensures Value(moved) == Value(x) * Pow2(64 * k) % Weight(4)
    ensures Value(x) * Weight(k) == Value(moved) + Weight(4) * Value(x[4 - k..])
  {
    hide Value, Weight, Pow2;
    ValueSplit(x, 4 - k);
    assert moved == moved[..k] + x[..4 - k];
    ValueConcat(moved[..k], x[..4 - k]);
    ValueZeros(moved[..k]);
    PowAddWeights(4 - k, k);
    ValueBound(moved);
    PowerOfTwoWeight(k);
    Distribute(Value(x[..4 - k]), Weight(4 - k) * Value(x[4 - k..]), Weight(k));
    Regrouped(Weight(4 - k), Value(x[4 - k..]), Weight(k));
    DivUnique(Value(x) * Weight(k), Weight(4), Value(x[4 - k..]), Value(moved));
  }

  lemma Regrouped(a: int, b: int, c: int)
    ensures (a * b) * c == (a * c) * b
  {
  }

  lemma PowAddWeights(m: nat, n: nat)
    ensures Weight(m + n) == Weight(m) * Weight(n)
  {
    PowAdd(B, m, n);
  }

  lemma ShlTotal(x: seq<Word>, moved: seq<Word>, r: seq<Word>, k: nat, s: nat)
    requires |x| == |moved| == |r| == 4 && k <= 3 && s < 64
    requires forall i :: 0 <= i < 4 ==> moved[i] == if i < k then 0 else x[i - k]
    requires ShiftedUp(moved, r, s)
    ensures Value(r) == Value(x) * Pow2(64 * k + s) % Weight(4)
  {
    hide Value, Weight, Pow2, Shr, ShiftedUp;
    ShlWordsValue(x, moved, k);
    ShiftedUpValue(moved, r, s);
    ValueBound(r);
    PowerOfTwoWeight(k);
    Pow2Add(64 * k, s);
    ShlArithmetic(Value(x), Weight(k), Value(moved), Weight(4), Value(x[4 - k..]), Pow2(s), Value(r), Shr(moved[3], 64 - s));
    DivUnique(Value(x) * Pow2(64 * k + s), Weight(4), Value(x[4 - k..]) * Pow2(s) + Shr(moved[3], 64 - s), Value(r));
  }

  lemma ShlArithmetic(x: int, wk: int, m: int, w4: int, h: int, p: int, r: int, c: int)
    requires x * wk == m + w4 * h && r + w4 * c == m * p
    ensures x * (wk * p) == (h * p + c) * w4 + r
  {
    assert (x * wk) * p == (m + w4 * h) * p;
  }

  // The right shift, entered at the highest word that can be non-zero.
  method Rsh(z: array<Word>, x: array<Word>, n: nat)
    requires IsUint(z) && IsUint(x)
    modifies z
    ensures Val(z) == old(Val(x)) / Pow2(n)
  {
    hide Value, Weight, Pow2, Shl, Shr, Or, ShrWord;
    ghost var xs := x[..];
    if n % 64 == 0 {
      if n <= 192 {
        ShrWords(z, x, n / 64);
        ShrWordsValue(xs, z[..], n / 64);
      } else {
        SetUint64(z, 0);
        AllShiftedOut(xs, n);
      }
      return;
    }
    if n > 256 {
      SetUint64(z, 0);
      AllShiftedOut(xs, n);
      return;
    }
    var k := if n > 192 then 3 else if n > 128 then 2 else if n > 64 then 1 else 0;
    var s := n - 64 * k;
    ShrWords(z, x, k);
    ghost var moved := z[..];
    var a, b := 0, 0;
    if k == 0 {
      a := Shl(z[3], 64 - s);
      z[3] := Shr(z[3], s);
    }
    if k <= 1 {
      b := Shl(z[2], 64 - s);
      z[2] := Or(Shr(z[2], s), a);
    }
    if k <= 2 {
      a := Shl(z[1], 64 - s);
      z[1] := Or(Shr(z[1], s), b);
    }
    z[0] := Or(Shr(z[0], s), a);
    NothingShiftedDown(s);
    assert ShiftedDown(moved, z[..], s) by { LadderDown(moved, z[..], k, s); }
    ShrTotal(xs, moved, z[..], k, s);
  }

  lemma NothingShiftedDown(s: nat)
    requires s < 64
    ensures Shr(0, s) == 0 && Shl(0, 64 - s) == 0 && ShrWord(0, 0, s) == 0
  {
    assert 0 * Pow2(64 - s) == 0;
    DivUnique(0, Pow2(s), 0, 0);
    OrIsZero(0, 0);
  }

  lemma LadderDown(moved: seq<Word>, r: seq<Word>, k: nat, s: nat)
    requires |moved| == |r| == 4 && k <= 3 && s < 64
    requires forall i :: 3 - k < i < 4 ==> moved[i] == 0 && r[i] == 0
    requires Shr(0, s) == 0 && Shl(0, 64 - s) == 0 && ShrWord(0, 0, s) == 0
    requires k == 0 ==> r[3] == Shr(moved[3], s)
    requires k > 0 ==> r[3 - k] == Or(Shr(moved[3 - k], s), 0)
    requires forall i :: 0 <= i < 3 - k ==> r[i] == Or(Shr(moved[i], s), Shl(moved[i + 1], 64 - s))
    ensures ShiftedDown(moved, r, s)
  {
    hide Shl, Shr, Or;
  }

  lemma ShrWordsValue(x: seq<Word>, moved: seq<Word>, k: nat)
    requires |x| == |moved| == 4 && k <= 3
    requires forall i :: 0 <= i < 4 ==> moved[i] == if i + k > 3 then 0 else x[i + k]
    ensures Value(moved) == Value(x) / Pow2(64 * k)
    ensures Value(x) == Value(moved) * Weight(k) + Value(x[..k]) && Value(x[..k]) < Weight(k)
  {
    hide Value, Weight, Pow2;
    ValueSplit(x, k);
    ValuePadded(moved, 4 - k);
    assert moved[..4 - k] == x[k..];
    ValueBound(x[..k]);
    PowerOfTwoWeight(k);
    DivUnique(Value(x), Weight(k), Value(moved), Value(x[..k]));
  }

  lemma AllShiftedOut(x: seq<Word>, n: nat)
    requires |x| == 4 && n >= 256
    ensures Value(x) / Pow2(n) == 0
  {
    hide Value, Weight, Pow2;
    ValueBound(x);
    PowerOfTwoWeight(4);
    Pow2Mono(256, n);
    DivUnique(Value(x), Pow2(n), 0, Value(x));
  }

  lemma ShrTotal(x: seq<Word>, moved: seq<Word>, r: seq<Word>, k: nat, s: nat)
    requires |x| == |moved| == |r| == 4 && k <= 3 && s < 64
    requires forall i :: 0 <= i < 4 ==> moved[i] == if i + k > 3 then 0 else x[i + k]
    requires ShiftedDown(moved, r, s)
    ensures Value(r) == Value(x) / Pow2(64 * k + s)
  {
    hide Value, Weight, Pow2, ShiftedDown;
    ShrWordsValue(x, moved, k);
    ShiftedDownValue(moved, r, s);
    PowerOfTwoWeight(k);
    Pow2Add(64 * k, s);
    ShrArithmetic(Value(x), Weight(k), Value(moved), Value(x[..k]), Pow2(s), Value(r), moved[0] % Pow2(s));
  }

  lemma ShrArithmetic(x: nat, wk: nat, m: nat, l: nat, p: nat, r: nat, e: nat)
    requires 0 < wk && 0 < p && x == m * wk + l && l < wk && r * p + e == m && e < p
    ensures 0 < wk * p && x / (wk * p) == r
  {
    MulLe(1, wk, p);
    MulLe(e, p - 1, wk);
    Distribute(p, 1, wk);
    assert m * wk == (r * p + e) * wk;
    assert (r * p + e) * wk == r * (wk * p) + e * wk;
    DivUnique(x, wk * p, r, e * wk + l);
  }

  // ---- the arithmetic right shift ----

  // The words moved down by k, with all ones above them.
  method ShrOnes(z: array<Word>, x: array<Word>, k: nat)
    requires IsUint(z) && IsUint(x) && k <= 3
    modifies z
    ensures forall i :: 0 <= i < 4 ==> z[i] == if i + k > 3 then B - 1 else old(x[i + k])
  {
    if k == 0 {
      z[3], z[2], z[1], z[0] := x[3], x[2], x[1], x[0];
    } else if k == 1 {
      z[3], z[2], z[1], z[0] := B - 1, x[3], x[2], x[1];
    } else if k == 2 {
      z[3], z[2], z[1], z[0] := B - 1, B - 1, x[3], x[2];
    } else {
      z[3], z[2], z[1], z[0] := B - 1, B - 1, B - 1, x[3];
    }
  }

  // The top bit is the sign.
  method IsTopBitSet(x: array<Word>) returns (r: bool)
    requires IsUint(x)
    ensures r <==> 2 * Val(x) >= Weight(4)
  {
    hide Value, Weight, Pow2, Bitwise;
    r := And(x[3], Shl(1, 63)) != 0;
    TopBit(x[3]);
    assert x[..] == x[..3] + [x[3]];
    ValueSnoc(x[..3], x[3]);
    ValueBound(x[..3]);
    TopHalves(Val(x), Value(x[..3]), Weight(3), x[3]);
  }

  lemma TopHalves(v: int, low: int, w3: int, x: int)
    requires 0 <= low < w3 && v == low + w3 * x && w3 == Weight(3)
    ensures 2 * v >= Weight(4) <==> x >= 0x8000_0000_0000_0000
  {
    assert Weight(4) == B * w3;
    if x >= 0x8000_0000_0000_0000 { MulLe(0x8000_0000_0000_0000, x, w3); } else { MulLe(x + 1, 0x8000_0000_0000_0000, w3); }
  }

  lemma TopBit(x: Word)
    ensures And(x, Shl(1, 63)) != 0 <==> x >= 0x8000_0000_0000_0000
  {
    hide Pow2;
    Pow2Word();
    DivUnique(Pow2(63), B, 0, Pow2(63));
    var h: nat, l: nat := x / Pow2(63), x % Pow2(63);
    assert x == l + Pow2(63) * h;
    if x >= Pow2(63) { DivUnique(x, Pow2(63), 1, x - Pow2(63)); } else { DivUnique(x, Pow2(63), 0, x); }
    BitwiseConcat(AndGate, 63, 1, l, h, 0, 1);
    BitwiseAndZero(63, l);
    assert Bitwise(AndGate, 1, h, 1) == h by { OneBitAnd(h); }
  }

  lemma OneBitAnd(h: nat)
    requires h <= 1
    ensures Bitwise(AndGate, 1, h, 1) == h
  {
  }

  // floor((x - 2^256) / d) + 2^256: the quotient of a number read as negative, in two's complement.
  function SignedQuotient(x: int, d: int, w: int): int
    requires d > 0
  {
    (x - w) / d + w
  }

  // The arithmetic right shift of a number read as two's complement.
  method SRsh(z: array<Word>, x: array<Word>, n: nat)
    requires IsUint(z) && IsUint(x)
    modifies z
    ensures Val(z) == if 2 * old(Val(x)) < Weight(4) then old(Val(x)) / Pow2(n)
                      else SignedQuotient(old(Val(x)), Pow2(n), Weight(4))
  {
    hide Value, Weight, Pow2, Shl, Shr, Or, ShrWord;
    ghost var xs := x[..];
    var negative := IsTopBitSet(x);
    if !negative {
      Rsh(z, x, n);
      return;
    }
    if n % 64 == 0 {
      if n <= 192 {
        ShrOnes(z, x, n / 64);
        OnesMoved(xs, z[..], n / 64);
      } else {
        SetAllOne(z);
        OnlyOnes(xs, z[..], n);
      }
      return;
    }
    var a := Shl(B - 1, 64 - n % 64);
    if n > 256 {
      SetAllOne(z);
      OnlyOnes(xs, z[..], n);
      return;
    }
    var k := if n > 192 then 3 else if n > 128 then 2 else if n > 64 then 1 else 0;
    var s := n - 64 * k;
    assert s == n % 64;
    ShrOnes(z, x, k);
    ghost var moved := z[..];
    if k == 0 {
      z[3], a := Or(Shr(z[3], s), a), Shl(z[3], 64 - s);
    }
    if k <= 1 {
      z[2], a := Or(Shr(z[2], s), a), Shl(z[2], 64 - s);
    }
    if k <= 2 {
      z[1], a := Or(Shr(z[1], s), a), Shl(z[1], 64 - s);
    }
    z[0] := Or(Shr(z[0], s), a);
    OnesLadder(moved, z[..], k, s);
    OnesTotal(xs, moved, z[..], k, s);
  }

  method SetAllOne(z: array<Word>)
    requires IsUint(z)
    modifies z
    ensures forall i :: 0 <= i < 4 ==> z[i] == B - 1
  {
    z[3], z[2], z[1], z[0] := B - 1, B - 1, B - 1, B - 1;
  }

  lemma {:induction false} ValueOnes(s: seq<Word>)
    requires forall i :: 0 <= i < |s| ==> s[i] == B - 1
    ensures Value(s) == Weight(|s|) - 1
  {
    if |s| > 0 {
      ValueOnes(s[1..]);
      Associate(B, Weight(|s| - 1), 1);
    }
  }

  // Whole words moved down under ones: the remainder of the division is in the words dropped.
  lemma OnesMoved(x: seq<Word>, moved: seq<Word>, k: nat)
    requires |x| == |moved| == 4 && k <= 3
    requires forall i :: 0 <= i < 4 ==> moved[i] == if i + k > 3 then B - 1 else x[i + k]
    ensures Value(x) - Weight(4) == (Value(moved) - Weight(4)) * Weight(k) + Value(x[..k]) && Value(x[..k]) < Weight(k)
    ensures Value(moved) == SignedQuotient(Value(x), Pow2(64 * k), Weight(4))
  {
    hide Value, Weight, Pow2;
    ValueSplit(x, k);
    ValueSplit(moved, 4 - k);
    assert moved[..4 - k] == x[k..];
    ValueOnes(moved[4 - k..]);
    ValueBound(x[..k]);
    PowerOfTwoWeight(k);
    PowAddWeights(4 - k, k);
    OnesUnder(Value(x), Value(x[..k]), Value(x[k..]), Value(moved), Weight(k), Weight(4 - k), Weight(4));
  }

  lemma OnesUnder(x: int, low: int, high: int, moved: int, wk: int, top: int, w4: int)
    requires 0 < wk && x == low + wk * high && moved == high + top * (wk - 1) && w4 == top * wk && 0 <= low < wk
    ensures x - w4 == (moved - w4) * wk + low && (x - w4) / wk == moved - w4
  {
    assert moved - w4 == high - top by { assert top * (wk - 1) == top * wk - top; }
    Distribute(high, top, wk);
    DivUnique(x - w4, wk, moved - w4, low);
  }

  lemma OnlyOnes(x: seq<Word>, r: seq<Word>, n: nat)
    requires |x| == |r| == 4 && n >= 256 && forall i :: 0 <= i < 4 ==> r[i] == B - 1
    ensures Value(r) == SignedQuotient(Value(x), Pow2(n), Weight(4))
  {
    hide Value, Weight, Pow2;
    ValueOnes(r);
    ValueBound(x);
    PowerOfTwoWeight(4);
    Pow2Mono(256, n);
    DivUnique(Value(x) - Weight(4), Pow2(n), -1, Value(x) - Weight(4) + Pow2(n));
  }

  lemma ShiftedOnesWord(s: nat)
    requires 0 < s < 64
    ensures Shr(B - 1, s) * Pow2(s) + Pow2(s) - 1 == B - 1
    ensures ShrWord(B - 1, B - 1, s) == B - 1
  {
    hide Pow2;
    var p, q := Pow2(s), Pow2(64 - s);
    Pow2Complement(s);
    Distribute(q, 1, p);
    DivUnique(B - 1, p, q - 1, p - 1);
    ShrWordSum(B - 1, B - 1, s);
    Distribute(B, 1, q);
    MulLe(1, p, q);
    DivUnique((B - 1) * q, B, q - 1, B - q);
  }

  // The ladder with a word of ones above the four.
  lemma OnesLadder(moved: seq<Word>, r: seq<Word>, k: nat, s: nat)
    requires |moved| == |r| == 4 && k <= 3 && 0 < s < 64
    requires forall i :: 3 - k < i < 4 ==> moved[i] == r[i] == B - 1
    requires r[3 - k] == Or(Shr(moved[3 - k], s), Shl(B - 1, 64 - s))
    requires forall i :: 0 <= i < 3 - k ==> r[i] == Or(Shr(moved[i], s), Shl(moved[i + 1], 64 - s))
    ensures ShiftedDown(moved + [B - 1], r + [Shr(B - 1, s)], s)
  {
    hide Shl, Shr, Or;
    assert Or(Shr(B - 1, s), Shl(B - 1, 64 - s)) == B - 1 by { ShiftedOnesWord(s); }
  }

  lemma OnesTotal(x: seq<Word>, moved: seq<Word>, r: seq<Word>, k: nat, s: nat)
    requires |x| == |moved| == |r| == 4 && k <= 3 && 0 < s < 64
    requires forall i :: 0 <= i < 4 ==> moved[i] == if i + k > 3 then B - 1 else x[i + k]
    requires ShiftedDown(moved + [B - 1], r + [Shr(B - 1, s)], s)
    ensures Value(r) == SignedQuotient(Value(x), Pow2(64 * k + s), Weight(4))
  {
    hide Value, Weight, Pow2, ShiftedDown, Shr, ShrWord;
    var p, e, h, w4 := Pow2(s), moved[0] % Pow2(s), Shr(B - 1, s), Weight(4);
    OnesMoved(x, moved, k);
    ShiftedDownValue(moved + [B - 1], r + [h], s);
    ValueSnoc(moved, B - 1);
    ValueSnoc(r, h);
    ShiftedOnesWord(s);
    assert (Value(r) - w4) * p + e == Value(moved) - w4 by { OnesAbove(Value(r), h, p, e, Value(moved), w4); }
    PowerOfTwoWeight(k);
    Pow2Add(64 * k, s);
    SignedShift(Value(x) - w4, Weight(k), Value(moved) - w4, Value(x[..k]), p, Value(r) - w4, e);
  }

  lemma OnesAbove(r: int, h: int, p: int, e: int, m: int, w4: int)
    requires (r + w4 * h) * p + e == m + w4 * (B - 1) && h * p + p - 1 == B - 1
    ensures (r - w4) * p + e == m - w4
  {
    assert (r + w4 * h) * p == r * p + w4 * (h * p);
    assert w4 * (h * p) == w4 * (B - p);
    Distribute(r, w4, p);
  }

  lemma SignedShift(x: int, wk: int, m: int, l: int, p: int, r: int, e: int)
    requires 0 < wk && 0 < p && x == m * wk + l && 0 <= l < wk && r * p + e == m && 0 <= e < p
    ensures 0 < wk * p && x / (wk * p) == r
  {
    MulLe(1, wk, p);
    MulLe(e, p - 1, wk);
    MulLe(0, e, wk);
    Distribute(p, 1, wk);
    assert m * wk == (r * p + e) * wk;
    assert (r * p + e) * wk == r * (wk * p) + e * wk;
    DivUnique(x, wk * p, r, e * wk + l);
  }
}
