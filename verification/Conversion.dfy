// Printing a 256-bit number in decimal and parsing it back.
module Conversion {
  import opened Arith
  import opened Words
  import opened Limbs
  import opened LongDivision
  import opened Multiply
  import opened Uint256
  import opened Decimals

  const TEN19: int := 10_000_000_000_000_000_000

  lemma PowersOfTen()
    ensures Pow10(19) == TEN19
    ensures Pow10(38) == TEN19 * TEN19 && Pow10(57) == TEN19 * (TEN19 * TEN19)
    ensures Pow10(76) == TEN19 * (TEN19 * (TEN19 * TEN19)) && Pow10(78) == 100 * Pow10(76)
  {
    assert Pow10(4) == 10_000;
    assert Pow10(8) == 100_000_000 by { PowAdd(10, 4, 4); }
    assert Pow10(16) == 10_000_000_000_000_000 by { PowAdd(10, 8, 8); }
    assert Pow10(3) == 1000;
    assert Pow10(19) == TEN19 by { PowAdd(10, 16, 3); }
    PowAdd(10, 19, 19);
    PowAdd(10, 19, 38);
    PowAdd(10, 19, 57);
    assert Pow10(2) == 100;
    PowAdd(10, 2, 76);
  }

  lemma MaxDigits()
    ensures Pow10(77) < Weight(4) < Pow10(78)
  {
    PowersOfTen();
    WeightFour();
    assert Pow10(78) == 10 * Pow10(77);
  }

  // The text is written right to left in blocks of 19 digits into a buffer of zeros.
  method Dec(z: array<Word>) returns (text: string)
    requires IsUint(z)
    ensures text == Decimal(Val(z))
  {
    hide Value, Weight, Decimal, Pow10, SigLen;
    var zero := IsZero(z);
    if zero {
      DecimalZero();
      return "0";
    }
    var small := IsUint64(z);
    if small {
      return Decimal(z[0]);
    }
    var out := new char[98](_ => '0');
    var divisor := NewUint(TEN19);
    var y := FourWords(z, 0);
    assert z[..][0..4] == z[..];
    var pos := 98;
    ghost var zv := Val(z);
    ValRange(z);
    MaxDigits();
    PowersOfTen();
    var buf := "";
    assert out[98..] == [];
    DecimalZero();
    while true
      invariant IsUint(y) && Val(y) > 0 && fresh(out) && fresh(y) && fresh(divisor)
      invariant IsUint(divisor) && Val(divisor) == TEN19
      invariant 0 <= pos <= 98 && out.Length == 98
      invariant forall k :: 0 <= k < pos ==> out[k] == '0'
      invariant Val(y) * Pow10(98 - pos) <= zv
      invariant Decimal(zv) == Decimal(Val(y)) + out[pos..]
      decreases Val(y)
    {
      PositionBound(Val(y), 98 - pos, zv);
      ghost var yv := Val(y);
      var r;
      y, r := DivideBlock(y, divisor);
      ghost var q := Val(y);
      buf := Decimal(r);
      DecimalLength(r, 19);
      ghost var written := out[pos..];
      WriteBlock(out, pos, buf);
      var done := IsZero(y);
      if done { break; }
      QuotientShrinks(yv, q, r, 98 - pos, zv);
      NextBlock(out[..], pos, yv, q, r, written, zv);
      pos := pos - 19;
    }
    text := out[pos - |buf|..];
  }

  // One step to the left: the quotient goes on, the remainder is the block to print.
  method DivideBlock(y: array<Word>, divisor: array<Word>) returns (quot: array<Word>, r: Word)
    requires IsUint(y) && IsUint(divisor) && Val(divisor) == TEN19
    ensures fresh(quot) && IsUint(quot)
    ensures Val(y) == Val(quot) * TEN19 + r && r < TEN19
  {
    hide Value, SigLen;
    quot := new Word[4](_ => 0);
    NonZeroHasWords(divisor[..]);
    var rem := UDivRem(quot, y, divisor);
    LowWord(rem[..]);
    r := rem[0];
  }

  // copy(out[pos-len(buf):], buf)
  method WriteBlock(out: array<char>, pos: nat, buf: string)
    requires |buf| <= pos <= out.Length
    requires forall k :: 0 <= k < pos ==> out[k] == '0'
    modifies out
    ensures out[pos - |buf|..] == buf + old(out[pos..])
    ensures forall k :: 0 <= k < pos - |buf| ==> out[k] == '0'
  {
    forall k | 0 <= k < |buf| {
      out[pos - |buf| + k] := buf[k];
    }
    assert out[pos..] == old(out[pos..]);
    assert out[pos - |buf|..pos] == buf;
    assert out[pos - |buf|..] == out[pos - |buf|..pos] + out[pos..];
  }

  // A whole block of 19 digits is there, the leading zeros being the buffer's own.
  lemma BlockPadded(out: string, pos: nat, r: nat, written: string)
    requires 19 <= pos <= |out| && |Decimal(r)| <= 19
    requires out[pos - |Decimal(r)|..] == Decimal(r) + written
    requires forall k :: 0 <= k < pos - |Decimal(r)| ==> out[k] == '0'
    ensures out[pos - 19..] == Padded(r, 19) + written
  {
    hide Decimal;
    var n := |Decimal(r)|;
    assert out[pos - 19..] == out[pos - 19..pos - n] + out[pos - n..];
    assert out[pos - 19..pos - n] == Zeros(19 - n);
  }

  lemma NextBlock(out: string, pos: nat, y: nat, q: nat, r: nat, written: string, z: nat)
    requires 19 <= pos <= |out| && |Decimal(r)| <= 19
    requires out[pos - |Decimal(r)|..] == Decimal(r) + written
    requires forall k :: 0 <= k < pos - |Decimal(r)| ==> out[k] == '0'
    requires y == q * TEN19 + r && r < TEN19 && q > 0
    requires Decimal(z) == Decimal(y) + written
    ensures Decimal(z) == Decimal(q) + out[pos - 19..]
  {
    hide Decimal, Pow10;
    PowersOfTen();
    DecimalSplit(q, r, 19);
    BlockPadded(out, pos, r, written);
    assert Decimal(q) + (Padded(r, 19) + written) == (Decimal(q) + Padded(r, 19)) + written;
  }

  lemma DecimalZero()
    ensures Decimal(0) == "0" && Pow10(0) == 1
  {
  }

  lemma PositionBound(y: nat, n: nat, z: nat)
    requires y > 0 && y * Pow10(n) <= z < Weight(4)
    ensures n < 78
  {
    MaxDigits();
    MulLe(1, y, Pow10(n));
    if n >= 78 { PowMono(10, 78, n); }
  }

  lemma QuotientShrinks(y: nat, q: nat, r: nat, n: nat, z: nat)
    requires y == q * TEN19 + r && y * Pow10(n) <= z && q > 0
    ensures q < y
    ensures q * Pow10(n + 19) <= z
  {
    hide Pow10;
    var p := Pow10(n);
    PowersOfTen();
    Pow10Add(19, n);
    Distribute(q * TEN19, r, p);
    MulBoth(0, r, 0, p);
    Associate(q, TEN19, p);
  }

  // ---- parsing ----

  datatype ParseError = NoError | Eof | BadDigits | Big256Range

  // 2^256 - 1, in groups of six digits.
  const MAX_UINT256: string :=
    "115792" + "089237" + "316195" + "423570" + "985008" + "687907" + "853269"
    + "984665" + "640564" + "039457" + "584007" + "913129" + "639935"

  // One leading plus sign is taken off.
  function StripPlus(s: string): (t: string)
  {
    if |s| > 0 && s[0] == '+' then s[1..] else s
  }

  // What the parser is meant to accept.
  ghost predicate IsDecimal256(t: string)
  {
    |t| > 0 && AllDigits(t) && DecimalValue(t) < Weight(4)
  }

  // The powers 10^19, 10^38, 10^57 and 10^76 as their words.
  method Multiplier(i: nat) returns (m: array<Word>)
    requires 1 <= i <= 4
    ensures fresh(m) && IsUint(m) && Val(m) == Pow10(19 * i)
  {
    hide Value, Pow10;
    m := new Word[4](_ => 0);
    if i == 1 {
      m[0] := 10000000000000000000;
    } else if i == 2 {
      m[0], m[1] := 687399551400673280, 5421010862427522170;
    } else if i == 3 {
      m[0], m[1], m[2] := 5332261958806667264, 17004971331911604867, 2938735877055718769;
    } else {
      m[1], m[2], m[3] := 8607968719199866880, 532749306367912313, 1593091911132452277;
    }
    MultiplierValue(m[..], i);
  }

  lemma MultiplierValue(m: seq<Word>, i: nat)
    requires 1 <= i <= 4 && |m| == 4
    requires i == 1 ==> m == [10000000000000000000, 0, 0, 0]
    requires i == 2 ==> m == [687399551400673280, 5421010862427522170, 0, 0]
    requires i == 3 ==> m == [5332261958806667264, 17004971331911604867, 2938735877055718769, 0]
    requires i == 4 ==> m == [0, 8607968719199866880, 532749306367912313, 1593091911132452277]
    ensures Value(m) == Pow10(19 * i)
  {
    hide Value, Pow10;
    PowersOfTen();
    ValueFour(m);
  }

  // z += num * 10^(19 * i), unless that leaves 256 bits.
  method AddChunk(z: array<Word>, num: Word, i: nat) returns (overflow: bool)
    requires IsUint(z) && 1 <= i <= 4
    modifies z
    ensures overflow <==> old(Val(z)) + num * Pow10(19 * i) >= Weight(4)
    ensures !overflow ==> Val(z) == old(Val(z)) + num * Pow10(19 * i)
  {
    hide Value, Weight, Pow10;
    var base := NewUint(num);
    var m := Multiplier(i);
    ghost var product, rest := num * Pow10(19 * i), Val(z);
    NoOverflow(product);
    NoOverflow(product + rest);
    overflow := MulOverflow(base, base, m);
    if overflow { return; }
    overflow := AddOverflow(base, base, z);
    if overflow { return; }
    Set(z, base);
  }

  // At most 78 characters, in chunks of 19 from the right.
  method FromDecimal(z: array<Word>, text: string) returns (err: ParseError)
    requires IsUint(z) && |text| <= 78
    modifies z
    ensures err.NoError? <==> IsDecimal256(text)
    ensures err.NoError? ==> Val(z) == DecimalValue(text)
    ensures err.Eof? <==> text == ""
    ensures err.Big256Range? <==> AllDigits(text) && DecimalValue(text) >= Weight(4)
    ensures err.BadDigits? <==> !AllDigits(text)
  {
    hide Value, Weight, Pow10, DecimalValue;
    EmptyFits();
    SetUint64(z, 0);
    var bs, remaining := text, |text|;
    if remaining == 0 { return Eof; }
    var i := 0;
    assert text[remaining..] == "";
    EmptyText();
    while i < 5
      invariant 0 <= i <= 5 && remaining == |text| - 19 * i
      invariant remaining > 0 ==> bs == text[..remaining]
      invariant AllDigits(text[Clamp(remaining)..]) && Val(z) == DecimalValue(text[Clamp(remaining)..])
    {
      if remaining <= 0 { break; }
      var chunk := if remaining > 19 then bs[remaining - 19..remaining] else bs;
      ghost var next := Clamp(remaining - 19);
      assert chunk == text[next..remaining];
      var parsed := ParseUint(chunk);
      ChunkValue(text, next, remaining, i);
      if !parsed.Parsed? {
        assert !AllDigits(text);
        return BadDigits;
      }
      var num := parsed.value;
      if i == 0 {
        SetUint64(z, num);
      } else {
        var overflow := AddChunk(z, num, i);
        if overflow {
          TooBig(text, next);
          return Big256Range;
        }
      }
      if remaining > 19 {
        bs := bs[0..remaining - 19];
      }
      remaining := remaining - 19;
      i := i + 1;
    }
    assert text[0..] == text;
    ValRange(z);
    return NoError;
  }

  function Clamp(n: int): (m: nat)
  {
    if n < 0 then 0 else n
  }

  lemma EmptyText()
    ensures DecimalValue("") == 0
  {
  }

  lemma NoOverflow(n: nat)
    ensures n < Weight(4) ==> n % Weight(4) == n
  {
    if n < Weight(4) { DivUnique(n, Weight(4), 0, n); }
  }

  // The next chunk to the left in the value of the suffix read so far.
  lemma ChunkValue(text: string, next: nat, end: nat, i: nat)
    requires next < end <= |text| && end - next <= 19 && |text| - end == 19 * i
    requires AllDigits(text[end..])
    ensures AllDigits(text[next..]) <==> AllDigits(text[next..end])
    ensures AllDigits(text) ==> AllDigits(text[next..])
    ensures AllDigits(text[next..]) ==>
              DecimalValue(text[next..]) == DecimalValue(text[next..end]) * Pow10(19 * i) + DecimalValue(text[end..])
              && DecimalValue(text[next..end]) < B
    ensures i == 0 ==> text[next..] == text[next..end]
  {
    hide DecimalValue, Pow10;
    var a, b := text[next..end], text[end..];
    assert text[next..] == a + b;
    if AllDigits(a) {
      DecimalValueConcat(a, b);
      DecimalValueBound(a);
      Pow10Add(|a|, 19 - |a|);
      PowersOfTen();
      MulLe(1, Pow10(19 - |a|), Pow10(|a|));
    }
    if AllDigits(text[next..]) {
      forall k | 0 <= k < |a| ensures IsDigit(a[k]) {
        assert a[k] == text[next..][k];
      }
    }
  }

  lemma EmptyFits()
    ensures DecimalValue("") < Weight(4)
  {
  }

  // A suffix worth 2^256 or more is the whole text.
  lemma TooBig(text: string, next: nat)
    requires next <= |text| <= 78 && AllDigits(text[next..]) && DecimalValue(text[next..]) >= Weight(4)
    ensures next == 0
  {
    hide DecimalValue, Weight, Pow10;
    DecimalValueBound(text[next..]);
    MaxDigits();
    if next > 0 { PowerAtMost77(|text| - next); }
  }

  lemma PowerAtMost77(n: nat)
    requires n <= 77
    ensures Pow10(n) <= Pow10(77)
  {
    PowMono(10, n, 77);
  }

  lemma ShortFits(text: string)
    requires |text| < 78 && AllDigits(text)
    ensures DecimalValue(text) < Weight(4)
  {
    hide DecimalValue, Weight, Pow10;
    DecimalValueBound(text);
    PowerAtMost77(|text|);
    MaxDigits();
  }

  // The whole parser: one plus sign and any leading zeros are dropped, then the length and, at 78
  // characters, the order of strings decide whether the number can fit.
  method SetFromDecimal(z: array<Word>, s: string) returns (err: ParseError)
    requires IsUint(z)
    modifies z
    ensures err.NoError? <==> IsDecimal256(StripPlus(s))
    ensures err.NoError? ==> Val(z) == DecimalValue(StripPlus(s))
    ensures err.Eof? <==> StripPlus(s) == ""
    ensures err.Big256Range? <==> var t := StripZeros(StripPlus(s));
                                  |t| > |MAX_UINT256| || (|t| == |MAX_UINT256| && LexLess(MAX_UINT256, t))
    ensures err.BadDigits? ==> !AllDigits(StripPlus(s))
  {
    hide Value, Weight, Pow10, DecimalValue, LexLess;
    var t := StripPlus(s);
    ghost var whole := t;
    if |t| > 0 && t[0] == '0' {
      var i := 0;
      while i < |t| - 1 && t[i] == '0'
        invariant 0 <= i < |t| && forall k :: 0 <= k < i ==> t[k] == '0'
        invariant StripZeros(t[i..]) == StripZeros(t)
      {
        i := i + 1;
      }
      ZerosDropped(t, i);
      t := t[i..];
    }
    var sLen, maxLen := |t|, |MAX_UINT256|;
    assert t == StripZeros(whole);
    if sLen < maxLen {
      if AllDigits(t) { ShortFits(t); }
      err := FromDecimal(z, t);
    } else if sLen == maxLen {
      AboveMaximum(t);
      if LexLess(MAX_UINT256, t) { return Big256Range; }
      err := FromDecimal(z, t);
    } else {
      TooLong(t);
      err := Big256Range;
    }
  }

  // A text of letters, one too long, is refused for its range and not for its letters.
  method LettersOutOfRange() returns (text: string, err: ParseError)
    ensures |text| == 79 && (forall i :: 0 <= i < |text| ==> !IsDigit(text[i])) && err.Big256Range?
  {
    var z := new Word[4](_ => 0);
    text := seq(79, i => 'x');
    assert StripZeros(StripPlus(text)) == text;
    err := SetFromDecimal(z, text);
  }

  // Without leading zeros, but never without any character.
  function StripZeros(t: string): (r: string)
  {
    if |t| > 1 && t[0] == '0' then StripZeros(t[1..]) else t
  }

  lemma ZerosDropped(t: string, i: nat)
    requires i < |t| && forall k :: 0 <= k < i ==> t[k] == '0'
    ensures AllDigits(t) <==> AllDigits(t[i..])
    ensures AllDigits(t) ==> DecimalValue(t) == DecimalValue(t[i..])
  {
    hide DecimalValue, Pow10;
    assert t == t[..i] + t[i..];
    if AllDigits(t[i..]) {
      ZerosValue(t[..i]);
      DecimalValueConcat(t[..i], t[i..]);
    }
    if AllDigits(t) {
      forall k | 0 <= k < |t[i..]| ensures IsDigit(t[i..][k]) { assert t[i..][k] == t[i + k]; }
    }
  }

  // More than 78 characters without a leading zero cannot fit.
  lemma TooLong(t: string)
    requires |t| > 78 && t[0] != '0'
    ensures !IsDecimal256(t)
  {
    hide DecimalValue, Pow10, Weight;
    if AllDigits(t) {
      DecimalPositive(t);
      MaxDigits();
      Pow10Add(78, |t| - 1 - 78);
      MulLe(1, Pow10(|t| - 1 - 78), Pow10(78));
    }
  }

  // Go's < on strings.
  predicate LexLess(s: string, t: string)
  {
    if |t| == 0 then false
    else if |s| == 0 then true
    else s[0] < t[0] || (s[0] == t[0] && LexLess(s[1..], t[1..]))
  }

  // Among digit strings of one length the order of strings is the order of numbers.
  lemma {:induction false} LexIsNumeric(s: string, t: string)
    requires |s| == |t| && AllDigits(s) && AllDigits(t)
    ensures LexLess(s, t) <==> DecimalValue(s) < DecimalValue(t)
  {
    if |s| > 0 {
      LexIsNumeric(s[1..], t[1..]);
      LeadingDigit(s);
      LeadingDigit(t);
      DecimalValueBound(s[1..]);
      DecimalValueBound(t[1..]);
      TopDominates(Pow10(|s| - 1), DecimalValue(s[1..]), DigitValue(s[0]), DecimalValue(t[1..]), DigitValue(t[0]));
      TopDominates(Pow10(|s| - 1), DecimalValue(t[1..]), DigitValue(t[0]), DecimalValue(s[1..]), DigitValue(s[0]));
    }
  }

  lemma LeadingDigit(s: string)
    requires |s| > 0 && AllDigits(s)
    ensures DecimalValue(s) == DecimalValue(s[1..]) + Pow10(|s| - 1) * DigitValue(s[0])
  {
    hide DecimalValue, Pow10;
    assert s == s[..1] + s[1..];
    DecimalValueConcat(s[..1], s[1..]);
    OneDigit(s[..1]);
  }

  lemma OneDigit(s: string)
    requires |s| == 1 && AllDigits(s)
    ensures DecimalValue(s) == DigitValue(s[0])
  {
    assert s[..0] == "";
  }

  lemma AboveMaximum(t: string)
    requires |t| == |MAX_UINT256|
    ensures LexLess(MAX_UINT256, t) ==> !IsDecimal256(t)
    ensures !LexLess(MAX_UINT256, t) && AllDigits(t) ==> DecimalValue(t) < Weight(4)
  {
    hide DecimalValue, Weight, LexLess;
    MaximumValue();
    if AllDigits(t) { LexIsNumeric(MAX_UINT256, t); }
  }

  lemma AppendSix(s: string, t: string)
    requires AllDigits(s) && |t| == 6 && AllDigits(t)
    ensures AllDigits(s + t)
    ensures DecimalValue(s + t) == DecimalValue(s) * 1_000_000
          + ((((DigitValue(t[0]) * 10 + DigitValue(t[1])) * 10 + DigitValue(t[2])) * 10 + DigitValue(t[3])) * 10
          + DigitValue(t[4])) * 10 + DigitValue(t[5])
  {
    hide DecimalValue, Pow10;
    DecimalValueConcat(s, t);
    assert Pow10(6) == 1_000_000 by { SixZeros(); }
    OneDigit(t[..1]);
    LastDigit(t, 2);
    LastDigit(t, 3);
    LastDigit(t, 4);
    LastDigit(t, 5);
    LastDigit(t, 6);
    assert t[..6] == t;
  }

  lemma SixZeros()
    ensures Pow10(6) == 1_000_000
  {
    assert Pow10(3) == 1000;
    Pow10Add(3, 3);
  }

  lemma LastDigit(t: string, n: nat)
    requires 0 < n <= |t| && AllDigits(t)
    ensures DecimalValue(t[..n]) == 10 * DecimalValue(t[..n - 1]) + DigitValue(t[n - 1])
  {
    assert t[..n][..n - 1] == t[..n - 1];
  }

  // The first seven groups of the largest value.
  lemma MaximumHigh(p: string)
    requires p == "115792" + "089237" + "316195" + "423570" + "985008" + "687907" + "853269"
    ensures AllDigits(p) && DecimalValue(p) == 115792089237316195423570985008687907853269
  {
    hide DecimalValue, Pow10;
    EmptyText();
    assert "" + "115792" == "115792";
    var p0 := "115792";
    assert DecimalValue(p0) == 115792 by { AppendSix("", "115792"); }
    var p1 := p0 + "089237";
    assert DecimalValue(p1) == 115792089237 by { AppendSix(p0, "089237"); }
    var p2 := p1 + "316195";
    assert DecimalValue(p2) == 115792089237316195 by { AppendSix(p1, "316195"); }
    var p3 := p2 + "423570";
    assert DecimalValue(p3) == 115792089237316195423570 by { AppendSix(p2, "423570"); }
    var p4 := p3 + "985008";
    assert DecimalValue(p4) == 115792089237316195423570985008 by { AppendSix(p3, "985008"); }
    var p5 := p4 + "687907";
    assert DecimalValue(p5) == 115792089237316195423570985008687907 by { AppendSix(p4, "687907"); }
    var p6 := p5 + "853269";
    assert DecimalValue(p6) == 115792089237316195423570985008687907853269 by { AppendSix(p5, "853269"); }
  }

  lemma MaximumValue()
    ensures AllDigits(MAX_UINT256) && DecimalValue(MAX_UINT256) == Weight(4) - 1
  {
    hide DecimalValue, Weight, Pow10;
    var p6 := "115792" + "089237" + "316195" + "423570" + "985008" + "687907" + "853269";
    MaximumHigh(p6);
    var p7 := p6 + "984665";
    assert DecimalValue(p7) == 115792089237316195423570985008687907853269984665 by { AppendSix(p6, "984665"); }
    var p8 := p7 + "640564";
    assert DecimalValue(p8) == 115792089237316195423570985008687907853269984665640564 by { AppendSix(p7, "640564"); }
    var p9 := p8 + "039457";
    assert DecimalValue(p9) == 115792089237316195423570985008687907853269984665640564039457 by { AppendSix(p8, "039457"); }
    var p10 := p9 + "584007";
    assert DecimalValue(p10) == 115792089237316195423570985008687907853269984665640564039457584007 by { AppendSix(p9, "584007"); }
    var p11 := p10 + "913129";
    assert DecimalValue(p11) == 115792089237316195423570985008687907853269984665640564039457584007913129 by { AppendSix(p10, "913129"); }
    var p12 := p11 + "639935";
    assert DecimalValue(p12) == 115792089237316195423570985008687907853269984665640564039457584007913129639935 by { AppendSix(p11, "639935"); }
    assert MAX_UINT256 == p12;
    WeightFour();
  }

  // Printing and parsing undo each other.
  lemma PrintThenParse(n: nat)
    requires n < Weight(4)
    ensures StripPlus(Decimal(n)) == Decimal(n) && IsDecimal256(Decimal(n)) && DecimalValue(Decimal(n)) == n
  {
    DecimalRoundTrip(n);
    assert IsDigit(Decimal(n)[0]);
  }

  lemma ParseThenPrint(s: string)
    requires IsDecimal256(StripPlus(s))
    ensures Decimal(DecimalValue(StripPlus(s))) == s <==> s[0] != '+' && (s[0] == '0' ==> |s| == 1)
  {
    var t := StripPlus(s);
    DecimalCanonical(DecimalValue(t));
    assert IsDigit(Decimal(DecimalValue(t))[0]);
    if t == s && (s[0] == '0' ==> |s| == 1) { DecimalUnique(s); }
  }
}
