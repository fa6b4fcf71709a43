// Division of up to eight words by up to four: normalise, divide, shift back.
module LongDivision {
  import opened Arith
  import opened Words
  import opened Limbs
  import opened Bits
  import opened Shifts
  import opened Division

  // The number of words left when the leading zero words are dropped.
  function SigLen(s: seq<Word>): (n: nat)
    ensures n <= |s|
    ensures n > 0 ==> s[n - 1] != 0
    ensures forall k :: n <= k < |s| ==> s[k] == 0
  {
    if |s| == 0 then 0
    else if s[|s| - 1] != 0 then |s|
    else SigLen(s[..|s| - 1])
  }

  lemma SigLenUnique(s: seq<Word>, n: nat)
    requires n <= |s| && (n > 0 ==> s[n - 1] != 0) && forall k :: n <= k < |s| ==> s[k] == 0
    ensures n == SigLen(s)
  {
  }

  method SignificantLength(a: array<Word>) returns (n: nat)
    ensures n == SigLen(a[..])
  {
    n := a.Length;
    while n > 0 && a[n - 1] == 0
      invariant 0 <= n <= a.Length
      invariant forall k :: n <= k < a.Length ==> a[k] == 0
    {
      n := n - 1;
    }
    SigLenUnique(a[..], n);
  }

  // dst[..n] := src[..n] << s, dropping what leaves the top word.
  method ShiftUpInto(dst: array<Word>, src: array<Word>, n: nat, s: nat)
    requires 0 < n <= src.Length && n <= dst.Length && dst != src && s < 64
    modifies dst
    ensures ShiftedUp(src[..][..n], dst[..][..n], s)
    ensures forall k :: n <= k < dst.Length ==> dst[k] == old(dst[k])
  {
    var i := n - 1;
    while i > 0
      invariant 0 <= i < n
      invariant forall k :: i < k < n ==> dst[k] == ShlWord(src[k], src[k - 1], s)
      invariant forall k :: n <= k < dst.Length ==> dst[k] == old(dst[k])
    {
      dst[i] := Or(Shl(src[i], s), Shr(src[i - 1], 64 - s));
      i := i - 1;
    }
    dst[0] := Shl(src[0], s);
  }

  // dst[..n] := src[..n] >> s.
  method ShiftDownInto(dst: array<Word>, src: array<Word>, n: nat, s: nat)
    requires 0 < n <= src.Length && n <= dst.Length && dst != src && s < 64
    modifies dst
    ensures ShiftedDown(src[..][..n], dst[..][..n], s)
    ensures forall k :: n <= k < dst.Length ==> dst[k] == old(dst[k])
  {
    var i := 0;
    while i < n - 1
      invariant 0 <= i <= n - 1
      invariant forall k :: 0 <= k < i ==> dst[k] == ShrWord(src[k], src[k + 1], s)
      invariant forall k :: n <= k < dst.Length ==> dst[k] == old(dst[k])
    {
      dst[i] := Or(Shr(src[i], s), Shl(src[i + 1], 64 - s));
      i := i + 1;
    }
    dst[n - 1] := Shr(src[n - 1], s);
  }

  // The divisor's shift brings its top bit up and loses nothing.
  lemma Normalised(d: seq<Word>, dn: seq<Word>, s: nat)
    requires |d| > 0 && d[|d| - 1] != 0 && s == LeadingZeros64(d[|d| - 1])
    requires s < 64 && ShiftedUp(d, dn, s)
    ensures Value(dn) == Value(d) * Pow2(s) && HALF <= dn[|d| - 1]
  {
    hide Value, Pow2, Shr, Shl, LeadingZeros64;
    var top := d[|d| - 1];
    ShiftedUpValue(d, dn, s);
    TopBitUp(top, s);
    ShlSplit(top, s);
    assert top * Pow2(s) == Shr(top, 64 - s) * B + Shl(top, s);
    if |d| > 1 {
      ShlWordSum(top, d[|d| - 2], s);
    }
  }

  lemma TopBitUp(top: Word, s: nat)
    requires top != 0 && s == LeadingZeros64(top)
    ensures s < 64 && HALF <= top * Pow2(s) < B
  {
    Len64Bounds(top);
    var n, p := Len64(top), Pow2(s);
    assert n + s == 64;
    assert Pow2(n - 1) * p == HALF by { Pow2Add(n - 1, s); Pow2Word(); }
    assert Pow2(n) * p == B by { Pow2Add(n, s); Pow2Word(); }
    ScaledBounds(top, Pow2(n - 1), Pow2(n), p);
  }

  lemma ScaledBounds(x: int, lo: int, hi: int, p: int)
    requires lo <= x < hi && 0 < p
    ensures lo * p <= x * p < hi * p
  {
    MulLe(lo, x, p);
    MulLe(x + 1, hi, p);
    Distribute(x, 1, p);
  }

  // The quotient of the shifted numbers is the quotient, and the remainder shifted back is the remainder.
  lemma ShiftedBack(u: int, d: int, up: int, dp: int, q: int, r: int, p: int, r': int, e: int)
    requires 0 < p && 0 < d && up == u * p && dp == d * p
    requires up == q * dp + r && 0 <= r < dp
    requires r' * p + e == r && 0 <= e < p
    ensures u == q * d + r' && 0 <= r' < d
  {
    Associate(q, d, p);
    Distribute(u - q * d, r', p);
    Distribute(u, q * d, p);
    var k := u - q * d - r';
    assert k * p == e;
    if k > 0 { MulLe(1, k, p); }
    if k < 0 { MulLe(k, -1, p); }
    if r' < 0 { MulLe(r', -1, p); }
    if r' >= d { MulLe(d, r', p); }
  }

  // The normalised dividend starts below the normalised divisor.
  lemma TopBelowDivisor(un: seq<Word>, dn: seq<Word>, s: nat)
    requires 0 < |dn| < |un| && s < 64
    requires un[|un| - 1] < Pow2(s) && HALF <= dn[|dn| - 1]
    ensures Value(un[|un| - |dn|..]) < Value(dn)
    ensures un[|un| - 1] < dn[|dn| - 1]
  {
    PowMono(2, s, 63);
    Pow2Word();
    TopWordOrder(un[|un| - |dn|..], dn);
  }

  lemma ShiftedDividend(u: seq<Word>, un: seq<Word>, s: nat)
    requires 0 < |u| && |un| == |u| + 1 && s < 64
    requires ShiftedUp(u, un[..|u|], s) && un[|u|] == Shr(u[|u| - 1], 64 - s)
    ensures Value(un) == Value(u) * Pow2(s) && un[|u|] < Pow2(s)
  {
    ShiftedUpValue(u, un[..|u|], s);
    ShlSplit(u[|u| - 1], s);
    assert un == un[..|u|] + [un[|u|]];
    ValueSnoc(un[..|u|], un[|u|]);
  }

  // A dividend with fewer words than the divisor is smaller than it.
  lemma ShortDividend(u: seq<Word>, d: seq<Word>, rem: seq<Word>, m: nat, n: nat)
    requires m < n <= |d| && n <= |rem| && m <= |u| && d[n - 1] != 0
    requires forall k :: m <= k < |u| ==> u[k] == 0
    requires forall k :: n <= k < |d| ==> d[k] == 0
    requires forall k :: 0 <= k < |rem| ==> rem[k] == if k < m then u[k] else 0
    ensures Value(u) == Value(rem) < Value(d)
  {
    hide Value;
    ValuePadded(u, m);
    ValuePadded(d, n);
    ValuePadded(rem, m);
    ValuePadded(rem, n);
    assert rem[..m] == u[..m];
    TopWordOrder(rem[..n], d[..n]);
  }

  // quot must be zeroed and hold every quotient word; rem is a fresh four-word number.
  method UDivRem(quot: array<Word>, u: array<Word>, d: array<Word>) returns (rem: array<Word>)
    requires u.Length <= 8 && d.Length == 4 && Value(d[..]) > 0
    requires SigLen(u[..]) < quot.Length + SigLen(d[..])
    requires quot != u && quot != d && forall k :: 0 <= k < quot.Length ==> quot[k] == 0
    modifies quot
    ensures fresh(rem) && rem.Length == 4
    ensures Value(u[..]) == Value(quot[..]) * Value(d[..]) + Value(rem[..])
    ensures Value(rem[..]) < Value(d[..])
  {
    var dLen := SignificantLength(d);
    var uLen := SignificantLength(u);
    assert dLen > 0 by { ValuePadded(d[..], dLen); }
    if uLen < dLen {
      // fewer words than the divisor: the quotient stays zero and u itself is the remainder
      rem := new Word[4](_ => 0);
      forall k | 0 <= k < uLen {
        rem[k] := u[k];
      }
      ShortDividend(u[..], d[..], rem[..], uLen, dLen);
      ValueZeros(quot[..]);
      assert Value(quot[..]) * Value(d[..]) == 0;
    } else {
      rem := DivideSignificant(quot, u, d, uLen, dLen);
    }
  }

  method DivideSignificant(quot: array<Word>, u: array<Word>, d: array<Word>, uLen: nat, dLen: nat)
    returns (rem: array<Word>)
    requires d.Length == 4 && 0 < dLen <= uLen <= u.Length && dLen <= 4 && uLen < quot.Length + dLen
    requires d[dLen - 1] != 0 && forall k :: dLen <= k < 4 ==> d[k] == 0
    requires forall k :: uLen <= k < u.Length ==> u[k] == 0
    requires quot != u && quot != d && forall k :: 0 <= k < quot.Length ==> quot[k] == 0
    modifies quot
    ensures fresh(rem) && rem.Length == 4
    ensures Value(u[..]) == Value(quot[..]) * Value(d[..]) + Value(rem[..])
    ensures Value(rem[..]) < Value(d[..])
  {
    hide Value;
    ghost var us, ds := u[..], d[..];
    var shift := LeadingZeros64(d[dLen - 1]);
    var dn := new Word[dLen];
    ShiftUpInto(dn, d, dLen, shift) by { TopBitUp(d[dLen - 1], shift); }

    var un := new Word[uLen + 1];
    un[uLen] := Shr(u[uLen - 1], 64 - shift);
    ShiftUpInto(un, u, uLen, shift);
    ghost var dns, uns := dn[..], un[..];
    assert dns[..dLen] == dns;
    DivisorOperand(ds, dns, shift);
    DividendOperand(us, uLen, uns, shift);
    TopBelowDivisor(uns, dns, shift);

    if dLen == 1 {
      var r := UDivRemBy1(quot, un, dn[0]);
      rem := new Word[4](_ => 0);
      rem[0] := Shr(r, shift);
      SingleWordResult(Value(us), Value(ds), Value(uns), quot[..], uLen, dn[0], r, rem[..], shift) by { ValueSingle(dn[0]); assert dns == [dn[0]]; }
    } else {
      UDivRemKnuth(quot, un, dn);
      rem := new Word[4](_ => 0);
      ShiftDownInto(rem, un, dLen, shift);
      KnuthResult(Value(us), Value(ds), Value(uns), quot[..], uLen + 1 - dLen, Value(dns), un[..][..dLen], rem[..], shift);
    }
  }

  // What the normalising shift makes of the divisor.
  lemma DivisorOperand(d: seq<Word>, dn: seq<Word>, s: nat)
    requires 0 < |dn| <= |d| && d[|dn| - 1] != 0 && s == LeadingZeros64(d[|dn| - 1]) && s < 64
    requires forall k :: |dn| <= k < |d| ==> d[k] == 0
    requires ShiftedUp(d[..|dn|], dn, s)
    ensures Value(d) > 0
    ensures Value(dn) == Value(d) * Pow2(s) && HALF <= dn[|dn| - 1]
  {
    hide Value, Pow2, LeadingZeros64;
    ValuePadded(d, |dn|);
    Normalised(d[..|dn|], dn, s);
    if Value(d) == 0 { ValueZeroOnly(d); }
  }

  // And of the dividend, which gains a word.
  lemma DividendOperand(u: seq<Word>, uLen: nat, un: seq<Word>, s: nat)
    requires 0 < uLen <= |u| && |un| == uLen + 1 && s < 64
    requires forall k :: uLen <= k < |u| ==> u[k] == 0
    requires ShiftedUp(u[..uLen], un[..uLen], s) && un[uLen] == Shr(u[uLen - 1], 64 - s)
    ensures Value(un) == Value(u) * Pow2(s) && un[uLen] < Pow2(s)
  {
    hide Value, Pow2, Shr;
    ValuePadded(u, uLen);
    ShiftedDividend(u[..uLen], un, s);
  }

  lemma SingleWordResult(u: nat, d: nat, un: nat, quot: seq<Word>, n: nat, dn: Word, r: Word, rem: seq<Word>, s: nat)
    requires n <= |quot| && forall k :: n <= k < |quot| ==> quot[k] == 0
    requires un == u * Pow2(s) && dn == d * Pow2(s) && d > 0
    requires un == Value(quot[..n]) * dn + r && r < dn
    requires |rem| == 4 && rem[0] == Shr(r, s) && rem[1] == rem[2] == rem[3] == 0
    ensures u == Value(quot) * d + Value(rem) && Value(rem) < d
  {
    hide Value, Pow2;
    assert Value(quot) == Value(quot[..n]) by { ValuePadded(quot, n); }
    assert Value(rem) == rem[0] by { ValuePadded(rem, 1); assert rem[..1] == [rem[0]]; ValueSingle(rem[0]); }
    var p, e := Pow2(s), r % Pow2(s);
    assert rem[0] * p + e == r && 0 <= e < p by { QuotientParts(r, p); }
    ShiftedBack(u, d, un, dn, Value(quot), r, p, rem[0], e);
  }

  lemma QuotientParts(r: int, p: int)
    requires 0 < p
    ensures r / p * p + r % p == r && 0 <= r % p < p
  {
  }

  lemma KnuthResult(u: nat, d: nat, up: nat, quot: seq<Word>, n: nat, dn: nat, un: seq<Word>, rem: seq<Word>, s: nat)
    requires n <= |quot| && forall k :: n <= k < |quot| ==> quot[k] == 0
    requires s < 64 && up == u * Pow2(s) && dn == d * Pow2(s) && d > 0
    requires up == Value(quot[..n]) * dn + Value(un) && Value(un) < dn
    requires 0 < |un| <= |rem| && ShiftedDown(un, rem[..|un|], s) && forall k :: |un| <= k < |rem| ==> rem[k] == 0
    ensures u == Value(quot) * d + Value(rem) && Value(rem) < d
  {
    hide Value;
    ValuePadded(quot, n);
    ValuePadded(rem, |un|);
    ShiftedDownValue(un, rem[..|un|], s);
    ShiftedBack(u, d, up, dn, Value(quot), Value(un), Pow2(s), Value(rem), un[0] % Pow2(s));
  }
}
