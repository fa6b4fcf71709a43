// Decimal text: the meaning of digit strings, and what strconv does with one word.
module Decimals {
  import opened Arith
  import opened Words

  function Pow10(n: nat): (p: nat)
    ensures p > 0
  {
    Pow(10, n)
  }

  lemma Pow10Add(m: nat, n: nat)
    ensures Pow10(m + n) == Pow10(m) * Pow10(n)
  {
    PowAdd(10, m, n);
  }

  predicate IsDigit(c: char) {
    '0' <= c <= '9'
  }

  predicate AllDigits(s: string) {
    forall k :: 0 <= k < |s| ==> IsDigit(s[k])
  }

  function DigitOf(d: nat): (c: char)
    requires d < 10
    ensures IsDigit(c) && DigitValue(c) == d
  {
    "0123456789"[d]
  }

  function DigitValue(c: char): (d: int)
    ensures IsDigit(c) ==> 0 <= d < 10
  {
    c as int - '0' as int
  }

  // The number a digit string stands for; leading zeros are allowed.
  function DecimalValue(s: string): (n: nat)
    requires AllDigits(s)
  {
    if |s| == 0 then 0 else 10 * DecimalValue(s[..|s| - 1]) + DigitValue(s[|s| - 1])
  }

  // The decimal form without leading zeros.
  function Decimal(n: nat): (s: string)
    ensures |s| > 0 && AllDigits(s)
  {
    if n < 10 then [DigitOf(n)] else Decimal(n / 10) + [DigitOf(n % 10)]
  }

  lemma {:induction false} DecimalRoundTrip(n: nat)
    ensures DecimalValue(Decimal(n)) == n
  {
    var s := Decimal(n);
    if n < 10 {
      assert s[..0] == "";
    } else {
      DecimalRoundTrip(n / 10);
      assert s[..|s| - 1] == Decimal(n / 10);
    }
  }

  lemma {:induction false} DecimalCanonical(n: nat)
    ensures Decimal(n)[0] == '0' ==> n == 0 && |Decimal(n)| == 1
  {
    if n >= 10 {
      DecimalCanonical(n / 10);
    }
  }

  lemma {:induction false} DecimalLength(n: nat, k: nat)
    requires n < Pow10(k) && k > 0
    ensures |Decimal(n)| <= k
  {
    if n >= 10 {
      DecimalLength(n / 10, k - 1);
    }
  }

  lemma {:induction false} DecimalValueConcat(s: string, t: string)
    requires AllDigits(s) && AllDigits(t)
    ensures AllDigits(s + t) && DecimalValue(s + t) == DecimalValue(s) * Pow10(|t|) + DecimalValue(t)
  {
    if |t| == 0 {
      assert s + t == s;
    } else {
      var n := |t| - 1;
      var u := s + t;
      assert u[..|u| - 1] == s + t[..n] && u[|u| - 1] == t[n];
      DecimalValueConcat(s, t[..n]);
      Associate(10, DecimalValue(s), Pow10(n));
      Associate(DecimalValue(s), 10, Pow10(n));
    }
  }

  lemma {:induction false} DecimalValueBound(s: string)
    requires AllDigits(s)
    ensures DecimalValue(s) < Pow10(|s|)
  {
    if |s| > 0 {
      DecimalValueBound(s[..|s| - 1]);
    }
  }

  function Zeros(n: nat): (s: string)
    ensures |s| == n && forall k :: 0 <= k < n ==> s[k] == '0'
  {
    if n == 0 then "" else Zeros(n - 1) + "0"
  }

  lemma {:induction false} ZerosValue(s: string)
    requires forall k :: 0 <= k < |s| ==> s[k] == '0'
    ensures AllDigits(s) && DecimalValue(s) == 0
  {
    if |s| > 0 {
      ZerosValue(s[..|s| - 1]);
    }
  }

  // A digit string without leading zero is the decimal form of its value.
  lemma {:induction false} DecimalUnique(s: string)
    requires AllDigits(s) && |s| > 0 && (s[0] == '0' ==> |s| == 1)
    ensures Decimal(DecimalValue(s)) == s
  {
    var n := |s| - 1;
    assert DigitOf(DigitValue(s[n])) == s[n];
    if n == 0 {
      assert s[..0] == "" && s == [s[0]];
    } else {
      DecimalUnique(s[..n]);
      DecimalPositive(s[..n]);
      var v := DecimalValue(s[..n]);
      assert DecimalValue(s) / 10 == v && DecimalValue(s) % 10 == DigitValue(s[n]);
      assert s == s[..n] + [s[n]];
    }
  }

  lemma {:induction false} DecimalPositive(s: string)
    requires AllDigits(s) && |s| > 0 && s[0] != '0'
    ensures DecimalValue(s) >= Pow10(|s| - 1)
  {
    if |s| > 1 {
      DecimalPositive(s[..|s| - 1]);
    } else {
      assert s[..0] == "";
    }
  }

  // ---- strconv ----

  datatype ParseResult = Parsed(value: Word) | SyntaxError | RangeError

  // strconv.ParseUint(s, 10, 64)
  function ParseUint(s: string): (r: ParseResult)
    ensures r.Parsed? <==> |s| > 0 && AllDigits(s) && DecimalValue(s) < B
    ensures r.Parsed? ==> r.value == DecimalValue(s)
  {
    if |s| == 0 || !AllDigits(s) then SyntaxError
    else if DecimalValue(s) < B then Parsed(DecimalValue(s))
    else RangeError
  }

  // A number below 2^64 in exactly n digits, zero-padded.
  function Padded(r: nat, n: nat): (s: string)
    requires |Decimal(r)| <= n
    ensures |s| == n
  {
    Zeros(n - |Decimal(r)|) + Decimal(r)
  }

  // Splitting off n low digits.
  lemma DecimalSplit(q: nat, r: nat, n: nat)
    requires q > 0 && r < Pow10(n) && n > 0
    ensures |Decimal(r)| <= n
    ensures Decimal(q * Pow10(n) + r) == Decimal(q) + Padded(r, n)
  {
    hide Decimal, DecimalValue, Pow10;
    DecimalLength(r, n);
    var p, s := Padded(r, n), Decimal(q) + Padded(r, n);
    DecimalCanonical(q);
    ZerosValue(Zeros(n - |Decimal(r)|));
    DecimalValueConcat(Zeros(n - |Decimal(r)|), Decimal(r));
    DecimalValueConcat(Decimal(q), p);
    DecimalRoundTrip(q);
    DecimalRoundTrip(r);
    DecimalUnique(s);
  }
}
