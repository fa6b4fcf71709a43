// Exact rescaling of token amounts by powers of ten.
module Scale {
  import opened Arith
  import opened Words
  import opened Limbs
  import opened Uint256
  import opened Decimals
  import opened Conversion

  const MAX_INT64: int := 0x7FFF_FFFF_FFFF_FFFF

  datatype ScaleError = Scaled | AmountOverflow | AmountNotDivisible | Pow10Overflow

  // 10^exp, or an error exactly when it does not fit, which is from 78 on.
  method PowerOfTen(exp: int) returns (err: ScaleError, result: array<Word>)
    ensures fresh(result) && IsUint(result)
    ensures err == if exp >= 78 then Pow10Overflow else Scaled
    ensures err.Scaled? ==> Val(result) == if exp < 0 then 0 else Pow10(exp)
  {
    hide Value, Weight;
    if exp < 0 {
      result := NewUint(0);
      return Scaled, result;
    }
    result := NewUint(1);
    var ten := NewUint(10);
    MaxDigits();
    var i := 0;
    while i < exp
      invariant 0 <= i <= exp && i < 78
      invariant fresh(result) && IsUint(result) && Val(result) == Pow10(i)
      invariant fresh(ten) && IsUint(ten) && Val(ten) == 10
    {
      var next := new Word[4](_ => 0);
      NoOverflow(Pow10(i) * 10);
      var overflow := MulOverflow(next, result, ten);
      FitsBelow78(i + 1);
      if overflow { return Pow10Overflow, result; }
      result := next;
      i := i + 1;
    }
    return Scaled, result;
  }

  lemma FitsBelow78(n: nat)
    ensures Pow10(n) < Weight(4) <==> n < 78
  {
    MaxDigits();
    if n < 78 { PowMono(10, n, 77); } else { PowMono(10, 78, n); }
  }

  // amount / 10^exp as an int64, when that is exact and fits.
  method ScaleDownToInt64(amount: array<Word>, exp: int) returns (err: ScaleError, q: int)
    requires IsUint(amount)
    ensures err.Scaled? <==> exists r: nat :: r <= 0x7FFF_FFFF_FFFF_FFFF && exp < 78 && Val(amount) == r * Pow10(Exponent(exp))
    ensures err.Scaled? ==> 0 <= q <= 0x7FFF_FFFF_FFFF_FFFF && Val(amount) == q * Pow10(Exponent(exp))
    ensures err.Pow10Overflow? <==> exp >= 78
    ensures err.AmountNotDivisible? <==> exp < 78 && Val(amount) % Pow10(Exponent(exp)) != 0
  {
    hide Value, Weight, Pow10;
    ghost var a, p := Val(amount), Pow10(Exponent(exp));
    if exp <= 0 { ExponentZero(exp, a); }
    var value := amount;
    if exp > 0 {
      var divisor;
      err, divisor := PowerOfTen(exp);
      if !err.Scaled? { return err, 0; }
      var quotient := new Word[4](_ => 0);
      var remainder := new Word[4](_ => 0);
      var never := DivMod(quotient, amount, divisor, remainder);
      var exact := IsZero(remainder);
      Multiples(a, p);
      if !exact { return AmountNotDivisible, 0; }
      value := quotient;
    } else {
      Multiples(a, p);
    }
    assert Val(value) == a / p && a == a / p * p;
    var small := IsUint64(value);
    if !small || value[0] > MAX_INT64 { return AmountOverflow, 0; }
    return Scaled, value[0];
  }

  // Exponents of zero and below divide by one.
  function Exponent(exp: int): (n: nat)
  {
    if exp < 0 then 0 else exp
  }

  lemma ExponentZero(exp: int, a: nat)
    requires exp <= 0
    ensures Pow10(Exponent(exp)) == 1 && a / 1 == a && a % 1 == 0
  {
  }

  // A multiple of p is one only of its quotient.
  lemma Multiples(a: nat, p: nat)
    requires p > 0
    ensures forall r: nat :: a == r * p ==> a % p == 0 && r == a / p
    ensures a % p == 0 ==> a == a / p * p && a / p >= 0
  {
    forall r: nat | a == r * p ensures a % p == 0 && r == a / p {
      DivUnique(a, p, r, 0);
    }
    var q := a / p;
    assert a == q * p + a % p;
    if q < 0 { MulLe(q, -1, p); }
  }
}
