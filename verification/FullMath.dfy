// Multiply-then-divide with a 512-bit intermediate product.
module FullMath {
  import opened Arith
  import opened Words
  import opened Limbs
  import opened Bits
  import opened LongDivision
  import opened Multiply
  import opened Uint256
  import opened Barrett

  // The quotient leaves 256 bits exactly when the upper half reaches the denominator.
  lemma QuotientOverflow(high: nat, low: nat, w: nat, d: nat)
    requires 0 < d && low < w
    ensures (high * w + low) / d >= w <==> d <= high
  {
    var p := high * w + low;
    var q, r := p / d, p % d;
    assert p == q * d + r;
    if d <= high {
      MulLe(d, high, w);
      if q < w { MulLe(q + 1, w, d); Distribute(q, 1, d); }
    } else {
      MulLe(high + 1, d, w);
      Distribute(high, 1, w);
      if q >= w { MulLe(w, q, d); }
    }
  }

  // The eight-word quotient once the denominator is above the upper half of the product.
  lemma WideQuotient(p: seq<Word>, quot: seq<Word>, d: nat, rem: nat)
    requires |p| == |quot| == 8 && Value(p[4..8]) < d
    requires Value(p) == Value(quot) * d + rem && rem < d
    ensures Or(Or(Or(quot[4], quot[5]), quot[6]), quot[7]) == 0
    ensures Value(quot[0..4]) == Value(p) / d
  {
    hide Value, Weight, Or;
    assert p[4..8] == p[4..] && quot[0..4] == quot[..4];
    HighHalf(p);
    ValueBound(p[..4]);
    QuotientOverflow(Value(p[4..]), Value(p[..4]), Weight(4), d);
    DivUnique(Value(p), d, Value(quot), rem);
    HighHalf(quot);
  }

  lemma SplitProduct(p: seq<Word>, low: seq<Word>, high: seq<Word>, d: nat)
    requires |p| == 8 && low == p[0..4] && high == p[4..8] && 0 < d
    ensures Or(Or(Or(p[4], p[5]), p[6]), p[7]) == 0 ==> Value(p) == Value(low) && Value(p) / d < Weight(4)
    ensures Value(p) / d >= Weight(4) <==> d <= Value(high)
  {
    hide Value, Weight, Or;
    assert low == p[..4] && high == p[4..];
    HighHalf(p);
    ValueBound(low);
    QuotientOverflow(Value(high), Value(low), Weight(4), d);
  }

  // floor(a * b / denominator), or a panic exactly when that does not exist in 256 bits. The
  // second overflow check, on the upper quotient words, never fires.
  method MulDiv(a: array<Word>, b: array<Word>, denominator: array<Word>) returns (panic: bool, z: array<Word>)
    requires IsUint(a) && IsUint(b) && IsUint(denominator)
    ensures fresh(z) && IsUint(z)
    ensures panic <==> Val(denominator) == 0 || Val(a) * Val(b) / Val(denominator) >= Weight(4)
    ensures !panic ==> Val(z) == Val(a) * Val(b) / Val(denominator)
  {
    hide Value, Weight, SigLen, Or;
    z := new Word[4](_ => 0);
    var zero := IsZero(denominator);
    if zero { return true, z; }
    var p := UMul(a, b);
    ghost var product, d := Val(a) * Val(b), Val(denominator);
    ghost var low, high := p[..][0..4], p[..][4..8];
    SplitProduct(p[..], low, high, d);
    if Or(Or(Or(p[4], p[5]), p[6]), p[7]) == 0 {
      var lo := FourWords(p, 0);
      panic := Div(z, lo, denominator);
      return;
    }
    var hi := FourWords(p, 4);
    var tooBig := Lt(hi, denominator);
    if !tooBig { return true, z; }
    var quot := new Word[8](_ => 0);
    NonZeroHasWords(denominator[..]);
    var rem := UDivRem(quot, p, denominator);
    WideQuotient(p[..], quot[..], d, Val(rem));
    if Or(Or(Or(quot[4], quot[5]), quot[6]), quot[7]) != 0 {
      assert false;
    }
    z := FourWords(quot, 0);
    panic := false;
  }

  // ceil(a * b / denominator), or a panic exactly when that does not exist in 256 bits.
  method MulDivRoundingUp(a: array<Word>, b: array<Word>, denominator: array<Word>)
    returns (panic: bool, result: array<Word>)
    requires IsUint(a) && IsUint(b) && IsUint(denominator)
    ensures fresh(result) && IsUint(result)
    ensures panic <==> (Val(denominator) == 0
                        || (Val(a) * Val(b) + Val(denominator) - 1) / Val(denominator) >= Weight(4))
    ensures !panic ==> Val(result) == (Val(a) * Val(b) + Val(denominator) - 1) / Val(denominator)
  {
    hide Value, Weight;
    ghost var p, d := Val(a) * Val(b), Val(denominator);
    panic, result := MulDiv(a, b, denominator);
    if d > 0 { Ceiling(p, d); }
    if panic { return; }
    var remainder := new Word[4](_ => 0);
    var noModulus := MulMod(remainder, a, b, denominator);
    var exact := IsZero(remainder);
    if exact { return; }
    var max := new Word[4](_ => B - 1);
    AllOnesFour(max[..]);
    ValRange(result);
    var full := Eq(result, max);
    if full { return true, result; }
    var one := NewUint(1);
    DivUnique(Val(result) + 1, Weight(4), 0, Val(result) + 1);
    var overflow := AddOverflow(result, result, one);
  }

  // ceil(x / y), or a panic exactly when y is zero.
  method DivRoundingUp(x: array<Word>, y: array<Word>) returns (panic: bool, z: array<Word>)
    requires IsUint(x) && IsUint(y)
    ensures fresh(z) && IsUint(z)
    ensures panic <==> Val(y) == 0
    ensures !panic ==> Val(z) == (Val(x) + Val(y) - 1) / Val(y)
  {
    hide Value, Weight;
    z := new Word[4](_ => 0);
    var mod := new Word[4](_ => 0);
    panic := Div(z, x, y);
    if panic { return; }
    panic := Mod(mod, x, y);
    var up := GreaterThanZero(mod);
    Ceiling(Val(x), Val(y));
    CeilingFits(Val(x), Val(y));
    ValRange(x);
    DivUnique(Val(z) + Val(up), Weight(4), 0, Val(z) + Val(up));
    var overflow := AddOverflow(z, z, up);
  }

  method GreaterThanZero(x: array<Word>) returns (one: array<Word>)
    requires IsUint(x)
    ensures fresh(one) && IsUint(one) && Val(one) == if Val(x) > 0 then 1 else 0
  {
    var zero := NewUint(0);
    var greater := Lt(zero, x);
    if greater { one := NewUint(1); } else { one := NewUint(0); }
  }

  lemma CeilingFits(x: nat, d: nat)
    requires d > 0
    ensures 0 <= x / d + (if x % d == 0 then 0 else 1) <= x
  {
    var q, r := x / d, x % d;
    assert x == q * d + r;
    QuotientNonNegative(x, d);
    if r > 0 && q > 0 { MulLe(2, d, q); }
    if r == 0 { MulLe(1, d, q); }
  }

  lemma Ceiling(p: nat, d: nat)
    requires d > 0
    ensures (p + d - 1) / d == p / d + (if p % d == 0 then 0 else 1)
  {
    var q, r := p / d, p % d;
    assert p == q * d + r;
    Distribute(q, 1, d);
    if r == 0 { DivUnique(p + d - 1, d, q, d - 1); } else { DivUnique(p + d - 1, d, q + 1, r - 1); }
  }

  lemma AllOnesFour(s: seq<Word>)
    requires |s| == 4 && s[0] == s[1] == s[2] == s[3] == B - 1
    ensures Value(s) == Weight(4) - 1
  {
    ValueFour(s);
    WeightFour();
  }
}
