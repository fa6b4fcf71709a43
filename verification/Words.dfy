// 64-bit machine words and the primitives of Go's math/bits, over unbounded integers.
module Words {
  import opened Arith

  const B: int := 0x1_0000_0000_0000_0000

  type Word = x: int | 0 <= x < 0x1_0000_0000_0000_0000

  // Full product: hi:lo.
  method Mul64(x: Word, y: Word) returns (hi: Word, lo: Word)
    ensures hi * B + lo == x * y
  {
    ProductBound(x, y);
    hi, lo := x * y / B, x * y % B;
  }

  lemma ProductBound(x: Word, y: Word)
    ensures 0 <= x * y <= (B - 1) * (B - 1)
  {
    MulBoth(x, B - 1, y, B - 1);
  }

  method Add64(x: Word, y: Word, carry: int) returns (sum: Word, carryOut: int)
    requires 0 <= carry <= 1
    ensures 0 <= carryOut <= 1
    ensures sum + carryOut * B == x + y + carry
  {
    var s := x + y + carry;
    if s >= B { sum, carryOut := s - B, 1; } else { sum, carryOut := s, 0; }
  }

  method Sub64(x: Word, y: Word, borrow: int) returns (diff: Word, borrowOut: int)
    requires 0 <= borrow <= 1
    ensures 0 <= borrowOut <= 1
    ensures diff - borrowOut * B == x - y - borrow
  {
    var s := x - y - borrow;
    if s < 0 { diff, borrowOut := s + B, 1; } else { diff, borrowOut := s, 0; }
  }

  // Go's uint64 operators, which wrap modulo 2^64.
  function AddWrap(x: Word, y: Word): (r: Word)
    ensures r == x + y || r == x + y - B
  {
    if x + y < B then x + y else x + y - B
  }

  function SubWrap(x: Word, y: Word): (r: Word)
    ensures r == x - y || r == x - y + B
  {
    if x >= y then x - y else x - y + B
  }

  method MulWrap(x: Word, y: Word) returns (r: Word, ghost carry: Word)
    ensures carry * B + r == x * y
  {
    var hi, lo := Mul64(x, y);
    r, carry := lo, hi;
  }

  // bits.Div64 panics when y is zero or the quotient does not fit in a word.
  method Div64(hi: Word, lo: Word, y: Word) returns (quo: Word, rem: Word)
    requires hi < y
    ensures quo * y + rem == hi * B + lo && rem < y
  {
    var n := hi * B + lo;
    var q, r := n / y, n % y;
    assert q * y + r == n;
    if q < 0 { MulLe(q, -1, y); }
    if q >= B { MulLe(B, q, y); MulLe(hi, y - 1, B); }
    quo, rem := q, r;
  }
}
