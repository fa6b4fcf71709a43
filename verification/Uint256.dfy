// 256-bit unsigned integers: four words, least significant first. A method writes its
// result to its first argument, which may be one of the operands.
module Uint256 {
  import opened Arith
  import opened Words
  import opened Limbs
  import opened Bits
  import opened LongDivision
  import opened Multiply

  ghost predicate IsUint(z: array<Word>)
  {
    z.Length == 4
  }

  ghost function Val(z: array<Word>): (v: nat)
    reads z
  {
    Value(z[..])
  }

  lemma ValRange(z: array<Word>)
    requires IsUint(z)
    ensures Val(z) < Weight(4)
    ensures Val(z) == Horner(z[0], z[1], z[2], z[3])
  {
    ValueBound(z[..]);
    ValueFour(z[..]);
  }

  lemma HornerAdd(x0: int, x1: int, x2: int, x3: int, y0: int, y1: int, y2: int, y3: int,
                  s0: int, s1: int, s2: int, s3: int, c0: int, c1: int, c2: int, c3: int)
    requires s0 + c0 * B == x0 + y0 && s1 + c1 * B == x1 + y1 + c0
    requires s2 + c2 * B == x2 + y2 + c1 && s3 + c3 * B == x3 + y3 + c2
    ensures Horner(s0, s1, s2, s3) + c3 * Weight(4) == Horner(x0, x1, x2, x3) + Horner(y0, y1, y2, y3)
  {
    WeightFour();
  }

  method AddOverflow(z: array<Word>, x: array<Word>, y: array<Word>) returns (overflow: bool)
    requires IsUint(z) && IsUint(x) && IsUint(y)
    modifies z
    ensures overflow <==> old(Val(x)) + old(Val(y)) >= Weight(4)
    ensures Val(z) == (old(Val(x)) + old(Val(y))) % Weight(4)
  {
    hide Value, Weight, Horner;
    ValRange(x);
    ValRange(y);
    ghost var xs, ys := x[..], y[..];
    var s, c0, c1, c2, c3;
    s, c0 := Add64(x[0], y[0], 0);
    ghost var s0 := s;
    z[0] := s;
    s, c1 := Add64(x[1], y[1], c0);
    ghost var s1 := s;
    z[1] := s;
    s, c2 := Add64(x[2], y[2], c1);
    ghost var s2 := s;
    z[2] := s;
    s, c3 := Add64(x[3], y[3], c2);
    z[3] := s;
    ValRange(z);
    HornerAdd(xs[0], xs[1], xs[2], xs[3], ys[0], ys[1], ys[2], ys[3], s0, s1, s2, s, c0, c1, c2, c3);
    DivUnique(Value(xs) + Value(ys), Weight(4), c3, Val(z));
    overflow := c3 != 0;
  }

  // z - x with its final borrow, by the borrow chain every comparison uses.
  method BorrowChain(z: array<Word>, x: array<Word>) returns (d0: Word, d1: Word, d2: Word, d3: Word, borrow: int)
    requires IsUint(z) && IsUint(x)
    ensures 0 <= borrow <= 1
    ensures Horner(d0, d1, d2, d3) - borrow * Weight(4) == Val(z) - Val(x)
    ensures borrow == 1 <==> Val(z) < Val(x)
  {
    hide Value, Weight, Horner;
    ValRange(z);
    ValRange(x);
    var b0, b1, b2;
    d0, b0 := Sub64(z[0], x[0], 0);
    d1, b1 := Sub64(z[1], x[1], b0);
    d2, b2 := Sub64(z[2], x[2], b1);
    d3, borrow := Sub64(z[3], x[3], b2);
    HornerAdd(d0, d1, d2, d3, x[0], x[1], x[2], x[3], z[0], z[1], z[2], z[3], b0, b1, b2, borrow);
    HornerBound(d0, d1, d2, d3);
  }

  lemma HornerBound(a: Word, b: Word, c: Word, d: Word)
    ensures 0 <= Horner(a, b, c, d) < Weight(4)
    ensures Horner(a, b, c, d) == 0 <==> a == 0 && b == 0 && c == 0 && d == 0
  {
    ValueFour([a, b, c, d]);
    ValueBound([a, b, c, d]);
  }

  method Lt(z: array<Word>, x: array<Word>) returns (r: bool)
    requires IsUint(z) && IsUint(x)
    ensures r <==> Val(z) < Val(x)
  {
    var _, _, _, _, carry := BorrowChain(z, x);
    r := carry != 0;
  }

  // -1, 0 or 1 as z is below, equal to or above x.
  method Cmp(z: array<Word>, x: array<Word>) returns (r: int)
    requires IsUint(z) && IsUint(x)
    ensures r == if Val(z) < Val(x) then -1 else if Val(z) == Val(x) then 0 else 1
  {
    hide Value, Weight, Horner;
    var d0, d1, d2, d3, carry := BorrowChain(z, x);
    HornerBound(d0, d1, d2, d3);
    if carry == 1 { return -1; }
    OrIsZero(d0, d1);
    OrIsZero(Or(d0, d1), d2);
    OrIsZero(Or(Or(d0, d1), d2), d3);
    if Or(Or(Or(d0, d1), d2), d3) == 0 { return 0; }
    return 1;
  }

  method IsZero(z: array<Word>) returns (r: bool)
    requires IsUint(z)
    ensures r <==> Val(z) == 0
  {
    hide Value, Weight, Horner;
    ValRange(z);
    HornerBound(z[0], z[1], z[2], z[3]);
    OrIsZero(z[0], z[1]);
    OrIsZero(Or(z[0], z[1]), z[2]);
    OrIsZero(Or(Or(z[0], z[1]), z[2]), z[3]);
    r := Or(Or(Or(z[0], z[1]), z[2]), z[3]) == 0;
  }

  method IsUint64(z: array<Word>) returns (r: bool)
    requires IsUint(z)
    ensures r <==> Val(z) < B
    ensures r ==> Val(z) == z[0]
  {
    hide Value, Weight;
    ValRange(z);
    OrIsZero(z[1], z[2]);
    OrIsZero(Or(z[1], z[2]), z[3]);
    r := Or(Or(z[1], z[2]), z[3]) == 0;
  }

  method Eq(z: array<Word>, x: array<Word>) returns (r: bool)
    requires IsUint(z) && IsUint(x)
    ensures r <==> Val(z) == Val(x)
  {
    r := z[0] == x[0] && z[1] == x[1] && z[2] == x[2] && z[3] == x[3];
    if r {
      assert z[..] == x[..];
    } else {
      DifferentWords(z[..], x[..]);
    }
  }

  lemma DifferentWords(s: seq<Word>, t: seq<Word>)
    requires |s| == |t| == 4 && !(s[0] == t[0] && s[1] == t[1] && s[2] == t[2] && s[3] == t[3])
    ensures Value(s) != Value(t)
  {
    if Value(s) == Value(t) { ValueInjective(s, t); }
  }

  method SetUint64(z: array<Word>, x: Word)
    requires IsUint(z)
    modifies z
    ensures Val(z) == x
  {
    z[3], z[2], z[1], z[0] := 0, 0, 0, x;
    ValueFour(z[..]);
  }

  method Set(z: array<Word>, x: array<Word>)
    requires IsUint(z) && IsUint(x)
    modifies z
    ensures z[..] == old(x[..])
  {
    z[0], z[1], z[2], z[3] := x[0], x[1], x[2], x[3];
    assert z[..] == old(x[..]);
  }

  // Four of the words of a longer number, as a number of its own.
  method FourWords(p: array<Word>, k: nat) returns (z: array<Word>)
    requires k + 4 <= p.Length
    ensures fresh(z) && IsUint(z) && z[..] == p[..][k..k + 4]
  {
    z := new Word[4](_ => 0);
    z[0], z[1], z[2], z[3] := p[k], p[k + 1], p[k + 2], p[k + 3];
    assert z[..] == p[..][k..k + 4];
  }

  method NewUint(x: Word) returns (z: array<Word>)
    ensures fresh(z) && IsUint(z) && Val(z) == x
  {
    z := new Word[4](_ => 0);
    SetUint64(z, x);
  }

  // The low words are the product modulo 2^256; overflow says whether anything was lost.
  method MulOverflow(z: array<Word>, x: array<Word>, y: array<Word>) returns (overflow: bool)
    requires IsUint(z) && IsUint(x) && IsUint(y)
    modifies z
    ensures overflow <==> old(Val(x)) * old(Val(y)) >= Weight(4)
    ensures Val(z) == old(Val(x)) * old(Val(y)) % Weight(4)
  {
    hide Value, Weight;
    var p := UMul(x, y);
    ghost var xv, yv := Val(x), Val(y);
    HighHalf(p[..]);
    z[0], z[1], z[2], z[3] := p[0], p[1], p[2], p[3];
    assert z[..] == p[..][..4];
    ValueBound(p[..][..4]);
    DivUnique(xv * yv, Weight(4), Value(p[..][4..]), Val(z));
    overflow := Or(Or(Or(p[4], p[5]), p[6]), p[7]) != 0;
  }

  // An eight-word number and whether its upper half is all zero.
  lemma HighHalf(p: seq<Word>)
    requires |p| == 8
    ensures Value(p) == Value(p[4..]) * Weight(4) + Value(p[..4])
    ensures Or(Or(Or(p[4], p[5]), p[6]), p[7]) == 0 <==> Value(p[4..]) == 0
    ensures Value(p[4..]) == 0 <==> Value(p) < Weight(4)
    ensures Value(p[4..]) == 0 ==> Value(p) == Value(p[..4])
  {
    hide Value, Weight, Horner;
    ValueSplit(p, 4);
    ValueBound(p[..4]);
    ValueFour(p[4..]);
    HornerBound(p[4], p[5], p[6], p[7]);
    OrIsZero(p[4], p[5]);
    OrIsZero(Or(p[4], p[5]), p[6]);
    OrIsZero(Or(Or(p[4], p[5]), p[6]), p[7]);
    if Value(p[4..]) > 0 { MulLe(1, Value(p[4..]), Weight(4)); }
  }

  lemma NonZeroHasWords(d: seq<Word>)
    requires Value(d) > 0
    ensures SigLen(d) > 0
  {
    if SigLen(d) == 0 { ValueZeros(d); }
  }

  // Division by zero panics; a panic leaves everything as it was.
  method Div(z: array<Word>, x: array<Word>, y: array<Word>) returns (panic: bool)
    requires IsUint(z) && IsUint(x) && IsUint(y)
    modifies z
    ensures panic <==> old(Val(y)) == 0
    ensures panic ==> z[..] == old(z[..])
    ensures !panic ==> Val(z) == old(Val(x)) / old(Val(y))
  {
    hide Value, Weight, SigLen;
    var yZero := IsZero(y);
    if yZero { return true; }
    ghost var xv, yv := Val(x), Val(y);
    panic := false;
    var less := Lt(x, y);
    if less {
      DivUnique(xv, yv, 0, xv);
      SetUint64(z, 0);
      return;
    }
    var equal := Eq(x, y);
    if equal {
      DivUnique(xv, yv, 1, 0);
      SetUint64(z, 1);
      return;
    }
    var small := IsUint64(x);
    if small {
      LowWord(y[..]);
      SmallQuotient(x[0], y[0]);
      SetUint64(z, x[0] / y[0]);
      return;
    }
    var quot := new Word[4](_ => 0);
    NonZeroHasWords(y[..]);
    var rem := UDivRem(quot, x, y);
    DivUnique(xv, yv, Val(quot), Val(rem));
    Set(z, quot);
  }

  // y[0] is the whole of a y that is below 2^64.
  lemma LowWord(y: seq<Word>)
    requires |y| == 4
    ensures Value(y) < B ==> Value(y) == y[0]
  {
    ValueFour(y);
  }

  lemma SmallQuotient(x: Word, y: Word)
    requires y > 0
    ensures 0 <= x / y < B && 0 <= x % y < B
  {
    QuotientNonNegative(x, y);
  }

  method Mod(z: array<Word>, x: array<Word>, y: array<Word>) returns (panic: bool)
    requires IsUint(z) && IsUint(x) && IsUint(y)
    modifies z
    ensures panic <==> old(Val(y)) == 0
    ensures panic ==> z[..] == old(z[..])
    ensures !panic ==> Val(z) == old(Val(x)) % old(Val(y))
  {
    hide Value, Weight, SigLen;
    var yZero := IsZero(y);
    if yZero { return true; }
    ghost var xv, yv := Val(x), Val(y);
    panic := false;
    var xZero := IsZero(x);
    if xZero {
      SetUint64(z, 0);
      return;
    }
    var c := Cmp(x, y);
    if c == -1 {
      DivUnique(xv, yv, 0, xv);
      Set(z, x);
      return;
    }
    if c == 0 {
      DivUnique(xv, yv, 1, 0);
      SetUint64(z, 0);
      return;
    }
    var small := IsUint64(x);
    if small {
      LowWord(y[..]);
      SmallQuotient(x[0], y[0]);
      SetUint64(z, x[0] % y[0]);
      return;
    }
    var quot := new Word[4](_ => 0);
    NonZeroHasWords(y[..]);
    var rem := UDivRem(quot, x, y);
    DivUnique(xv, yv, Val(quot), Val(rem));
    Set(z, rem);
  }

  // Quotient to z and remainder to m. When x is below y the code clears z before it copies x
  // to m, so a remainder is lost exactly when z is x itself and 0 < x < y.
  method DivMod(z: array<Word>, x: array<Word>, y: array<Word>, m: array<Word>) returns (panic: bool)
    requires IsUint(z) && IsUint(x) && IsUint(y) && IsUint(m) && z != m
    modifies z, m
    ensures panic <==> old(Val(y)) == 0
    ensures panic ==> z[..] == old(z[..]) && m[..] == old(m[..])
    ensures !panic ==> Val(z) == old(Val(x)) / old(Val(y))
    ensures !panic ==> Val(m) == if z == x && old(Val(x) < Val(y)) then 0 else old(Val(x)) % old(Val(y))
    ensures !panic ==> (Val(m) == old(Val(x)) % old(Val(y)) <==> !(z == x && 0 < old(Val(x)) < old(Val(y))))
  {
    hide Value, Weight, SigLen;
    var yZero := IsZero(y);
    if yZero { return true; }
    ghost var xv, yv := Val(x), Val(y);
    panic := false;
    var c := Cmp(x, y);
    if c == -1 {
      DivUnique(xv, yv, 0, xv);
      SetUint64(z, 0);
      Set(m, x);
      return;
    }
    if c == 0 {
      DivUnique(xv, yv, 1, 0);
      SetUint64(z, 1);
      SetUint64(m, 0);
      return;
    }
    var small := IsUint64(x);
    if small {
      LowWord(y[..]);
      SmallQuotient(x[0], y[0]);
      var x0, y0 := x[0], y[0];
      SetUint64(z, x0 / y0);
      SetUint64(m, x0 % y0);
      return;
    }
    var quot := new Word[4](_ => 0);
    NonZeroHasWords(y[..]);
    var rem := UDivRem(quot, x, y);
    DivUnique(xv, yv, Val(quot), Val(rem));
    Set(m, rem);
    Set(z, quot);
  }

  // The remainder of 1 by 2 comes out as zero when the quotient replaces the dividend.
  method RemainderLost() returns (panic: bool, z: array<Word>, y: array<Word>, m: array<Word>)
    ensures !panic && IsUint(z) && IsUint(y) && IsUint(m)
    ensures Val(z) == 0 && Val(y) == 2 && Val(m) == 0 && 1 % Val(y) == 1
  {
    hide Value;
    z := NewUint(1);
    y := NewUint(2);
    m := NewUint(0);
    panic := DivMod(z, z, y, m);
  }
}
