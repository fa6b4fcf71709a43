// Products of words added into columns, with their carries.
module Columns {
  import opened Words

  // A product of two words, kept as one term while the columns are added up.
  function Product(x: int, y: int): int
  {
    x * y
  }

  lemma ProductLimit(x: Word, y: Word)
    ensures 0 <= Product(x, y) <= B * B - 2 * B + 1
  {
    ProductBound(x, y);
  }

  // a:b += x * y + carry, the carry out returned.
  method MulAccumulate(a: Word, b: Word, x: Word, y: Word, carry: int) returns (a': Word, b': Word, c: int)
    requires 0 <= carry <= 1
    ensures 0 <= c <= 1
    ensures a' + B * (b' + B * c) == a + B * b + Product(x, y) + carry
  {
    var hi, lo := Mul64(x, y);
    a', c := Add64(a, lo, carry);
    b', c := Add64(b, hi, c);
  }

  // a += x * y + carry, with a new top word that takes the rest.
  method MulTop(a: Word, x: Word, y: Word, carry: int) returns (a': Word, top: Word)
    requires 0 <= carry <= 1
    ensures a' + B * top == a + Product(x, y) + carry
  {
    ProductBound(x, y);
    var hi, lo := Mul64(x, y);
    var c, lost;
    a', c := Add64(a, lo, carry);
    top, lost := Add64(hi, 0, c);
  }

  method MulHigh(x: Word, y: Word) returns (hi: Word)
    ensures hi * B <= Product(x, y) < (hi + 1) * B
  {
    var lo;
    hi, lo := Mul64(x, y);
  }

  // A carry into a top word that has room for it.
  method AddTop(top: Word, carry: int) returns (top': Word)
    requires 0 <= carry <= 1 && top + carry < B
    ensures top' == top + carry
  {
    var lost;
    top', lost := Add64(top, 0, carry);
  }

  method MulFull(x: Word, y: Word) returns (hi: Word, lo: Word)
    ensures lo + B * hi == Product(x, y)
  {
    hi, lo := Mul64(x, y);
  }

  // a += lo(x * y) + carry in the last word kept, with what is lost.
  method AddLow(a: Word, x: Word, y: Word, carry: int) returns (a': Word, ghost lost: int)
    requires 0 <= carry <= 1
    ensures a' + B * lost == a + Product(x, y) + carry
  {
    var hi, lo := Mul64(x, y);
    ghost var c;
    a', c := Add64(a, lo, carry);
    lost := c + hi;
  }

  // The last word takes a carry and a high half, and loses its own carry.
  method AddLast(a: Word, t: Word, carry: int) returns (a': Word, ghost lost: int)
    requires 0 <= carry <= 1
    ensures a' + B * lost == a + t + carry
  {
    a', lost := Add64(a, t, carry);
  }
}
