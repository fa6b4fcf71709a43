// Small facts of non-linear integer arithmetic, each stated on its own so that no
// other proof has to reason about products or quotients of unknowns.
module Arith {
  lemma MulLe(a: int, b: int, c: int)
    requires a <= b && 0 <= c
    ensures a * c <= b * c
  {
  }

  lemma MulBoth(a: int, b: int, c: int, d: int)
    requires 0 <= a <= b && 0 <= c <= d
    ensures 0 <= a * c <= b * d
  {
    MulLe(a, b, c);
    MulLe(c, d, b);
  }

  lemma Distribute(a: int, b: int, c: int)
    ensures (a + b) * c == a * c + b * c
    ensures (a - b) * c == a * c - b * c
  {
  }

  lemma Associate(a: int, b: int, c: int)
    ensures (a * b) * c == a * (b * c)
  {
  }

  // The quotient and remainder are determined by the division identity.
  lemma DivUnique(a: int, d: int, q: int, r: int)
    requires 0 < d
    requires a == q * d + r && 0 <= r < d
    ensures a / d == q && a % d == r
  {
    var q', r' := a / d, a % d;
    assert a == q' * d + r';
    Distribute(q, q', d);
    assert (q - q') * d == r' - r;
    if q > q' { MulLe(1, q - q', d); }
    if q < q' { MulLe(q - q', -1, d); }
  }

  function Pow(base: nat, e: nat): (p: nat)
    ensures base > 0 ==> p > 0
  {
    if e == 0 then 1 else base * Pow(base, e - 1)
  }

  lemma {:induction false} PowAdd(base: nat, e: nat, f: nat)
    ensures Pow(base, e + f) == Pow(base, e) * Pow(base, f)
  {
    if e > 0 {
      PowAdd(base, e - 1, f);
      Associate(base, Pow(base, e - 1), Pow(base, f));
    }
  }

  lemma {:induction false} PowMono(base: nat, e: nat, f: nat)
    requires base > 0 && e <= f
    ensures Pow(base, e) <= Pow(base, f)
  {
    if e < f {
      PowMono(base, e, f - 1);
      MulLe(1, base, Pow(base, f - 1));
    }
  }
}
