// Shifts by less than a word of whole limb sequences.
module Shifts {
  import opened Arith
  import opened Words
  import opened Limbs
  import opened Bits

  // Whole words are powers of 2^64.
  lemma {:induction false} PowerOfTwoWeight(n: nat)
    ensures Weight(n) == Pow2(64 * n)
  {
    if n > 0 {
      PowerOfTwoWeight(n - 1);
      Pow2Add(64, 64 * (n - 1));
      Pow2Word();
    }
  }

  // x << s with the bits that come up from the word below it.
  function ShlWord(x: Word, below: Word, s: nat): (r: Word)
    requires s <= 64
  {
    Or(Shl(x, s), Shr(below, 64 - s))
  }

  // x >> s with the bits that come down from the word above it.
  function ShrWord(x: Word, above: Word, s: nat): (r: Word)
    requires s <= 64
  {
    Or(Shr(x, s), Shl(above, 64 - s))
  }

  lemma ShlWordSum(x: Word, below: Word, s: nat)
    requires s < 64
    ensures ShlWord(x, below, s) == Shl(x, s) + Shr(below, 64 - s)
  {
    ShlSplit(x, s);
    ShlSplit(below, s);
    Pow2Word();
    OrDisjoint(64, s, x % Pow2(64 - s), Shr(below, 64 - s));
  }

  lemma {:induction false} OrCommutes(n: nat, x: nat, y: nat)
    ensures Bitwise(OrGate, n, x, y) == Bitwise(OrGate, n, y, x)
  {
    if n > 0 {
      OrCommutes(n - 1, x / 2, y / 2);
    }
  }

  lemma ShrWordSum(x: Word, above: Word, s: nat)
    requires s < 64
    ensures ShrWord(x, above, s) == Shr(x, s) + Shl(above, 64 - s)
    ensures Shl(above, 64 - s) * Pow2(s) == (above % Pow2(s)) * B
  {
    ShlSplit(above, 64 - s);
    ShlSplit(x, 64 - s);
    Pow2Word();
    var t := above % Pow2(s);
    OrDisjoint(64, 64 - s, t, Shr(x, s));
    OrCommutes(64, Shr(x, s), Shl(above, 64 - s));
    Pow2Complement(s);
    Associate(t, Pow2(64 - s), Pow2(s));
  }

  ghost predicate ShiftedUp(src: seq<Word>, out: seq<Word>, s: nat)
    requires s < 64
  {
    0 < |src| == |out| && out[0] == Shl(src[0], s) &&
    forall k :: 0 < k < |src| ==> out[k] == ShlWord(src[k], src[k - 1], s)
  }

  lemma {:induction false} ShiftedUpValue(src: seq<Word>, out: seq<Word>, s: nat)
    requires s < 64 && ShiftedUp(src, out, s)
    ensures Value(out) + Weight(|src|) * Shr(src[|src| - 1], 64 - s) == Value(src) * Pow2(s)
  {
    var n := |src| - 1;
    var x := src[n];
    ShlSplit(x, s);
    SliceSnoc(src, 0, n);
    SliceSnoc(out, 0, n);
    assert src[0..n + 1] == src && out[0..n + 1] == out;
    if n == 0 {
      assert src[0..0] == [] && out[0..0] == [];
    } else {
      ShiftedUpValue(src[..n], out[..n], s);
      ShlWordSum(x, src[n - 1], s);
      assert src[0..n] == src[..n] && out[0..n] == out[..n];
      UpStep(Weight(n), Value(out[..n]), Shr(src[n - 1], 64 - s), Value(src[..n]), Pow2(s), x,
             Shr(x, 64 - s), Shl(x, s));
    }
  }

  lemma UpStep(w: int, o: int, c: int, v: int, p: int, x: int, h: int, l: int)
    requires o + w * c == v * p
    requires x * p == h * B + l
    ensures o + w * (l + c) + (B * w) * h == (v + w * x) * p
  {
    assert w * (x * p) == w * (h * B + l);
    assert (v + w * x) * p == v * p + w * (x * p);
  }

  ghost predicate ShiftedDown(src: seq<Word>, out: seq<Word>, s: nat)
    requires s < 64
  {
    0 < |src| == |out| && out[|src| - 1] == Shr(src[|src| - 1], s) &&
    forall k :: 0 <= k < |src| - 1 ==> out[k] == ShrWord(src[k], src[k + 1], s)
  }

  lemma {:induction false} ShiftedDownValue(src: seq<Word>, out: seq<Word>, s: nat)
    requires s < 64 && ShiftedDown(src, out, s)
    ensures Value(out) * Pow2(s) + src[0] % Pow2(s) == Value(src)
  {
    var p, x := Pow2(s), src[0];
    assert x == Shr(x, s) * p + x % p;
    if |src| == 1 {
      ValueSingle(x);
      ValueSingle(out[0]);
      assert src == [x] && out == [out[0]];
    } else {
      ShiftedDownValue(src[1..], out[1..], s);
      ShrWordSum(x, src[1], s);
      DownStep(p, x, Shr(x, s), x % p, Shl(src[1], 64 - s), src[1] % p, Value(src[1..]), Value(out[1..]));
    }
  }

  lemma DownStep(p: int, x: int, h: int, l: int, t: int, l': int, v: int, o: int)
    requires x == h * p + l
    requires t * p == l' * B
    requires o * p + l' == v
    ensures (h + t + B * o) * p + l == x + B * v
  {
    assert B * (o * p + l') == B * v;
    assert (h + t + B * o) * p == h * p + t * p + B * (o * p);
  }
}
