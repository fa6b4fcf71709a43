// Little-endian sequences of words as numbers.
module Limbs {
  import opened Arith
  import opened Words

  function Value(s: seq<Word>): (v: nat)
  {
    if |s| == 0 then 0 else s[0] + B * Value(s[1..])
  }

  // The weight of position n.
  function Weight(n: nat): (w: nat)
    ensures w > 0
  {
    Pow(B, n)
  }

  lemma {:induction false} ValueConcat(s: seq<Word>, t: seq<Word>)
    ensures Value(s + t) == Value(s) + Weight(|s|) * Value(t)
  {
    if |s| == 0 {
      assert s + t == t;
    } else {
      assert (s + t)[1..] == s[1..] + t;
      ValueConcat(s[1..], t);
      Associate(B, Weight(|s| - 1), Value(t));
    }
  }

  lemma {:induction false} ValueBound(s: seq<Word>)
    ensures Value(s) < Weight(|s|)
  {
    if |s| > 0 {
      ValueBound(s[1..]);
    }
  }

  lemma ValueSplit(s: seq<Word>, k: nat)
    requires k <= |s|
    ensures Value(s) == Value(s[..k]) + Weight(k) * Value(s[k..])
  {
    assert s == s[..k] + s[k..];
    ValueConcat(s[..k], s[k..]);
  }

  lemma ValueSingle(x: Word)
    ensures Value([x]) == x
  {
    assert [x][1..] == [];
  }

  // Appending a most significant word.
  lemma ValueSnoc(s: seq<Word>, x: Word)
    ensures Value(s + [x]) == Value(s) + Weight(|s|) * x
  {
    ValueConcat(s, [x]);
    ValueSingle(x);
  }

  // Prepending a least significant word.
  lemma ValueCons(x: Word, s: seq<Word>)
    ensures Value([x] + s) == x + B * Value(s)
  {
    assert ([x] + s)[1..] == s;
  }

  lemma {:induction false} ValueZeros(s: seq<Word>)
    requires forall k :: 0 <= k < |s| ==> s[k] == 0
    ensures Value(s) == 0
  {
    if |s| > 0 {
      ValueZeros(s[1..]);
    }
  }

  lemma {:induction false} ValueZeroOnly(s: seq<Word>)
    requires Value(s) == 0
    ensures forall k :: 0 <= k < |s| ==> s[k] == 0
  {
    if |s| > 0 {
      ValueZeroOnly(s[1..]);
    }
  }

  // Two sequences of the same length with the same value are the same.
  lemma {:induction false} ValueInjective(s: seq<Word>, t: seq<Word>)
    requires |s| == |t| && Value(s) == Value(t)
    ensures s == t
  {
    if |s| > 0 {
      var a, b := Value(s[1..]), Value(t[1..]);
      assert s[0] - t[0] == B * (b - a);
      assert a == b;
      ValueInjective(s[1..], t[1..]);
      assert s == [s[0]] + s[1..] && t == [t[0]] + t[1..];
    }
  }

  lemma ValueTopTwo(s: seq<Word>)
    requires 2 <= |s|
    ensures var k := |s| - 2;
            Value(s) == Weight(k) * (s[k + 1] * B + s[k]) + Value(s[..k])
  {
    var k := |s| - 2;
    ValueSplit(s, k);
    ValueTwo(s[k..]);
    assert Value(s[k..]) == s[k + 1] * B + s[k];
  }

  lemma ValueTwo(s: seq<Word>)
    requires |s| == 2
    ensures Value(s) == s[1] * B + s[0]
  {
    assert s[1..] == [s[1]];
    ValueSingle(s[1]);
  }

  lemma ValueTopThree(s: seq<Word>)
    requires 3 <= |s|
    ensures var k := |s| - 3;
            Value(s) == Weight(k) * ((s[k + 2] * B + s[k + 1]) * B + s[k]) + Value(s[..k])
  {
    var k := |s| - 3;
    ValueSplit(s, k);
    assert s[k..][1..] == s[k + 1..];
    ValueTwo(s[k + 1..]);
    assert Value(s[k..]) == (s[k + 2] * B + s[k + 1]) * B + s[k];
  }

  lemma TopDominates(w: int, a: int, x: int, b: int, y: int)
    requires 0 <= a < w && 0 <= b < w
    ensures x < y ==> a + w * x < b + w * y
  {
    if x < y { MulLe(x + 1, y, w); }
  }

  lemma TopWordOrder(s: seq<Word>, t: seq<Word>)
    requires |s| == |t| > 0
    ensures Value(s) <= Value(t) ==> s[|s| - 1] <= t[|s| - 1]
    ensures s[|s| - 1] < t[|s| - 1] ==> Value(s) < Value(t)
  {
    var k := |s| - 1;
    assert s == s[..k] + [s[k]] && t == t[..k] + [t[k]];
    ValueSnoc(s[..k], s[k]);
    ValueSnoc(t[..k], t[k]);
    ValueBound(s[..k]);
    ValueBound(t[..k]);
    TopDominates(Weight(k), Value(s[..k]), s[k], Value(t[..k]), t[k]);
    TopDominates(Weight(k), Value(t[..k]), t[k], Value(s[..k]), s[k]);
  }

  // One more word of a window that starts at position j.
  lemma SliceSnoc(s: seq<Word>, j: nat, i: nat)
    requires j + i < |s|
    ensures Value(s[j..j + i + 1]) == Value(s[j..j + i]) + Weight(i) * s[j + i]
  {
    assert s[j..j + i + 1] == s[j..j + i] + [s[j + i]];
    ValueSnoc(s[j..j + i], s[j + i]);
  }

  lemma SliceCons(s: seq<Word>, j: nat, n: nat)
    requires j < n <= |s|
    ensures Value(s[j..n]) == s[j] + B * Value(s[j + 1..n])
  {
    assert s[j..n][1..] == s[j + 1..n];
  }

  // Zero words at the top count for nothing.
  lemma ValuePadded(s: seq<Word>, n: nat)
    requires n <= |s| && forall k :: n <= k < |s| ==> s[k] == 0
    ensures Value(s) == Value(s[..n])
  {
    ValueSplit(s, n);
    ValueZeros(s[n..]);
  }

  function Horner(a: int, b: int, c: int, d: int): int
  {
    a + B * (b + B * (c + B * d))
  }

  lemma ValueFour(s: seq<Word>)
    requires |s| == 4
    ensures Value(s) == Horner(s[0], s[1], s[2], s[3])
  {
    assert s[1..][1..] == s[2..];
    ValueTwo(s[2..]);
  }

  function Horner5(a: int, b: int, c: int, d: int, e: int): int
  {
    a + B * (b + B * (c + B * (d + B * e)))
  }

  lemma ValueFive(s: seq<Word>)
    requires |s| == 5
    ensures Value(s) == Horner5(s[0], s[1], s[2], s[3], s[4])
  {
    ValueFour(s[1..]);
  }
}
