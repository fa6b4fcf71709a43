// What the encoder writes, by the ABI specification: each word as a number, bytes padded with zeros, and
// arrays as their length in front of a tuple.
module AbiMeaning {
  import opened Arith
  import opened Words
  import Limbs
  import opened Bytes
  import opened Wrappers
  import opened AbiTypes
  import opened AbiEncode
  import opened AbiShape
  import opened AbiRoundTrip
  import opened AbiReference

  lemma Uint64Number(v: Word)
    ensures FromBigEndian(Uint64Word(v)) == v
  {
    LeadingZeros(ZeroBytes(24), BigEndian(v, 8));
    Pow256Eight();
    BigEndianRoundTrip(v, 8);
  }

  lemma Uint256Number(x: Limbs4)
    ensures FromBigEndian(Uint256Word(x)) == Limbs.Value(x)
  {
    hide FromBigEndian, Pow256, BigEndian;
    var w3, w2, w1, w0 := BigEndian(x[3], 8), BigEndian(x[2], 8), BigEndian(x[1], 8), BigEndian(x[0], 8);
    FromBigEndianConcat(w3 + w2 + w1, w0);
    FromBigEndianConcat(w3 + w2, w1);
    FromBigEndianConcat(w3, w2);
    Pow256Eight();
    BigEndianRoundTrip(x[3], 8);
    BigEndianRoundTrip(x[2], 8);
    BigEndianRoundTrip(x[1], 8);
    BigEndianRoundTrip(x[0], 8);
    Limbs.ValueFour(x);
  }

  // A value of an elementary static type is one word: its number, a flag as 1 or 0, an address as the
  // number of its 20 bytes, and 32 bytes as they are.
  lemma ElementaryMeaning(f: Field, v: Value)
    requires ValueEncoding(f, v).Ok? && !IsDynamic(f) && !f.typ.TStruct?
    ensures var e := ValueEncoding(f, v).value;
            && |e| == 32
            && match f.typ
               case TUint8 => v.U8? && FromBigEndian(e) == v.n8
               case TUint32 => v.U32? && FromBigEndian(e) == v.n32
               case TUint64 => v.U64? && FromBigEndian(e) == v.n64
               case TUint256 => v.U256? && FromBigEndian(e) == Limbs.Value(v.limbs)
               case TBytes32 => v.Fixed32? && e == v.fixed
               case TBool => v.Flag? && FromBigEndian(e) == if v.flag then 1 else 0
               case TAddress => v.Blob? && |v.bytes| == 20 && FromBigEndian(e) == FromBigEndian(v.bytes)
               case _ => false
  {
    hide Uint64Word, Uint256Word, FromBigEndian, Limbs.Value, StaticHeadSize;
    match f.typ
    case TUint8 => Uint64Number(v.n8);
    case TUint32 => Uint64Number(v.n32);
    case TUint64 => Uint64Number(v.n64);
    case TUint256 => Uint256Number(v.limbs);
    case TBool => Uint64Number(if v.flag then 1 else 0);
    case TAddress => LeadingZeros(ZeroBytes(12), v.bytes);
    case _ =>
  }

  // A string of bytes is its length, the bytes, and zeros up to the next whole word and no further.
  predicate IsPadded(e: seq<Byte>, b: seq<Byte>)
  {
    && |e| == 32 + (|b| + 31) / 32 * 32
    && WordIs(e, 0, |b|)
    && e[32..32 + |b|] == b
    && forall k :: 32 + |b| <= k < |e| ==> e[k] == 0
  }

  lemma BytesArePadded(b: seq<Byte>)
    requires |b| < B
    ensures IsPadded(BytesEncoding(b), b)
  {
    hide Uint64Word, FromBigEndian;
    var e := BytesEncoding(b);
    Uint64Number(|b|);
    assert e[0..32] == LengthWord(|b|);
    RoundedLength(|b|);
    forall k | 32 + |b| <= k < |e| ensures e[k] == 0 {
      assert e[k] == ZeroBytes(PadLength(|b|))[k - 32 - |b|];
    }
  }

  lemma RoundedLength(n: nat)
    ensures n + PadLength(n) == (n + 31) / 32 * 32
  {
    var q, r := n / 32, n % 32;
    assert n == 32 * q + r;
    if r == 0 { assert (n + 31) / 32 == q; } else { assert (n + 31) / 32 == q + 1; }
  }

  lemma BytesMeaning(f: Field, v: Value)
    requires ValueEncoding(f, v).Ok? && (f.typ.TBytes? || f.typ.TString?)
    ensures f.typ.TBytes? ==> v.Blob? && (|v.bytes| < B ==> IsPadded(ValueEncoding(f, v).value, v.bytes))
    ensures f.typ.TString? ==> v.Text? && (|v.text| < B ==> IsPadded(ValueEncoding(f, v).value, v.text))
  {
    hide BytesEncoding, IsPadded;
    if f.typ.TBytes? {
      if |v.bytes| < B { BytesArePadded(v.bytes); }
    } else {
      if |v.text| < B { BytesArePadded(v.text); }
    }
  }

  // ---- structs and arrays ----

  // Bytes, strings and arrays are dynamic, and so is a struct with a dynamic field; nothing else is, but
  // for a struct without schema, which has no values.
  lemma WhatIsDynamic(f: Field)
    ensures f.typ.TBytes? || f.typ.TString? || f.typ.TArray? ==> IsDynamic(f)
    ensures f.typ.TStruct? && f.sub.Some? ==> (IsDynamic(f) <==> exists g <- f.sub.value.fields :: IsDynamic(g))
    ensures f.typ in {TUint8, TUint32, TUint64, TUint256, TBytes32, TBool, TAddress} ==> !IsDynamic(f)
  {
    if f.typ.TStruct? && f.sub.Some? { SomeDynamic(f.sub.value.fields); }
  }

  lemma {:induction false} SomeDynamic(fields: seq<Field>)
    ensures AnyDynamic(fields) <==> exists g <- fields :: IsDynamic(g)
  {
    hide IsDynamic;
    if |fields| > 0 {
      SomeDynamic(fields[1..]);
      assert fields[0] in fields && forall g <- fields[1..] :: g in fields;
      if g :| g in fields && IsDynamic(g) {
        var i :| 0 <= i < |fields| && fields[i] == g;
        assert i > 0 ==> fields[1..][i - 1] == g;
      }
    }
  }

  function Repeated(f: Field, n: nat): (r: seq<Field>)
    ensures |r| == n
  {
    seq(n, _ => f)
  }

  lemma {:induction false} PartsOfItems(elem: Field, values: seq<Value>, headLen: nat, tailLen: nat)
    ensures ItemParts(elem, values, headLen, tailLen)
         == FieldParts(Repeated(elem, |values|), values, headLen, tailLen)
    decreases values
  {
    hide LengthWord, ValueEncoding, IsDynamic;
    if |values| > 0 {
      assert Repeated(elem, |values|)[1..] == Repeated(elem, |values[1..]|);
      var e := ValueEncoding(elem, values[0]);
      if e.Ok? {
        PartsOfItems(elem, values[1..], headLen, tailLen + if IsDynamic(elem) then |e.value| else 0);
      }
    }
  }

  lemma {:induction false} RepeatedHead(f: Field, n: nat)
    ensures HeadLength(Repeated(f, n)).value == n * StaticHeadSize(f).value
  {
    hide StaticHeadSize;
    if n > 0 {
      assert Repeated(f, n)[1..] == Repeated(f, n - 1);
      RepeatedHead(f, n - 1);
      Distribute(n - 1, 1, StaticHeadSize(f).value);
    }
  }

  // Without dynamic fields the length of the head leaves no trace.
  lemma {:induction false} StaticParts(f: Field, values: seq<Value>, headLen: nat, headLen': nat)
    requires !IsDynamic(f)
    ensures FieldParts(Repeated(f, |values|), values, headLen, 0) == FieldParts(Repeated(f, |values|), values, headLen', 0)
    decreases values
  {
    hide LengthWord, ValueEncoding, IsDynamic;
    if |values| > 0 {
      assert Repeated(f, |values|)[1..] == Repeated(f, |values[1..]|);
      StaticParts(f, values[1..], headLen, headLen');
    }
  }

  // An array is its length, and then its elements like a tuple whose fields all have one type.
  lemma ArrayIsTuple(elem: Field, values: seq<Value>)
    ensures var t := TupleEncoding(Repeated(elem, |values|), values);
            ArrayEncoding(elem, values) == if t.Err? then Err(t.error) else Ok(LengthWord(|values|) + t.value)
  {
    hide LengthWord, FieldParts, ItemParts, HeadLength, IsDynamic, StaticHeadSize;
    var n := |values|;
    PartsOfItems(elem, values, n * WORD, 0);
    RepeatedHead(elem, n);
    if IsDynamic(elem) { DynamicHeadSize(elem); } else { StaticParts(elem, values, n * WORD, HeadLength(Repeated(elem, n)).value); }
    var p := ItemParts(elem, values, n * WORD, 0);
    if p.Ok? { assert LengthWord(n) + p.value.head + p.value.tail == LengthWord(n) + (p.value.head + p.value.tail); }
  }

  // Nothing stands in a tuple but the heads and the tails.
  lemma TupleLength(fields: seq<Field>, values: seq<Value>)
    requires TupleEncoding(fields, values).Ok?
    ensures |fields| == |values|
    ensures |TupleEncoding(fields, values).value| == HeadLength(fields).value + TailLength(fields, values)
  {
    hide FieldParts, HeadLength, TailLength, AnyDynamic, Aligned;
    PartsLength(fields, values, HeadLength(fields).value, 0);
    TailIs(fields, values, HeadLength(fields).value, 0);
  }

  lemma {:induction false} TailIs(fields: seq<Field>, values: seq<Value>, headLen: nat, tailLen: nat)
    requires |fields| == |values| && FieldParts(fields, values, headLen, tailLen).Ok?
    ensures |FieldParts(fields, values, headLen, tailLen).value.tail| == TailLength(fields, values)
    decreases values
  {
    hide LengthWord, ValueEncoding, IsDynamic;
    if |fields| > 0 {
      var e := ValueEncoding(fields[0], values[0]).value;
      TailIs(fields[1..], values[1..], headLen, tailLen + if IsDynamic(fields[0]) then |e| else 0);
    }
  }

  // Element i of an array: a static one behind the elements before it; a dynamic one where its offset says,
  // counted from behind the length.
  lemma ArrayLayout(elem: Field, values: seq<Value>, i: nat)
    requires ArrayEncoding(elem, values).Ok? && i < |values|
    ensures ValueEncoding(elem, values[i]).Ok?
    ensures var e, n := ArrayEncoding(elem, values).value, |values|;
            var tail := TailLength(Repeated(elem, i), values[..i]);
            if IsDynamic(elem) then
              At(e, 32 + 32 * i, LengthWord(32 * n + tail)) && At(e, 32 + 32 * n + tail, ValueEncoding(elem, values[i]).value)
            else At(e, 32 + i * StaticHeadSize(elem).value, ValueEncoding(elem, values[i]).value)
    ensures |ArrayEncoding(elem, values).value|
         == 32 + |values| * StaticHeadSize(elem).value + TailLength(Repeated(elem, |values|), values)
  {
    hide LengthWord, TupleEncoding, ArrayEncoding, HeadLength, TailLength, ValueEncoding, At, IsDynamic, StaticHeadSize;
    var n := |values|;
    var fields := Repeated(elem, n);
    ArrayIsTuple(elem, values);
    var t := TupleEncoding(fields, values).value;
    assert fields[..i] == Repeated(elem, i);
    TupleLayout(fields, values, i);
    TupleLength(fields, values);
    RepeatedHead(elem, i);
    RepeatedHead(elem, n);
    if IsDynamic(elem) {
      DynamicHeadSize(elem);
      AtPrepended(LengthWord(n), t, 32 * i, LengthWord(32 * n + TailLength(Repeated(elem, i), values[..i])));
      AtPrepended(LengthWord(n), t, 32 * n + TailLength(Repeated(elem, i), values[..i]), ValueEncoding(elem, values[i]).value);
    } else {
      AtPrepended(LengthWord(n), t, i * StaticHeadSize(elem).value, ValueEncoding(elem, values[i]).value);
    }
  }

  // ---- refusals ----

  // A value that does not fit its type is refused for itself, a struct without schema or an array without
  // element type for its schema, and an unknown type for its type.
  lemma Refused(f: Field, v: Value)
    ensures f.typ.TUnknown? ==> ValueEncoding(f, v) == Err(UnsupportedType)
    ensures (f.typ.TStruct? && f.sub.None?) || (f.typ.TArray? && f.elem.None?) ==> ValueEncoding(f, v) == Err(InvalidSchema)
    ensures (f.typ.TStruct? && f.sub.Some?) || (f.typ.TArray? && f.elem.Some?) ==>
              (!v.Items? ==> ValueEncoding(f, v) == Err(InvalidValue))
    ensures !f.typ.TUnknown? && !f.typ.TStruct? && !f.typ.TArray? && !Conforms(f, v) ==> ValueEncoding(f, v) == Err(InvalidValue)
  {
  }

  // A tuple is refused for the number of its values, or else for the first value that is.
  lemma TupleRefused(fields: seq<Field>, values: seq<Value>, e: AbiError)
    ensures |fields| != |values| ==> TupleEncoding(fields, values) == Err(InvalidValue)
    ensures |fields| == |values| ==> (TupleEncoding(fields, values) == Err(e) <==> exists i: nat :: FirstRefused(fields, values, i, e))
  {
    if |fields| == |values| { PartsRefused(fields, values, HeadLength(fields).value, 0, e); }
  }

  ghost predicate FirstRefused(fields: seq<Field>, values: seq<Value>, i: nat, e: AbiError)
    requires |fields| == |values|
  {
    && i < |fields| && ValueEncoding(fields[i], values[i]) == Err(e)
    && forall j :: 0 <= j < i ==> ValueEncoding(fields[j], values[j]).Ok?
  }

  lemma {:induction false} PartsRefused(fields: seq<Field>, values: seq<Value>, headLen: nat, tailLen: nat, e: AbiError)
    requires |fields| == |values|
    ensures FieldParts(fields, values, headLen, tailLen) == Err(e) <==> exists i: nat :: FirstRefused(fields, values, i, e)
    decreases values
  {
    hide LengthWord, ValueEncoding, IsDynamic;
    if |fields| > 0 {
      var first := ValueEncoding(fields[0], values[0]);
      if first.Ok? {
        PartsRefused(fields[1..], values[1..], headLen, tailLen + if IsDynamic(fields[0]) then |first.value| else 0, e);
        if i: nat :| FirstRefused(fields[1..], values[1..], i, e) {
          assert FirstRefused(fields, values, i + 1, e);
        }
        if i: nat :| FirstRefused(fields, values, i, e) {
          assert i > 0 && FirstRefused(fields[1..], values[1..], i - 1, e);
        }
      } else if first.error == e {
        assert FirstRefused(fields, values, 0, e);
      }
    }
  }
}
