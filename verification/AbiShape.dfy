// The shape of an encoding: its length, and where each head and each tail stands in it.
module AbiShape {
  import opened Arith
  import opened Words
  import opened Bytes
  import opened Wrappers
  import opened AbiTypes
  import opened AbiEncode
  import opened AbiDecode

  // No Go slice comes this close to the largest int.
  const MAX_LEN: nat := MAX_INT - WORD

  // ---- the shape of an encoding ----

  predicate Aligned(n: int)
  {
    n % 32 == 0
  }

  lemma AlignedSum(a: int, b: int)
    requires Aligned(a) && Aligned(b)
    ensures Aligned(a + b)
  {
  }

  lemma AlignedWords(n: nat)
    ensures Aligned(n * WORD)
  {
  }

  lemma OffsetAligned(n: int)
    requires Aligned(n)
    ensures n % 32 == 0
  {
  }

  lemma {:induction false} EncodingLength(f: Field, v: Value)
    requires ValueEncoding(f, v).Ok?
    ensures var e := ValueEncoding(f, v).value;
            Aligned(|e|) && if IsDynamic(f) then |e| > 0 else |e| == StaticHeadSize(f).value
    decreases v, 2
  {
    hide LengthWord, Uint64Word, Uint256Word, BytesEncoding, PadLength, Aligned, FieldParts, ItemParts, HeadLength;
    AlignedWords(1);
    match f.typ
    case TBytes => BytesLength(v.bytes);
    case TString => BytesLength(v.text);
    case TStruct => TupleEncodingLength(f.sub.value.fields, v.items);
    case TArray => ArrayEncodingLength(f.elem.value, v.items);
    case _ =>
  }

  lemma BytesLength(v: seq<Byte>)
    ensures Aligned(|BytesEncoding(v)|) && |BytesEncoding(v)| > 0
  {
    hide PadLength, LengthWord;
    PadLengthAligns(|v|);
    assert |BytesEncoding(v)| == WORD + |v| + PadLength(|v|);
  }

  lemma {:induction false} TupleEncodingLength(fields: seq<Field>, values: seq<Value>)
    requires TupleEncoding(fields, values).Ok?
    ensures var e := TupleEncoding(fields, values).value;
            Aligned(|e|) && if AnyDynamic(fields) then |e| > 0 else |e| == HeadLength(fields).value
    decreases values, 1
  {
    hide FieldParts, Aligned, HeadLength, AnyDynamic;
    var p := FieldParts(fields, values, HeadLength(fields).value, 0).value;
    PartsLength(fields, values, HeadLength(fields).value, 0);
    AlignedSum(|p.head|, |p.tail|);
  }

  lemma {:induction false} ArrayEncodingLength(elem: Field, values: seq<Value>)
    requires ArrayEncoding(elem, values).Ok?
    ensures Aligned(|ArrayEncoding(elem, values).value|) && |ArrayEncoding(elem, values).value| > 0
    decreases values, 1
  {
    hide ItemParts, Aligned, LengthWord;
    var p := ItemParts(elem, values, |values| * WORD, 0).value;
    ItemPartsLength(elem, values, |values| * WORD, 0);
    AlignedWords(1);
    AlignedSum(WORD, |p.head|);
    AlignedSum(WORD + |p.head|, |p.tail|);
  }

  lemma {:induction false} PartsLength(fields: seq<Field>, values: seq<Value>, headLen: nat, tailLen: nat)
    requires |fields| == |values| && FieldParts(fields, values, headLen, tailLen).Ok?
    ensures var p := FieldParts(fields, values, headLen, tailLen).value;
            && |p.head| == HeadLength(fields).value
            && Aligned(|p.head|) && Aligned(|p.tail|)
            && (AnyDynamic(fields) <==> |p.tail| > 0)
    decreases values, 0
  {
    hide LengthWord, ValueEncoding, Aligned, IsDynamic;
    if |fields| > 0 {
      var e := ValueEncoding(fields[0], values[0]).value;
      var tailLen' := tailLen + if IsDynamic(fields[0]) then |e| else 0;
      var rest := FieldParts(fields[1..], values[1..], headLen, tailLen').value;
      EncodingLength(fields[0], values[0]);
      PartsLength(fields[1..], values[1..], headLen, tailLen');
      AlignedWords(1);
      AlignedSum(WORD, |rest.head|);
      AlignedSum(|e|, |rest.head|);
      AlignedSum(|e|, |rest.tail|);
    } else {
      AlignedWords(0);
    }
  }

  lemma {:induction false} ItemPartsLength(elem: Field, values: seq<Value>, headLen: nat, tailLen: nat)
    requires ItemParts(elem, values, headLen, tailLen).Ok?
    ensures var p := ItemParts(elem, values, headLen, tailLen).value;
            && |p.head| == |values| * StaticHeadSize(elem).value
            && Aligned(|p.head|) && Aligned(|p.tail|)
            && (IsDynamic(elem) && |values| > 0 <==> |p.tail| > 0)
    decreases values, 0
  {
    hide LengthWord, ValueEncoding, Aligned, StaticHeadSize, IsDynamic;
    if |values| > 0 {
      var e := ValueEncoding(elem, values[0]).value;
      var tailLen' := tailLen + if IsDynamic(elem) then |e| else 0;
      var rest := ItemParts(elem, values[1..], headLen, tailLen').value;
      EncodingLength(elem, values[0]);
      ItemPartsLength(elem, values[1..], headLen, tailLen');
      Distribute(|values|, 1, StaticHeadSize(elem).value);
      if IsDynamic(elem) { DynamicHeadSize(elem); }
      AlignedWords(1);
      AlignedSum(WORD, |rest.head|);
      AlignedSum(|e|, |rest.head|);
      AlignedSum(|e|, |rest.tail|);
    } else {
      AlignedWords(0);
    }
  }

  lemma DynamicHeadSize(f: Field)
    requires IsDynamic(f)
    ensures StaticHeadSize(f).value == WORD
  {
  }

  // ---- finding bytes in the data ----

  predicate At(data: seq<Byte>, pos: nat, e: seq<Byte>)
  {
    pos + |e| <= |data| && data[pos..pos + |e|] == e
  }

  lemma AtConcat(data: seq<Byte>, pos: nat, a: seq<Byte>, b: seq<Byte>)
    requires At(data, pos, a + b)
    ensures At(data, pos, a) && At(data, pos + |a|, b)
  {
    var whole := data[pos..pos + |a + b|];
    assert whole[..|a|] == a && whole[|a|..] == b;
  }

  lemma AtWhole(data: seq<Byte>)
    ensures At(data, 0, data)
  {
  }

  lemma Uint64WordAt(data: seq<Byte>, pos: nat, v: Word)
    requires At(data, pos, Uint64Word(v))
    ensures Uint64At(data, pos) == Ok(v)
  {
    AtConcat(data, pos, ZeroBytes(24), BigEndian(v, 8));
    Pow256Eight();
    BigEndianRoundTrip(v, 8);
  }

  lemma LengthWordAt(data: seq<Byte>, pos: nat, n: nat)
    requires At(data, pos, LengthWord(n)) && n < B
    ensures Uint64At(data, pos) == Ok(n)
  {
    Uint64WordAt(data, pos, n);
  }

  lemma LimbAtWord(data: seq<Byte>, pos: nat, w: Word)
    requires At(data, pos, BigEndian(w, 8))
    ensures LimbAt(data, pos) == w
  {
    Pow256Eight();
    BigEndianRoundTrip(w, 8);
  }

  lemma Uint256WordAt(data: seq<Byte>, pos: nat, x: Limbs4)
    requires At(data, pos, Uint256Word(x))
    ensures [LimbAt(data, pos + 24), LimbAt(data, pos + 16), LimbAt(data, pos + 8), LimbAt(data, pos)] == x
  {
    hide BigEndian, LimbAt, At;
    AtConcat(data, pos, BigEndian(x[3], 8) + BigEndian(x[2], 8) + BigEndian(x[1], 8), BigEndian(x[0], 8));
    AtConcat(data, pos, BigEndian(x[3], 8) + BigEndian(x[2], 8), BigEndian(x[1], 8));
    AtConcat(data, pos, BigEndian(x[3], 8), BigEndian(x[2], 8));
    LimbAtWord(data, pos, x[3]);
    LimbAtWord(data, pos + 8, x[2]);
    LimbAtWord(data, pos + 16, x[1]);
    LimbAtWord(data, pos + 24, x[0]);
  }

  lemma RoundUpPads(n: nat)
    requires n + PadLength(n) < B
    ensures RoundUp32(n) == n + PadLength(n)
  {
  }

  lemma BytesBack(data: seq<Byte>, pos: nat, v: seq<Byte>)
    requires At(data, pos, BytesEncoding(v)) && |data| <= MAX_LEN
    ensures BytesAt(data, pos) == Ok(v)
  {
    hide LengthWord, ZeroBytes, RoundUp32, PadLength, Uint64At, At;
    assert BytesEncoding(v) == LengthWord(|v|) + (v + ZeroBytes(PadLength(|v|)));
    assert pos + |BytesEncoding(v)| <= |data| by { BytesFound(data, pos, BytesEncoding(v)); }
    AtConcat(data, pos, LengthWord(|v|), v + ZeroBytes(PadLength(|v|)));
    AtConcat(data, pos + WORD, v, ZeroBytes(PadLength(|v|)));
    LengthWordAt(data, pos, |v|);
    RoundUpPads(|v|);
    BytesFound(data, pos + WORD, v);
  }

  lemma BytesFound(data: seq<Byte>, pos: nat, e: seq<Byte>)
    requires At(data, pos, e)
    ensures pos + |e| <= |data| && data[pos..pos + |e|] == e
  {
  }

  lemma ElementaryBack(data: seq<Byte>, f: Field, v: Value, pos: nat)
    requires ValueEncoding(f, v).Ok? && At(data, pos, ValueEncoding(f, v).value)
    requires !IsDynamic(f) && !f.typ.TStruct?
    ensures pos + WORD <= |data| && ElementaryAt(f.typ, data, pos) == Ok(v)
  {
    hide Uint64Word, Uint256Word, Uint64At, LimbAt, StaticHeadSize;
    match f.typ
    case TUint8 => Uint64WordAt(data, pos, v.n8);
    case TUint32 => Uint64WordAt(data, pos, v.n32);
    case TUint64 => Uint64WordAt(data, pos, v.n64);
    case TBool => Uint64WordAt(data, pos, if v.flag then 1 else 0);
    case TUint256 => Uint256WordAt(data, pos, v.limbs);
    case TAddress => AtConcat(data, pos, ZeroBytes(12), v.bytes);
    case TBytes32 =>
  }

  // The heads and tails of the fields to come, among the bytes of all of them.
  ghost predicate FieldsPlaced(data: seq<Byte>, fields: seq<Field>, values: seq<Value>, headLen: nat, tailLen: nat,
                               start: nat, cursor: nat)
  {
    && |fields| == |values| && FieldParts(fields, values, headLen, tailLen).Ok?
    && At(data, cursor, FieldParts(fields, values, headLen, tailLen).value.head)
    && At(data, start + headLen + tailLen, FieldParts(fields, values, headLen, tailLen).value.tail)
    && Aligned(start) && Aligned(cursor) && Aligned(headLen) && Aligned(tailLen)
  }

  lemma PlacedInside(data: seq<Byte>, fields: seq<Field>, values: seq<Value>, headLen: nat, tailLen: nat,
                     start: nat, cursor: nat)
    requires FieldsPlaced(data, fields, values, headLen, tailLen, start, cursor)
    ensures |fields| == |values| && FieldParts(fields, values, headLen, tailLen).Ok?
    ensures |fields| > 0 ==> ValueEncoding(fields[0], values[0]).Ok?
    ensures start + headLen + tailLen <= |data|
  {
    hide At;
    BytesFound(data, start + headLen + tailLen, FieldParts(fields, values, headLen, tailLen).value.tail);
  }

  // The first field among the bytes of all of them, and the others behind it.
  lemma FirstPlaced(data: seq<Byte>, fields: seq<Field>, values: seq<Value>, headLen: nat, tailLen: nat,
                    start: nat, cursor: nat)
    requires FieldsPlaced(data, fields, values, headLen, tailLen, start, cursor) && |fields| > 0
    requires |data| <= MAX_LEN
    ensures var e, p := ValueEncoding(fields[0], values[0]).value, FieldParts(fields, values, headLen, tailLen).value;
            var dyn := IsDynamic(fields[0]);
            var rest := FieldParts(fields[1..], values[1..], headLen, tailLen + if dyn then |e| else 0).value;
            && |p.head| == (if dyn then WORD else |e|) + |rest.head|
            && |p.tail| == (if dyn then |e| else 0) + |rest.tail|
    ensures var e := ValueEncoding(fields[0], values[0]).value;
            if IsDynamic(fields[0]) then
              && cursor + WORD <= |data| && Uint64At(data, cursor) == Ok(headLen + tailLen)
              && (headLen + tailLen) % 32 == 0 && Aligned(start + headLen + tailLen)
              && At(data, start + headLen + tailLen, e) && start + headLen + tailLen + |e| <= |data|
              && FieldsPlaced(data, fields[1..], values[1..], headLen, tailLen + |e|, start, cursor + WORD)
            else
              && |e| == StaticHeadSize(fields[0]).value && cursor + |e| <= |data| && At(data, cursor, e) && Aligned(cursor)
              && FieldsPlaced(data, fields[1..], values[1..], headLen, tailLen, start, cursor + |e|)
  {
    hide LengthWord, ValueEncoding, Uint64At, At, Aligned, IsDynamic, StaticHeadSize;
    var f, e := fields[0], ValueEncoding(fields[0], values[0]).value;
    EncodingLength(f, values[0]);
    if IsDynamic(f) {
      var rest := FieldParts(fields[1..], values[1..], headLen, tailLen + |e|).value;
      AtConcat(data, cursor, LengthWord(headLen + tailLen), rest.head);
      AtConcat(data, start + headLen + tailLen, e, rest.tail);
      BytesFound(data, cursor, LengthWord(headLen + tailLen));
      BytesFound(data, start + headLen + tailLen, e);
      LengthWordAt(data, cursor, headLen + tailLen);
      AlignedSum(headLen, tailLen);
      AlignedSum(start, headLen + tailLen);
      AlignedSum(tailLen, |e|);
      OffsetAligned(headLen + tailLen);
      AlignedWords(1);
      AlignedSum(cursor, WORD);
    } else {
      var rest := FieldParts(fields[1..], values[1..], headLen, tailLen).value;
      AtConcat(data, cursor, e, rest.head);
      BytesFound(data, cursor, e);
      AlignedSum(cursor, |e|);
    }
  }

  // ---- the layout the ABI specification prescribes ----

  // The bytes the given fields take in the tail.
  function TailLength(fields: seq<Field>, values: seq<Value>): nat
    requires |fields| == |values|
  {
    if |fields| == 0 then 0
    else
      var e := ValueEncoding(fields[0], values[0]);
      (if IsDynamic(fields[0]) && e.Ok? then |e.value| else 0) + TailLength(fields[1..], values[1..])
  }

  // Field i stands in the head after the heads before it: a static one by its encoding, a dynamic
  // one by the distance from the start of the tuple to its encoding, which stands in the tail after
  // the tails before it.
  lemma TupleLayout(fields: seq<Field>, values: seq<Value>, i: nat)
    requires TupleEncoding(fields, values).Ok? && i < |fields|
    ensures |fields| == |values| && ValueEncoding(fields[i], values[i]).Ok?
    ensures var tuple, e := TupleEncoding(fields, values).value, ValueEncoding(fields[i], values[i]).value;
            var head := HeadLength(fields[..i]).value;
            var offset := HeadLength(fields).value + TailLength(fields[..i], values[..i]);
            if IsDynamic(fields[i]) then At(tuple, head, LengthWord(offset)) && At(tuple, offset, e)
            else At(tuple, head, e)
  {
    hide FieldParts, HeadLength, TailLength, LengthWord, ValueEncoding, At, IsDynamic, Aligned, AnyDynamic;
    var headLen := HeadLength(fields).value;
    var p := FieldParts(fields, values, headLen, 0).value;
    PartsLength(fields, values, headLen, 0);
    PartsLayout(fields, values, headLen, 0, i);
    var e := ValueEncoding(fields[i], values[i]).value;
    PartsJoined(p, HeadLength(fields[..i]).value, TailLength(fields[..i], values[..i]), IsDynamic(fields[i]), e);
  }

  // A field in its head and its tail, found in the two together.
  lemma PartsJoined(p: Parts, head: nat, tail: nat, dyn: bool, e: seq<Byte>)
    requires if dyn then At(p.head, head, LengthWord(|p.head| + tail)) && At(p.tail, tail, e) else At(p.head, head, e)
    ensures if dyn then At(p.head + p.tail, head, LengthWord(|p.head| + tail)) && At(p.head + p.tail, |p.head| + tail, e)
            else At(p.head + p.tail, head, e)
  {
    hide At, LengthWord;
    if dyn {
      AtAppended(p.head, p.tail, head, LengthWord(|p.head| + tail));
      AtPrepended(p.head, p.tail, tail, e);
    } else {
      AtAppended(p.head, p.tail, head, e);
    }
  }

  // The head and the tail of field i among the parts of the remaining fields.
  predicate Placed(p: Parts, fields: seq<Field>, values: seq<Value>, base: nat, i: nat)
    requires i < |fields| == |values|
  {
    && ValueEncoding(fields[i], values[i]).Ok?
    && var e := ValueEncoding(fields[i], values[i]).value;
       var head, tail := HeadLength(fields[..i]).value, TailLength(fields[..i], values[..i]);
       if IsDynamic(fields[i]) then At(p.head, head, LengthWord(base + tail)) && At(p.tail, tail, e)
       else At(p.head, head, e)
  }

  lemma {:induction false} PartsLayout(fields: seq<Field>, values: seq<Value>, headLen: nat, tailLen: nat, i: nat)
    requires i < |fields| == |values| && FieldParts(fields, values, headLen, tailLen).Ok?
    ensures Placed(FieldParts(fields, values, headLen, tailLen).value, fields, values, headLen + tailLen, i)
    decreases i
  {
    hide LengthWord, ValueEncoding, IsDynamic, StaticHeadSize, At, Aligned, Placed;
    var e := ValueEncoding(fields[0], values[0]).value;
    var dyn := IsDynamic(fields[0]);
    var tailLen' := tailLen + if dyn then |e| else 0;
    var rest := FieldParts(fields[1..], values[1..], headLen, tailLen').value;
    if i == 0 {
      FirstLaidOut(fields, values, headLen + tailLen, rest);
    } else {
      PartsLayout(fields[1..], values[1..], headLen, tailLen', i - 1);
      NextLaidOut(fields, values, headLen + tailLen, rest, i);
    }
  }

  // The parts of the first field in front of those of the others.
  function WithFirst(f: Field, e: seq<Byte>, base: nat, rest: Parts): Parts
  {
    if IsDynamic(f) then Parts(LengthWord(base) + rest.head, e + rest.tail) else Parts(e + rest.head, rest.tail)
  }

  lemma FirstLaidOut(fields: seq<Field>, values: seq<Value>, base: nat, rest: Parts)
    requires 0 < |fields| == |values| && ValueEncoding(fields[0], values[0]).Ok?
    ensures Placed(WithFirst(fields[0], ValueEncoding(fields[0], values[0]).value, base, rest), fields, values, base, 0)
  {
    hide LengthWord, ValueEncoding, IsDynamic, StaticHeadSize, At;
    var e := ValueEncoding(fields[0], values[0]).value;
    var first := if IsDynamic(fields[0]) then LengthWord(base) else e;
    AtWhole(first);
    AtWhole(e);
    AtAppended(first, rest.head, 0, first);
    AtAppended(e, rest.tail, 0, e);
  }

  lemma NextLaidOut(fields: seq<Field>, values: seq<Value>, base: nat, rest: Parts, i: nat)
    requires 0 < i < |fields| == |values| && ValueEncoding(fields[0], values[0]).Ok?
    requires Placed(rest, fields[1..], values[1..],
                    base + if IsDynamic(fields[0]) then |ValueEncoding(fields[0], values[0]).value| else 0, i - 1)
    ensures Placed(WithFirst(fields[0], ValueEncoding(fields[0], values[0]).value, base, rest), fields, values, base, i)
  {
    hide LengthWord, ValueEncoding, IsDynamic, StaticHeadSize, At, Aligned;
    var e, e' := ValueEncoding(fields[0], values[0]).value, ValueEncoding(fields[i], values[i]).value;
    var dyn := IsDynamic(fields[0]);
    var first := if dyn then LengthWord(base) else e;
    assert fields[..i][1..] == fields[1..][..i - 1] && values[..i][1..] == values[1..][..i - 1];
    EncodingLength(fields[0], values[0]);
    if dyn { DynamicHeadSize(fields[0]); }
    var head, tail := HeadLength(fields[1..][..i - 1]).value, TailLength(fields[1..][..i - 1], values[1..][..i - 1]);
    if IsDynamic(fields[i]) {
      AtPrepended(first, rest.head, head, LengthWord(base + (if dyn then |e| else 0) + tail));
      AtPrepended(if dyn then e else [], rest.tail, tail, e');
      assert [] + rest.tail == rest.tail;
    } else {
      AtPrepended(first, rest.head, head, e');
    }
  }

  lemma AtAppended(data: seq<Byte>, more: seq<Byte>, pos: nat, e: seq<Byte>)
    requires At(data, pos, e)
    ensures At(data + more, pos, e)
  {
    assert (data + more)[pos..pos + |e|] == data[pos..pos + |e|];
  }

  lemma AtPrepended(before: seq<Byte>, data: seq<Byte>, pos: nat, e: seq<Byte>)
    requires At(data, pos, e)
    ensures At(before + data, |before| + pos, e)
  {
    assert (before + data)[|before| + pos..|before| + pos + |e|] == data[pos..pos + |e|];
  }
}
