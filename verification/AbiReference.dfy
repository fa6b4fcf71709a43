// What it means that values stand in the data by the ABI specification, with words read as numbers. The
// decoder returns values exactly when they stand there.
module AbiReference {
  import opened Arith
  import opened Words
  import Limbs
  import opened Bytes
  import opened Wrappers
  import opened AbiTypes
  import opened AbiDecode
  import opened AbiShape
  import opened AbiRoundTrip

  function Number(data: seq<Byte>, pos: nat): (n: nat)
    requires pos + 32 <= |data|
  {
    FromBigEndian(data[pos..pos + 32])
  }

  predicate WordIs(data: seq<Byte>, pos: nat, n: nat)
  {
    pos + 32 <= |data| && Number(data, pos) == n
  }

  // The bytes behind their length, in whole words.
  predicate BytesStand(data: seq<Byte>, pos: nat, b: seq<Byte>)
  {
    && WordIs(data, pos, |b|)
    && pos + 32 + (|b| + 31) / 32 * 32 <= |data|
    && data[pos + 32..pos + 32 + |b|] == b
  }

  // The value v of type f stands at pos.
  predicate Stands(data: seq<Byte>, f: Field, v: Value, pos: nat)
    decreases v, 2
  {
    match f.typ
    case TUint8 => v.U8? && WordIs(data, pos, v.n8)
    case TUint32 => v.U32? && WordIs(data, pos, v.n32)
    case TUint64 => v.U64? && WordIs(data, pos, v.n64)
    case TUint256 => v.U256? && WordIs(data, pos, Limbs.Value(v.limbs))
    case TBytes32 => v.Fixed32? && pos + 32 <= |data| && data[pos..pos + 32] == v.fixed
    case TBool => v.Flag? && WordIs(data, pos, if v.flag then 1 else 0)
    case TAddress => v.Blob? && |v.bytes| == 20 && WordIs(data, pos, FromBigEndian(v.bytes))
    case TBytes => v.Blob? && BytesStand(data, pos, v.bytes)
    case TString => v.Text? && BytesStand(data, pos, v.text)
    case TStruct =>
      && f.sub.Some? && v.Items? && (IsDynamic(f) || pos + 32 <= |data|)
      && pos <= |data| && TupleStands(data, f.sub.value.fields, v.items, pos, pos)
    case TArray =>
      f.elem.Some? && v.Items? && ArrayStands(data, f.elem.value, v.items, pos)
    case TUnknown(_) => false
  }

  predicate ArrayStands(data: seq<Byte>, elem: Field, values: seq<Value>, pos: nat)
    decreases values, 1
  {
    && WordIs(data, pos, |values|)
    && (if IsDynamic(elem) then
          pos + 32 + |values| * 32 <= |data| && ItemsStand(data, elem, values, pos + 32, pos + 32)
        else
          var size := StaticHeadSize(elem).value;
          && 0 < size && pos + 32 + |values| * size <= |data|
          && StaticItemsStand(data, elem, values, pos + 32, size))
  }

  // The value of a dynamic type stands where the word at pos says, counted from base.
  predicate StandsBehind(data: seq<Byte>, f: Field, v: Value, base: nat, pos: nat)
    decreases v, 3
  {
    && pos + 32 <= |data|
    && var offset := Number(data, pos);
       offset % 32 == 0 && base + offset <= |data| && Stands(data, f, v, base + offset)
  }

  // The fields of the tuple at start, from the head at the cursor on.
  predicate TupleStands(data: seq<Byte>, fields: seq<Field>, values: seq<Value>, start: nat, cursor: nat)
    decreases values, 0
  {
    if |fields| == 0 || |values| == 0 then |fields| == |values|
    else if IsDynamic(fields[0]) then
      && StandsBehind(data, fields[0], values[0], start, cursor)
      && TupleStands(data, fields[1..], values[1..], start, cursor + 32)
    else
      var size := StaticHeadSize(fields[0]).value;
      && cursor + size <= |data| && Stands(data, fields[0], values[0], cursor)
      && TupleStands(data, fields[1..], values[1..], start, cursor + size)
  }

  predicate ItemsStand(data: seq<Byte>, elem: Field, values: seq<Value>, start: nat, cursor: nat)
    decreases values, 0
  {
    |values| == 0
    || (&& StandsBehind(data, elem, values[0], start, cursor)
        && ItemsStand(data, elem, values[1..], start, cursor + 32))
  }

  predicate StaticItemsStand(data: seq<Byte>, elem: Field, values: seq<Value>, cursor: nat, size: nat)
    decreases values, 0
  {
    |values| == 0
    || (Stands(data, elem, values[0], cursor) && StaticItemsStand(data, elem, values[1..], cursor + size, size))
  }

  // ---- words ----

  // A word is taken for a uint64 exactly if its number fits.
  lemma Uint64IsNumber(data: seq<Byte>, pos: nat, n: nat)
    requires pos + 32 <= |data|
    ensures Uint64At(data, pos) == Ok(n) <==> Number(data, pos) == n && n < B
  {
    var a, b := data[pos..pos + 24], data[pos + 24..pos + 32];
    assert data[pos..pos + 32] == a + b;
    LeadingZeros(a, b);
    FromBigEndianBound(b);
    Pow256Eight();
  }

  lemma Uint256IsNumber(data: seq<Byte>, pos: nat, x: Limbs4)
    requires pos + 32 <= |data|
    ensures [LimbAt(data, pos + 24), LimbAt(data, pos + 16), LimbAt(data, pos + 8), LimbAt(data, pos)] == x
       <==> Number(data, pos) == Limbs.Value(x)
  {
    hide Limbs.Value, FromBigEndian, Pow256;
    var y: seq<Word> := [LimbAt(data, pos + 24), LimbAt(data, pos + 16), LimbAt(data, pos + 8), LimbAt(data, pos)];
    var w3, w2, w1, w0 := data[pos..pos + 8], data[pos + 8..pos + 16], data[pos + 16..pos + 24], data[pos + 24..pos + 32];
    assert data[pos..pos + 32] == w3 + w2 + w1 + w0;
    FromBigEndianConcat(w3 + w2 + w1, w0);
    FromBigEndianConcat(w3 + w2, w1);
    FromBigEndianConcat(w3, w2);
    Pow256Eight();
    Limbs.ValueFour(y);
    assert Number(data, pos) == Limbs.Value(y);
    if Limbs.Value(y) == Limbs.Value(x) { Limbs.ValueInjective(y, x); }
  }

  lemma AddressIsNumber(data: seq<Byte>, pos: nat, b: seq<Byte>)
    requires pos + 32 <= |data| && |b| == 20
    ensures data[pos..pos + 12] == ZeroBytes(12) && data[pos + 12..pos + 32] == b <==> Number(data, pos) == FromBigEndian(b)
  {
    hide FromBigEndian, Pow256;
    var a, c := data[pos..pos + 12], data[pos + 12..pos + 32];
    assert data[pos..pos + 32] == a + c;
    LeadingZeros(a, c);
    FromBigEndianBound(b);
    SameNumber(b, c);
  }

  lemma ElementaryReads(typ: Type, data: seq<Byte>, v: Value, pos: nat)
    requires pos + 32 <= |data| && !typ.TBytes? && !typ.TString? && !typ.TStruct? && !typ.TArray?
    ensures ElementaryAt(typ, data, pos) == Ok(v) <==> Stands(data, Field(typ, None, None), v, pos)
  {
    hide Uint64At, LimbAt, Number, Limbs.Value, FromBigEndian;
    var n := Number(data, pos);
    Uint64IsNumber(data, pos, n);
    if typ.TUint256? && v.U256? { Uint256IsNumber(data, pos, v.limbs); }
    if typ.TAddress? && v.Blob? && |v.bytes| == 20 { AddressIsNumber(data, pos, v.bytes); }
    if n >= B { NoUint64(data, pos); }
  }

  lemma NoUint64(data: seq<Byte>, pos: nat)
    requires pos + 32 <= |data| && Number(data, pos) >= B
    ensures Uint64At(data, pos).Err?
  {
    if Uint64At(data, pos).Ok? { Uint64IsNumber(data, pos, Uint64At(data, pos).value); }
  }

  lemma BytesRead(data: seq<Byte>, pos: nat, b: seq<Byte>)
    requires |data| <= MAX_LEN
    ensures BytesAt(data, pos) == Ok(b) <==> BytesStand(data, pos, b)
  {
    hide Uint64At, Number, RoundUp32;
    if pos + 32 <= |data| {
      var n := Number(data, pos);
      Uint64IsNumber(data, pos, n);
      if n >= B { NoUint64(data, pos); } else { RoundedUp(n); }
    }
  }

  // No length that fits in the data is rounded up past 2^64.
  lemma RoundedUp(n: Word)
    ensures n <= MAX_LEN ==> RoundUp32(n) == (n + 31) / 32 * 32
    ensures n <= MAX_LEN ==> n <= (n + 31) / 32 * 32
  {
    var q, m := n / 32, n % 32;
    assert n == 32 * q + m;
    if m == 0 { assert (n + 31) / 32 == q; } else { assert (n + 31) / 32 == q + 1; }
  }

  // ---- the decoder ----

  // A value is decoded exactly if it stands there and is not nested too deeply.
  lemma {:induction false} ValueReads(d: Decoder, f: Field, v: Value, pos: nat, depth: nat)
    requires |d.data| <= MAX_LEN && depth <= d.maxDepth && pos <= |d.data|
    ensures (if IsDynamic(f) then d.ValueAt(f, pos, depth) else d.StaticValue(f, pos, depth)) == Ok(v)
       <==> Stands(d.data, f, v, pos) && depth + Depth(v) <= d.maxDepth
    decreases v, 4
  {
    hide BytesAt, ElementaryAt, Decoder.TupleAt, Decoder.ArrayAt, TupleStands, ArrayStands,
      Number, BytesStand, DepthAll;
    match f.typ
    case TBytes => if v.Blob? { BytesRead(d.data, pos, v.bytes); }
    case TString => if v.Text? { BytesRead(d.data, pos, v.text); }
    case TStruct =>
      if f.sub.Some? && v.Items? { TupleReads(d, f.sub.value.fields, v.items, pos, depth); }
    case TArray =>
      if f.elem.Some? && v.Items? { ArrayReads(d, f.elem.value, v.items, pos, depth); }
    case _ =>
      if pos + 32 <= |d.data| {
        ElementaryReads(f.typ, d.data, v, pos);
        TypeAlone(d.data, f, v, pos);
      }
  }

  // Of an elementary field only the type matters.
  lemma TypeAlone(data: seq<Byte>, f: Field, v: Value, pos: nat)
    requires !f.typ.TBytes? && !f.typ.TString? && !f.typ.TStruct? && !f.typ.TArray?
    ensures Stands(data, f, v, pos) == Stands(data, Field(f.typ, None, None), v, pos)
  {
  }

  lemma {:induction false} TupleReads(d: Decoder, fields: seq<Field>, values: seq<Value>, pos: nat, depth: nat)
    requires |d.data| <= MAX_LEN && depth <= d.maxDepth && pos <= |d.data|
    ensures d.TupleAt(fields, pos, depth) == Ok(values)
       <==> TupleStands(d.data, fields, values, pos, pos) && depth + 1 + DepthAll(values) <= d.maxDepth
    decreases values, 2
  {
    hide TupleStands, DepthAll, Decoder.FieldsAt;
    if depth + 1 <= d.maxDepth { FieldsRead(d, fields, values, pos, pos, depth + 1); }
  }

  lemma {:induction false} FieldsRead(d: Decoder, fields: seq<Field>, values: seq<Value>, start: nat, cursor: nat, depth: nat)
    requires |d.data| <= MAX_LEN && depth <= d.maxDepth && start <= |d.data|
    ensures d.FieldsAt(fields, start, cursor, depth) == Ok(values)
       <==> TupleStands(d.data, fields, values, start, cursor) && depth + DepthAll(values) <= d.maxDepth
    decreases values, 1
  {
    hide Number, Stands, StandsBehind, Depth, IsDynamic, StaticHeadSize, Decoder.ValueThrough, Decoder.StaticValue;
    if |fields| > 0 && |values| > 0 {
      var f, v := fields[0], values[0];
      var size := if IsDynamic(f) then WORD else StaticHeadSize(f).value;
      if cursor + size <= |d.data| {
        FieldReads(d, f, v, start, cursor, depth);
        FieldsRead(d, fields[1..], values[1..], start, cursor + size, depth);
        assert values == [v] + values[1..];
      } else {
        assert IsDynamic(f) ==> !StandsBehind(d.data, f, v, start, cursor) by { NoHead(d.data, f, v, start, cursor); }
      }
    }
  }

  lemma NoHead(data: seq<Byte>, f: Field, v: Value, base: nat, pos: nat)
    ensures pos + 32 > |data| ==> !StandsBehind(data, f, v, base, pos)
  {
  }

  lemma {:induction false} FieldReads(d: Decoder, f: Field, v: Value, start: nat, cursor: nat, depth: nat)
    requires |d.data| <= MAX_LEN && depth <= d.maxDepth && start <= |d.data| && cursor <= |d.data|
    requires IsDynamic(f) ==> cursor + WORD <= |d.data|
    ensures (if IsDynamic(f) then d.ValueThrough(f, start, cursor, depth) else d.StaticValue(f, cursor, depth)) == Ok(v)
       <==> (if IsDynamic(f) then StandsBehind(d.data, f, v, start, cursor) else Stands(d.data, f, v, cursor))
            && depth + Depth(v) <= d.maxDepth
    decreases v, 5
  {
    hide Number, Uint64At, Stands, Depth, IsDynamic, Decoder.ValueAt, Decoder.StaticValue;
    if IsDynamic(f) {
      var n := Number(d.data, cursor);
      if n < B { Uint64IsNumber(d.data, cursor, n); } else { NoUint64(d.data, cursor); }
      if start + n <= |d.data| { ValueReads(d, f, v, start + n, depth); }
    } else {
      ValueReads(d, f, v, cursor, depth);
    }
  }

  lemma {:induction false} ArrayReads(d: Decoder, elem: Field, values: seq<Value>, pos: nat, depth: nat)
    requires |d.data| <= MAX_LEN && depth <= d.maxDepth && pos <= |d.data|
    ensures d.ArrayAt(elem, pos, depth) == Ok(values)
       <==> ArrayStands(d.data, elem, values, pos) && depth + 1 + DepthAll(values) <= d.maxDepth
    decreases values, 3
  {
    hide Number, Uint64At, ItemsStand, StaticItemsStand, DepthAll, IsDynamic, StaticHeadSize, Decoder.ItemsAt,
      Decoder.StaticItemsAt;
    if depth + 1 <= d.maxDepth && pos + WORD <= |d.data| {
      var n, size := Number(d.data, pos), StaticHeadSize(elem).value;
      if n < B { Uint64IsNumber(d.data, pos, n); } else { NoUint64(d.data, pos); }
      Fitting(n, size, |d.data| - (pos + WORD));
      if IsDynamic(elem) {
        if pos + WORD + n * WORD <= |d.data| {
          ItemsRead(d, elem, n, values, pos + WORD, pos + WORD, depth + 1);
        }
      } else if 0 < size && pos + WORD + n * size <= |d.data| {
        StaticItemsRead(d, elem, n, values, pos + WORD, size, depth + 1);
      }
    }
  }

  // n elements fit in a length exactly if n is at most their quotient.
  lemma Fitting(n: nat, size: nat, length: nat)
    ensures 0 < size ==> (n <= length / size <==> n * size <= length)
    ensures n * 32 <= length <==> n <= length / 32
    ensures size % 32 == 0 && 0 < size && n * size <= length ==> n <= (length + 32) / 32
    ensures n * 32 <= length ==> n <= (length + 32) / 32
  {
    if 0 < size { QuotientFits(n, size, length); }
    if size % 32 == 0 && 0 < size && n * size <= length { MulLe(32, size, n); }
  }

  lemma QuotientFits(n: nat, size: nat, length: nat)
    requires 0 < size
    ensures n <= length / size <==> n * size <= length
  {
    var q := length / size;
    if n <= q { MulLe(n, q, size); } else { MulLe(q + 1, n, size); Distribute(q, 1, size); }
  }

  lemma {:induction false} ItemsRead(d: Decoder, elem: Field, n: nat, values: seq<Value>, start: nat, cursor: nat, depth: nat)
    requires |d.data| <= MAX_LEN && depth <= d.maxDepth && start <= |d.data| && cursor + n * WORD <= |d.data|
    requires IsDynamic(elem)
    ensures d.ItemsAt(elem, n, start, cursor, depth) == Ok(values)
       <==> |values| == n && ItemsStand(d.data, elem, values, start, cursor) && depth + DepthAll(values) <= d.maxDepth
    decreases values, 1
  {
    hide Number, StandsBehind, Depth, IsDynamic, Decoder.ValueThrough;
    if n > 0 && |values| > 0 {
      FieldReads(d, elem, values[0], start, cursor, depth);
      ItemsRead(d, elem, n - 1, values[1..], start, cursor + WORD, depth);
      assert values == [values[0]] + values[1..];
    }
  }

  lemma {:induction false} StaticItemsRead(d: Decoder, elem: Field, n: nat, values: seq<Value>, cursor: nat, size: nat,
                                           depth: nat)
    requires |d.data| <= MAX_LEN && depth <= d.maxDepth && !IsDynamic(elem) && cursor + n * size <= |d.data|
    ensures d.StaticItemsAt(elem, n, cursor, size, depth) == Ok(values)
       <==> |values| == n && StaticItemsStand(d.data, elem, values, cursor, size) && depth + DepthAll(values) <= d.maxDepth
    decreases values, 1
  {
    hide Stands, Depth, IsDynamic, Decoder.StaticValue;
    if n > 0 && |values| > 0 {
      Distribute(n - 1, 1, size);
      MulBoth(0, n - 1, 0, size);
      FieldReads(d, elem, values[0], cursor, cursor, depth);
      StaticItemsRead(d, elem, n - 1, values[1..], cursor + size, size, depth);
      assert values == [values[0]] + values[1..];
    }
  }

  // The decoder returns values exactly for data in whole words in which they stand from the start, and only
  // if they are at most 256 levels deep.
  lemma DecodedStands(schema: Schema, data: seq<Byte>, values: seq<Value>)
    requires |data| <= MAX_LEN
    ensures Decoded(schema, data) == Ok(values)
       <==> |data| % 32 == 0 && TupleStands(data, schema.fields, values, 0, 0) && 1 + DepthAll(values) <= 256
  {
    hide TupleStands, DepthAll, Decoder.TupleAt;
    TupleReads(Decoder(data, MAX_DEPTH), schema.fields, values, 0, 0);
  }
}
