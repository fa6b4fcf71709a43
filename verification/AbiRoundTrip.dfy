// What encoding and decoding undo of each other, for every schema and every value tree.
module AbiRoundTrip {
  import opened Arith
  import opened Bytes
  import opened Wrappers
  import opened AbiTypes
  import opened AbiEncode
  import opened AbiDecode
  import opened AbiShape

  // ---- values that match a schema ----

  predicate Conforms(f: Field, v: Value)
    decreases v, 1
  {
    match f.typ
    case TUint8 => v.U8?
    case TUint32 => v.U32?
    case TUint64 => v.U64?
    case TUint256 => v.U256?
    case TBytes32 => v.Fixed32?
    case TBytes => v.Blob?
    case TString => v.Text?
    case TBool => v.Flag?
    case TAddress => v.Blob? && |v.bytes| == 20
    case TStruct => f.sub.Some? && v.Items? && ConformsAll(f.sub.value.fields, v.items)
    case TArray => f.elem.Some? && v.Items? && EachConforms(f.elem.value, v.items)
    case TUnknown(_) => false
  }

  predicate ConformsAll(fields: seq<Field>, values: seq<Value>)
    decreases values, 0
  {
    if |fields| == 0 || |values| == 0 then |fields| == |values|
    else Conforms(fields[0], values[0]) && ConformsAll(fields[1..], values[1..])
  }

  predicate EachConforms(elem: Field, values: seq<Value>)
    decreases values, 0
  {
    |values| == 0 || (Conforms(elem, values[0]) && EachConforms(elem, values[1..]))
  }

  // The encoder takes exactly the values that match the schema.
  lemma {:induction false} EncodesConforming(schema: Schema, values: seq<Value>)
    ensures TupleEncoding(schema.fields, values).Ok? <==> ConformsAll(schema.fields, values)
  {
    TupleConforms(schema.fields, values);
  }

  lemma {:induction false} ValueConforms(f: Field, v: Value)
    ensures ValueEncoding(f, v).Ok? <==> Conforms(f, v)
    decreases v, 2
  {
    hide LengthWord, Uint64Word, Uint256Word, BytesEncoding, FieldParts, ItemParts, ConformsAll, EachConforms;
    if v.Items? {
      if f.typ.TStruct? && f.sub.Some? { TupleConforms(f.sub.value.fields, v.items); }
      if f.typ.TArray? && f.elem.Some? { ItemsConform(f.elem.value, v.items, |v.items| * WORD, 0); }
    }
  }

  lemma {:induction false} TupleConforms(fields: seq<Field>, values: seq<Value>)
    ensures TupleEncoding(fields, values).Ok? <==> ConformsAll(fields, values)
    decreases values, 1
  {
    hide Conforms;
    if |fields| == |values| {
      FieldsConform(fields, values, HeadLength(fields).value, 0);
    } else {
      CountsDiffer(fields, values);
    }
  }

  lemma {:induction false} CountsDiffer(fields: seq<Field>, values: seq<Value>)
    requires |fields| != |values|
    ensures !ConformsAll(fields, values)
  {
    if |fields| > 0 && |values| > 0 {
      CountsDiffer(fields[1..], values[1..]);
    }
  }

  lemma {:induction false} FieldsConform(fields: seq<Field>, values: seq<Value>, headLen: nat, tailLen: nat)
    requires |fields| == |values|
    ensures FieldParts(fields, values, headLen, tailLen).Ok? <==> ConformsAll(fields, values)
    decreases values, 0
  {
    hide LengthWord, ValueEncoding, Conforms, IsDynamic;
    if |fields| > 0 {
      ValueConforms(fields[0], values[0]);
      var e := ValueEncoding(fields[0], values[0]);
      if e.Ok? {
        FieldsConform(fields[1..], values[1..], headLen, tailLen + if IsDynamic(fields[0]) then |e.value| else 0);
      }
    }
  }

  lemma {:induction false} ItemsConform(elem: Field, values: seq<Value>, headLen: nat, tailLen: nat)
    ensures ItemParts(elem, values, headLen, tailLen).Ok? <==> EachConforms(elem, values)
    decreases values, 0
  {
    hide LengthWord, ValueEncoding, Conforms, IsDynamic;
    if |values| > 0 {
      ValueConforms(elem, values[0]);
      var e := ValueEncoding(elem, values[0]);
      if e.Ok? {
        ItemsConform(elem, values[1..], headLen, tailLen + if IsDynamic(elem) then |e.value| else 0);
      }
    }
  }

  // ---- depth ----

  // How many tuples and arrays are nested in a value.
  function Depth(v: Value): nat
  {
    if v.Items? then 1 + DepthAll(v.items) else 0
  }

  function DepthAll(values: seq<Value>): nat
  {
    if |values| == 0 then 0
    else
      var a, b := Depth(values[0]), DepthAll(values[1..]);
      if a > b then a else b
  }

  // The value, unless it is nested too deeply to decode.
  function Within<T>(maxDepth: nat, depth: nat, v: T): (r: Result<T>)
  {
    if depth <= maxDepth then Ok(v) else Err(DepthLimit)
  }

  // Whether a value is found again when it is decoded; more says whether the data goes on behind it.
  // A struct that takes no bytes must not stand at the very end of the data, and an array of such
  // structs is never decoded.
  predicate Decodable(f: Field, v: Value, more: bool)
    decreases v, 1
  {
    match f.typ
    case TStruct =>
      && f.sub.Some? && v.Items? && |f.sub.value.fields| == |v.items|
      && (StaticHeadSize(f).value == 0 ==> more)
      && FieldsDecodable(f.sub.value.fields, v.items, AnyDynamic(f.sub.value.fields) || more, more)
    case TArray =>
      f.elem.Some? && v.Items? && StaticHeadSize(f.elem.value).value > 0 && ItemsDecodable(f.elem.value, v.items, more)
    case _ => true
  }

  // The same for the fields of a tuple. Behind a field in the head the data goes on with the heads
  // to come and the tails, behind one in the tail with the tails to come.
  predicate FieldsDecodable(fields: seq<Field>, values: seq<Value>, afterHeads: bool, more: bool)
    requires |fields| == |values|
    decreases values, 0
  {
    |fields| == 0
    || (&& Decodable(fields[0], values[0], MoreBehind(fields, afterHeads, more))
        && FieldsDecodable(fields[1..], values[1..], afterHeads, more))
  }

  predicate MoreBehind(fields: seq<Field>, afterHeads: bool, more: bool)
    requires |fields| > 0
  {
    if IsDynamic(fields[0]) then AnyDynamic(fields[1..]) || more
    else HeadLength(fields[1..]).value > 0 || afterHeads
  }

  predicate ItemsDecodable(elem: Field, values: seq<Value>, more: bool)
    decreases values, 0
  {
    |values| == 0 || (Decodable(elem, values[0], |values| > 1 || more) && ItemsDecodable(elem, values[1..], more))
  }

  // What decoding gives for v, which is nested to the given depth.
  predicate Back<T(==)>(r: Result<T>, decodable: bool, maxDepth: nat, depth: nat, v: T)
  {
    if decodable then r == Within(maxDepth, depth, v) else r.Err?
  }

  // ---- decoding what was encoded, wherever it stands in the data ----

  lemma {:induction false} ValueBack(d: Decoder, f: Field, v: Value, pos: nat, depth: nat)
    requires ValueEncoding(f, v).Ok? && At(d.data, pos, ValueEncoding(f, v).value)
    requires Aligned(pos) && Aligned(|d.data|) && |d.data| <= MAX_LEN && depth <= d.maxDepth
    ensures Back(if IsDynamic(f) then d.ValueAt(f, pos, depth) else d.StaticValue(f, pos, depth),
                 Decodable(f, v, pos + |ValueEncoding(f, v).value| < |d.data|), d.maxDepth, depth + Depth(v), v)
    decreases v, 2
  {
    hide BytesAt, ElementaryAt, BytesEncoding, TupleEncoding, ArrayEncoding, At, Aligned, StaticHeadSize, DepthAll,
      FieldsDecodable, ItemsDecodable, Decoder.TupleAt, Decoder.ArrayAt;
    BytesFound(d.data, pos, ValueEncoding(f, v).value);
    match f.typ
    case TBytes => BytesBack(d.data, pos, v.bytes);
    case TString => BytesBack(d.data, pos, v.text);
    case TArray => ArrayBack(d, f.elem.value, v.items, pos, depth);
    case TStruct =>
      TupleBack(d, f.sub.value.fields, v.items, pos, depth);
      EncodingLength(f, v);
      if IsDynamic(f) { DynamicHeadSize(f); }
      NextWord(pos, |d.data|, |ValueEncoding(f, v).value|);
    case _ => ElementaryBack(d.data, f, v, pos);
  }

  // Data that goes on goes on for a word.
  lemma NextWord(pos: nat, end: nat, n: nat)
    requires Aligned(pos) && Aligned(end) && Aligned(n) && pos + n <= end
    ensures pos + WORD <= end <==> n > 0 || pos < end
  {
  }

  lemma {:induction false} TupleBack(d: Decoder, fields: seq<Field>, values: seq<Value>, pos: nat, depth: nat)
    requires TupleEncoding(fields, values).Ok? && At(d.data, pos, TupleEncoding(fields, values).value)
    requires Aligned(pos) && Aligned(|d.data|) && |d.data| <= MAX_LEN && depth <= d.maxDepth
    ensures |fields| == |values|
    ensures var more := pos + |TupleEncoding(fields, values).value| < |d.data|;
            Back(d.TupleAt(fields, pos, depth), FieldsDecodable(fields, values, AnyDynamic(fields) || more, more),
                 d.maxDepth, depth + 1 + DepthAll(values), values)
    decreases values, 2
  {
    hide FieldParts, HeadLength, Aligned, At, AnyDynamic, FieldsDecodable, DepthAll, Decoder.FieldsAt;
    var headLen := HeadLength(fields).value;
    var p := FieldParts(fields, values, headLen, 0).value;
    PartsLength(fields, values, headLen, 0);
    AlignedWords(0);
    BytesFound(d.data, pos, p.head + p.tail);
    AtConcat(d.data, pos, p.head, p.tail);
    if depth + 1 <= d.maxDepth {
      FieldsBack(d, fields, values, headLen, 0, pos, pos, depth + 1);
    }
  }

  // Whether the data goes on behind the first field.
  lemma BehindFirst(fields: seq<Field>, values: seq<Value>, headLen: nat, tailLen: nat, start: nat, cursor: nat, end: nat)
    requires 0 < |fields| == |values| && FieldParts(fields, values, headLen, tailLen).Ok?
    requires cursor + |FieldParts(fields, values, headLen, tailLen).value.head| <= end
    requires start + headLen + tailLen + |FieldParts(fields, values, headLen, tailLen).value.tail| <= end
    ensures var p := FieldParts(fields, values, headLen, tailLen).value;
            var place := if IsDynamic(fields[0]) then start + headLen + tailLen else cursor;
            place + |ValueEncoding(fields[0], values[0]).value| < end
            <==> MoreBehind(fields, cursor + |p.head| < end, start + headLen + tailLen + |p.tail| < end)
  {
    hide LengthWord, ValueEncoding, Aligned, IsDynamic, AnyDynamic;
    var e := ValueEncoding(fields[0], values[0]).value;
    PartsLength(fields[1..], values[1..], headLen, tailLen + if IsDynamic(fields[0]) then |e| else 0);
  }

  // The first value and the others, unless one of them is refused.
  function Joined(first: Result<Value>, others: Result<seq<Value>>): (r: Result<seq<Value>>)
  {
    if first.Err? then Err(first.error) else if others.Err? then others else Ok([first.value] + others.value)
  }

  lemma JoinedBack(first: Result<Value>, others: Result<seq<Value>>, found: bool, foundAll: bool,
                   maxDepth: nat, depth: nat, values: seq<Value>)
    requires |values| > 0 && depth <= maxDepth
    requires Back(first, found, maxDepth, depth + Depth(values[0]), values[0])
    requires Back(others, foundAll, maxDepth, depth + DepthAll(values[1..]), values[1..])
    ensures Back(Joined(first, others), found && foundAll, maxDepth, depth + DepthAll(values), values)
  {
    hide Depth;
    assert [values[0]] + values[1..] == values;
  }

  lemma {:induction false} FieldsBack(d: Decoder, fields: seq<Field>, values: seq<Value>, headLen: nat, tailLen: nat,
                                      start: nat, cursor: nat, depth: nat)
    requires FieldsPlaced(d.data, fields, values, headLen, tailLen, start, cursor)
    requires Aligned(|d.data|) && |d.data| <= MAX_LEN && depth <= d.maxDepth
    ensures start <= |d.data|
    ensures var p := FieldParts(fields, values, headLen, tailLen).value;
            Back(d.FieldsAt(fields, start, cursor, depth),
                 FieldsDecodable(fields, values, cursor + |p.head| < |d.data|,
                                 start + headLen + tailLen + |p.tail| < |d.data|),
                 d.maxDepth, depth + DepthAll(values), values)
    decreases values, 1
  {
    hide ValueEncoding, FieldsPlaced, At, Aligned, IsDynamic, StaticHeadSize, Decodable, MoreBehind,
      FieldParts, FieldsDecodable, DepthAll, Back, Decoder.ValueThrough, Decoder.StaticValue, Decoder.FieldsAt;
    PlacedInside(d.data, fields, values, headLen, tailLen, start, cursor);
    var p := FieldParts(fields, values, headLen, tailLen).value;
    var afterHeads, more := cursor + |p.head| < |d.data|, start + headLen + tailLen + |p.tail| < |d.data|;
    if |fields| > 0 {
      var f, e := fields[0], ValueEncoding(fields[0], values[0]).value;
      var size := if IsDynamic(f) then WORD else |e|;
      FirstPlaced(d.data, fields, values, headLen, tailLen, start, cursor);
      FirstField(d, fields, values, headLen, tailLen, start, cursor, depth);
      FieldsBack(d, fields[1..], values[1..], headLen, tailLen + if IsDynamic(f) then |e| else 0, start, cursor + size, depth);
      FieldsJoined(d, fields, values, start, cursor, depth, size, afterHeads, more);
    } else {
      NoFields(d, fields, values, start, cursor, depth, afterHeads, more);
    }
  }

  // One step of the decoder, on a field that is inside the data.
  lemma FieldsJoined(d: Decoder, fields: seq<Field>, values: seq<Value>, start: nat, cursor: nat, depth: nat,
                     size: nat, afterHeads: bool, more: bool)
    requires 0 < |fields| == |values| && start <= |d.data| && cursor + size <= |d.data| && depth <= d.maxDepth
    requires size == if IsDynamic(fields[0]) then WORD else StaticHeadSize(fields[0]).value
    requires Back(if IsDynamic(fields[0]) then d.ValueThrough(fields[0], start, cursor, depth)
                  else d.StaticValue(fields[0], cursor, depth),
                  Decodable(fields[0], values[0], MoreBehind(fields, afterHeads, more)),
                  d.maxDepth, depth + Depth(values[0]), values[0])
    requires Back(d.FieldsAt(fields[1..], start, cursor + size, depth),
                  FieldsDecodable(fields[1..], values[1..], afterHeads, more),
                  d.maxDepth, depth + DepthAll(values[1..]), values[1..])
    ensures Back(d.FieldsAt(fields, start, cursor, depth), FieldsDecodable(fields, values, afterHeads, more),
                 d.maxDepth, depth + DepthAll(values), values)
  {
    hide IsDynamic, StaticHeadSize, Decodable, MoreBehind, DepthAll, Back, Decoder.ValueThrough, Decoder.StaticValue;
    JoinedBack(if IsDynamic(fields[0]) then d.ValueThrough(fields[0], start, cursor, depth)
               else d.StaticValue(fields[0], cursor, depth),
               d.FieldsAt(fields[1..], start, cursor + size, depth),
               Decodable(fields[0], values[0], MoreBehind(fields, afterHeads, more)),
               FieldsDecodable(fields[1..], values[1..], afterHeads, more), d.maxDepth, depth, values);
  }

  lemma NoFields(d: Decoder, fields: seq<Field>, values: seq<Value>, start: nat, cursor: nat, depth: nat,
                 afterHeads: bool, more: bool)
    requires |fields| == |values| == 0 && start <= |d.data| && depth <= d.maxDepth
    ensures Back(d.FieldsAt(fields, start, cursor, depth), FieldsDecodable(fields, values, afterHeads, more),
                 d.maxDepth, depth + DepthAll(values), values)
  {
  }

  // The first field is decoded.
  lemma {:induction false} FirstField(d: Decoder, fields: seq<Field>, values: seq<Value>, headLen: nat, tailLen: nat,
                                      start: nat, cursor: nat, depth: nat)
    requires FieldsPlaced(d.data, fields, values, headLen, tailLen, start, cursor) && |fields| > 0
    requires IsDynamic(fields[0]) ==> start <= |d.data| && cursor + WORD <= |d.data|
    requires Aligned(|d.data|) && |d.data| <= MAX_LEN && depth <= d.maxDepth
    ensures var p := FieldParts(fields, values, headLen, tailLen).value;
            Back(if IsDynamic(fields[0]) then d.ValueThrough(fields[0], start, cursor, depth)
                 else d.StaticValue(fields[0], cursor, depth),
                 Decodable(fields[0], values[0],
                           MoreBehind(fields, cursor + |p.head| < |d.data|,
                                      start + headLen + tailLen + |p.tail| < |d.data|)),
                 d.maxDepth, depth + Depth(values[0]), values[0])
    decreases values, 0
  {
    hide LengthWord, ValueEncoding, Uint64At, Depth, At, Aligned, IsDynamic, StaticHeadSize, Decodable,
      MoreBehind, Within, Decoder.ValueAt, Decoder.StaticValue;
    var p := FieldParts(fields, values, headLen, tailLen).value;
    BytesFound(d.data, cursor, p.head);
    BytesFound(d.data, start + headLen + tailLen, p.tail);
    FirstPlaced(d.data, fields, values, headLen, tailLen, start, cursor);
    BehindFirst(fields, values, headLen, tailLen, start, cursor, |d.data|);
    ValueBack(d, fields[0], values[0], if IsDynamic(fields[0]) then start + headLen + tailLen else cursor, depth);
  }

  lemma {:induction false} ArrayBack(d: Decoder, elem: Field, values: seq<Value>, pos: nat, depth: nat)
    requires ArrayEncoding(elem, values).Ok? && At(d.data, pos, ArrayEncoding(elem, values).value)
    requires Aligned(pos) && Aligned(|d.data|) && |d.data| <= MAX_LEN && depth <= d.maxDepth
    ensures Back(d.ArrayAt(elem, pos, depth),
                 StaticHeadSize(elem).value > 0
                 && ItemsDecodable(elem, values, pos + |ArrayEncoding(elem, values).value| < |d.data|),
                 d.maxDepth, depth + 1 + DepthAll(values), values)
    decreases values, 2
  {
    hide LengthWord, ItemParts, Uint64At, At, Aligned, IsDynamic, ItemsDecodable, DepthAll, StaticHeadSize;
    if StaticHeadSize(elem).value > 0 {
      var n := |values|;
      var size := StaticHeadSize(elem).value;
      ArrayFound(d.data, elem, values, pos);
      if depth + 1 <= d.maxDepth {
        if IsDynamic(elem) {
          assert size == WORD by { DynamicHeadSize(elem); }
          ItemsBack(d, elem, values, n * WORD, 0, pos + WORD, pos + WORD, depth + 1);
        } else {
          StaticItemsBack(d, elem, values, n * WORD, 0, pos + WORD, depth + 1);
        }
      }
    } else {
      if IsDynamic(elem) { DynamicHeadSize(elem); }
    }
  }

  // An array in the data: its length, and then its heads and its tails.
  lemma ArrayFound(data: seq<Byte>, elem: Field, values: seq<Value>, pos: nat)
    requires ArrayEncoding(elem, values).Ok? && At(data, pos, ArrayEncoding(elem, values).value)
    requires Aligned(pos) && |data| <= MAX_LEN && StaticHeadSize(elem).value > 0
    ensures var n, size := |values|, StaticHeadSize(elem).value;
            var p := ItemParts(elem, values, n * WORD, 0).value;
            && |ArrayEncoding(elem, values).value| == WORD + |p.head| + |p.tail|
            && |p.head| == n * size && (!IsDynamic(elem) ==> |p.tail| == 0)
            && pos + WORD + n * WORD <= pos + WORD + n * size <= |data|
            && At(data, pos + WORD, p.head) && At(data, pos + WORD + n * size, p.tail)
            && Uint64At(data, pos) == Ok(n)
            && n <= (|data| - (pos + WORD)) / size && n <= (|data| - (pos + WORD)) / WORD && n <= (|data| - pos) / WORD
            && Aligned(pos + WORD) && Aligned(n * WORD) && Aligned(0)
  {
    hide LengthWord, ItemParts, StaticHeadSize, Uint64At, At, Aligned, IsDynamic;
    var n, size := |values|, StaticHeadSize(elem).value;
    var p := ItemParts(elem, values, n * WORD, 0).value;
    AlignedWords(n);
    AlignedWords(1);
    AlignedWords(0);
    AlignedSum(pos, WORD);
    ItemPartsLength(elem, values, n * WORD, 0);
    MulLe(WORD, size, n);
    assert LengthWord(n) + p.head + p.tail == LengthWord(n) + (p.head + p.tail);
    BytesFound(data, pos, LengthWord(n) + p.head + p.tail);
    AtConcat(data, pos, LengthWord(n), p.head + p.tail);
    AtConcat(data, pos + WORD, p.head, p.tail);
    LengthWordAt(data, pos, n);
    QuotientAtLeast(n, size, |data| - (pos + WORD));
    QuotientAtLeast(n, WORD, |data| - (pos + WORD));
    QuotientAtLeast(n, WORD, |data| - pos);
  }

  lemma QuotientAtLeast(n: int, d: int, m: int)
    requires 0 < d && n * d <= m
    ensures n <= m / d
  {
    if m / d < n {
      MulLe(m / d + 1, n, d);
      Distribute(m / d, 1, d);
    }
  }

  lemma {:induction false} ItemsBack(d: Decoder, elem: Field, values: seq<Value>, headLen: nat, tailLen: nat,
                                     start: nat, cursor: nat, depth: nat)
    requires IsDynamic(elem) && ItemParts(elem, values, headLen, tailLen).Ok?
    requires At(d.data, cursor, ItemParts(elem, values, headLen, tailLen).value.head)
    requires At(d.data, start + headLen + tailLen, ItemParts(elem, values, headLen, tailLen).value.tail)
    requires Aligned(start) && Aligned(headLen) && Aligned(tailLen) && Aligned(|d.data|)
    requires |d.data| <= MAX_LEN && depth <= d.maxDepth
    requires start <= |d.data| && cursor + |values| * WORD <= |d.data|
    ensures var p := ItemParts(elem, values, headLen, tailLen).value;
            Back(d.ItemsAt(elem, |values|, start, cursor, depth),
                 ItemsDecodable(elem, values, start + headLen + tailLen + |p.tail| < |d.data|),
                 d.maxDepth, depth + DepthAll(values), values)
    decreases values, 1
  {
    hide LengthWord, ValueEncoding, Depth, At, Aligned, IsDynamic, Decodable, Decoder.ValueThrough;
    if |values| > 0 {
      FirstItem(d, elem, values, headLen, tailLen, start, cursor, depth);
      var e := ValueEncoding(elem, values[0]).value;
      ItemsBack(d, elem, values[1..], headLen, tailLen + |e|, start, cursor + WORD, depth);
      assert [values[0]] + values[1..] == values;
    }
  }

  // The first element is found through its offset, and the others are placed behind it.
  lemma {:induction false} FirstItem(d: Decoder, elem: Field, values: seq<Value>, headLen: nat, tailLen: nat,
                                     start: nat, cursor: nat, depth: nat)
    requires IsDynamic(elem) && ItemParts(elem, values, headLen, tailLen).Ok? && |values| > 0
    requires At(d.data, cursor, ItemParts(elem, values, headLen, tailLen).value.head)
    requires At(d.data, start + headLen + tailLen, ItemParts(elem, values, headLen, tailLen).value.tail)
    requires Aligned(start) && Aligned(headLen) && Aligned(tailLen) && Aligned(|d.data|)
    requires |d.data| <= MAX_LEN && depth <= d.maxDepth
    requires start <= |d.data| && cursor + WORD <= |d.data|
    ensures var p, e := ItemParts(elem, values, headLen, tailLen).value, ValueEncoding(elem, values[0]).value;
            var rest := ItemParts(elem, values[1..], headLen, tailLen + |e|);
            && rest.Ok? && |p.tail| == |e| + |rest.value.tail| && Aligned(tailLen + |e|)
            && At(d.data, cursor + WORD, rest.value.head)
            && At(d.data, start + headLen + tailLen + |e|, rest.value.tail)
            && Back(d.ValueThrough(elem, start, cursor, depth),
                    Decodable(elem, values[0], |values| > 1 || start + headLen + tailLen + |p.tail| < |d.data|),
                    d.maxDepth, depth + Depth(values[0]), values[0])
    decreases values, 0
  {
    hide LengthWord, ValueEncoding, Uint64At, Depth, At, Aligned, IsDynamic, Decodable, Decoder.ValueAt;
    var p := ItemParts(elem, values, headLen, tailLen).value;
    BytesFound(d.data, start + headLen + tailLen, p.tail);
    var e := ValueEncoding(elem, values[0]).value;
    EncodingLength(elem, values[0]);
    var rest := ItemParts(elem, values[1..], headLen, tailLen + |e|).value;
    ItemPartsLength(elem, values[1..], headLen, tailLen + |e|);
    AtConcat(d.data, cursor, LengthWord(headLen + tailLen), rest.head);
    AtConcat(d.data, start + headLen + tailLen, e, rest.tail);
    LengthWordAt(d.data, cursor, headLen + tailLen);
    AlignedSum(headLen, tailLen);
    AlignedSum(start, headLen + tailLen);
    AlignedSum(tailLen, |e|);
    OffsetAligned(headLen + tailLen);
    ValueBack(d, elem, values[0], start + headLen + tailLen, depth);
  }

  lemma {:induction false} StaticItemsBack(d: Decoder, elem: Field, values: seq<Value>, headLen: nat, tailLen: nat,
                                           cursor: nat, depth: nat)
    requires !IsDynamic(elem) && StaticHeadSize(elem).value > 0 && ItemParts(elem, values, headLen, tailLen).Ok?
    requires At(d.data, cursor, ItemParts(elem, values, headLen, tailLen).value.head)
    requires Aligned(cursor) && Aligned(|d.data|) && |d.data| <= MAX_LEN && depth <= d.maxDepth
    ensures var p := ItemParts(elem, values, headLen, tailLen).value;
            Back(d.StaticItemsAt(elem, |values|, cursor, StaticHeadSize(elem).value, depth),
                 ItemsDecodable(elem, values, cursor + |p.head| < |d.data|),
                 d.maxDepth, depth + DepthAll(values), values)
    decreases values, 0
  {
    hide LengthWord, ValueEncoding, Depth, At, Aligned, IsDynamic, StaticHeadSize, Decodable, Decoder.StaticValue;
    var p := ItemParts(elem, values, headLen, tailLen).value;
    BytesFound(d.data, cursor, p.head);
    if |values| > 0 {
      var e := ValueEncoding(elem, values[0]).value;
      var size := StaticHeadSize(elem).value;
      EncodingLength(elem, values[0]);
      var rest := ItemParts(elem, values[1..], headLen, tailLen).value;
      ItemPartsLength(elem, values[1..], headLen, tailLen);
      if |values| > 1 { MulLe(1, |values[1..]|, size); }
      AtConcat(d.data, cursor, e, rest.head);
      AlignedSum(cursor, |e|);
      ValueBack(d, elem, values[0], cursor, depth);
      StaticItemsBack(d, elem, values[1..], headLen, tailLen, cursor + |e|, depth);
      assert [values[0]] + values[1..] == values;
    }
  }

  // ---- the codec as a whole ----

  // Whether the values of a tuple come back when nothing follows their encoding.
  predicate TupleDecodable(fields: seq<Field>, values: seq<Value>)
  {
    |fields| == |values| && FieldsDecodable(fields, values, AnyDynamic(fields), false)
  }

  // Decoding an encoding gives the values back exactly when no struct without bytes stands at its
  // end, none is the element of an array, and the values are nested at most 256 deep.
  lemma RoundTrip(schema: Schema, values: seq<Value>)
    requires TupleEncoding(schema.fields, values).Ok? && |TupleEncoding(schema.fields, values).value| <= MAX_LEN
    ensures Decoded(schema, TupleEncoding(schema.fields, values).value) == Ok(values)
       <==> TupleDecodable(schema.fields, values) && 1 + DepthAll(values) <= MAX_DEPTH
    ensures TupleDecodable(schema.fields, values) && 1 + DepthAll(values) > MAX_DEPTH
        ==> Decoded(schema, TupleEncoding(schema.fields, values).value) == Err(DepthLimit)
    ensures !TupleDecodable(schema.fields, values) ==> Decoded(schema, TupleEncoding(schema.fields, values).value).Err?
  {
    hide FieldParts, FieldsDecodable, AnyDynamic, Decoder.TupleAt;
    var data := TupleEncoding(schema.fields, values).value;
    TupleEncodingLength(schema.fields, values);
    AtWhole(data);
    TupleBack(Decoder(data, MAX_DEPTH), schema.fields, values, 0, 0);
  }

  // Without structs without fields there is nothing to check.
  lemma {:induction false} NoEmptyStructsDecodable(f: Field, v: Value, more: bool)
    requires NoEmptyStruct(f) && Conforms(f, v)
    ensures Decodable(f, v, more)
    decreases v, 1
  {
    hide NoEmptyStructs, ConformsAll, EachConforms, FieldsDecodable, ItemsDecodable, AnyDynamic, StaticHeadSize;
    match f.typ
    case TStruct =>
      StaticSizePositive(f);
      NoEmptyFieldsDecodable(f.sub.value.fields, v.items, AnyDynamic(f.sub.value.fields) || more, more);
    case TArray =>
      StaticSizePositive(f.elem.value);
      NoEmptyItemsDecodable(f.elem.value, v.items, more);
    case _ =>
  }

  lemma {:induction false} NoEmptyFieldsDecodable(fields: seq<Field>, values: seq<Value>, afterHeads: bool, more: bool)
    requires NoEmptyStructs(fields) && ConformsAll(fields, values)
    ensures |fields| == |values| && FieldsDecodable(fields, values, afterHeads, more)
    decreases values, 0
  {
    hide NoEmptyStruct, Conforms, Decodable, MoreBehind;
    if |fields| > 0 && |values| > 0 {
      NoEmptyStructsDecodable(fields[0], values[0], MoreBehind(fields, afterHeads, more));
      NoEmptyFieldsDecodable(fields[1..], values[1..], afterHeads, more);
    }
  }

  lemma {:induction false} NoEmptyItemsDecodable(elem: Field, values: seq<Value>, more: bool)
    requires NoEmptyStruct(elem) && EachConforms(elem, values)
    ensures ItemsDecodable(elem, values, more)
    decreases values, 0
  {
    hide NoEmptyStruct, Conforms, Decodable;
    if |values| > 0 {
      NoEmptyStructsDecodable(elem, values[0], |values| > 1 || more);
      NoEmptyItemsDecodable(elem, values[1..], more);
    }
  }

  // The promise for schemas whose structs all have fields.
  lemma PlainRoundTrip(schema: Schema, values: seq<Value>)
    requires NoEmptyStructs(schema.fields)
    requires TupleEncoding(schema.fields, values).Ok? && |TupleEncoding(schema.fields, values).value| <= MAX_LEN
    ensures Decoded(schema, TupleEncoding(schema.fields, values).value)
         == Within(MAX_DEPTH, 1 + DepthAll(values), values)
  {
    hide TupleEncoding, Decoded, FieldsDecodable, DepthAll;
    EncodesConforming(schema, values);
    NoEmptyFieldsDecodable(schema.fields, values, AnyDynamic(schema.fields), false);
    RoundTrip(schema, values);
  }

  // Whatever bytes come in, what the decoder returns matches the schema and is at most 256 deep;
  // so the encoder takes it, and decoding that canonical encoding gives the same values again, unless a
  // struct without bytes that was not the last thing in the data is the last thing in the encoding.
  lemma DecodedConforms(schema: Schema, data: seq<Byte>)
    requires Decoded(schema, data).Ok?
    ensures var values := Decoded(schema, data).value;
            && ConformsAll(schema.fields, values)
            && 1 + DepthAll(values) <= MAX_DEPTH
            && TupleEncoding(schema.fields, values).Ok?
            && (TupleDecodable(schema.fields, values) && |TupleEncoding(schema.fields, values).value| <= MAX_LEN
                ==> Decoded(schema, TupleEncoding(schema.fields, values).value) == Ok(values))
  {
    hide TupleEncoding, Decoder.TupleAt, ConformsAll, TupleDecodable, DepthAll;
    var values := Decoded(schema, data).value;
    TupleAtConforms(Decoder(data, MAX_DEPTH), schema.fields, 0, 0);
    EncodesConforming(schema, values);
    if TupleDecodable(schema.fields, values) && |TupleEncoding(schema.fields, values).value| <= MAX_LEN {
      RoundTrip(schema, values);
    }
  }

  lemma {:induction false} TupleAtConforms(d: Decoder, fields: seq<Field>, start: nat, depth: nat)
    requires d.TupleAt(fields, start, depth).Ok?
    ensures var values := d.TupleAt(fields, start, depth).value;
            ConformsAll(fields, values) && depth + 1 + DepthAll(values) <= d.maxDepth
    decreases fields, 3
  {
    hide Decoder.FieldsAt, ConformsAll, DepthAll;
    FieldsAtConforms(d, fields, start, start, depth + 1);
  }

  lemma {:induction false} FieldsAtConforms(d: Decoder, fields: seq<Field>, start: nat, cursor: nat, depth: nat)
    requires start <= |d.data| && depth <= d.maxDepth && d.FieldsAt(fields, start, cursor, depth).Ok?
    ensures var values := d.FieldsAt(fields, start, cursor, depth).value;
            ConformsAll(fields, values) && depth + DepthAll(values) <= d.maxDepth
    decreases fields, 2
  {
    hide IsDynamic, StaticHeadSize, Conforms, Depth, Uint64At, Decoder.ValueAt, Decoder.StaticValue;
    if |fields| > 0 {
      var f := fields[0];
      var size := if IsDynamic(f) then WORD else StaticHeadSize(f).value;
      if IsDynamic(f) {
        ValueAtConforms(d, f, start + Uint64At(d.data, cursor).value, depth);
      } else {
        StaticValueConforms(d, f, cursor, depth);
      }
      FieldsAtConforms(d, fields[1..], start, cursor + size, depth);
      var values := d.FieldsAt(fields, start, cursor, depth).value;
      assert values[1..] == d.FieldsAt(fields[1..], start, cursor + size, depth).value;
    }
  }

  lemma {:induction false} ValueAtConforms(d: Decoder, f: Field, pos: nat, depth: nat)
    requires pos <= |d.data| && depth <= d.maxDepth && d.ValueAt(f, pos, depth).Ok?
    ensures var v := d.ValueAt(f, pos, depth).value; Conforms(f, v) && depth + Depth(v) <= d.maxDepth
    decreases f, 1
  {
    hide BytesAt, Decoder.TupleAt, Decoder.ArrayAt, Decoder.StaticValue, ConformsAll, EachConforms, DepthAll;
    match f.typ
    case TBytes =>
    case TString =>
    case TStruct => TupleAtConforms(d, f.sub.value.fields, pos, depth);
    case TArray => ArrayAtConforms(d, f.elem.value, pos, depth);
    case _ => StaticValueConforms(d, f, pos, depth);
  }

  lemma {:induction false} StaticValueConforms(d: Decoder, f: Field, pos: nat, depth: nat)
    requires depth <= d.maxDepth && d.StaticValue(f, pos, depth).Ok?
    ensures var v := d.StaticValue(f, pos, depth).value; Conforms(f, v) && depth + Depth(v) <= d.maxDepth
    decreases f, 0
  {
    hide Uint64At, LimbAt, Decoder.TupleAt, ConformsAll, EachConforms, DepthAll;
    if f.typ.TStruct? {
      TupleAtConforms(d, f.sub.value.fields, pos, depth);
    }
  }

  lemma {:induction false} ArrayAtConforms(d: Decoder, elem: Field, pos: nat, depth: nat)
    requires d.ArrayAt(elem, pos, depth).Ok?
    ensures var values := d.ArrayAt(elem, pos, depth).value;
            EachConforms(elem, values) && depth + 1 + DepthAll(values) <= d.maxDepth
    decreases elem, 4
  {
    hide Uint64At, IsDynamic, StaticHeadSize, Decoder.ItemsAt, Decoder.StaticItemsAt, EachConforms, DepthAll;
    var n := Uint64At(d.data, pos).value;
    if IsDynamic(elem) {
      ItemsAtConform(d, elem, n, pos + WORD, pos + WORD, depth + 1);
    } else {
      StaticItemsAtConform(d, elem, n, pos + WORD, StaticHeadSize(elem).value, depth + 1);
    }
  }

  lemma {:induction false} ItemsAtConform(d: Decoder, elem: Field, n: nat, headStart: nat, cursor: nat, depth: nat)
    requires headStart <= |d.data| && cursor + n * WORD <= |d.data|
    requires depth <= d.maxDepth && d.ItemsAt(elem, n, headStart, cursor, depth).Ok?
    ensures var values := d.ItemsAt(elem, n, headStart, cursor, depth).value;
            EachConforms(elem, values) && depth + DepthAll(values) <= d.maxDepth
    decreases elem, 3, n
  {
    hide Uint64At, Conforms, Depth, Decoder.ValueAt;
    if n > 0 {
      ValueAtConforms(d, elem, headStart + Uint64At(d.data, cursor).value, depth);
      ItemsAtConform(d, elem, n - 1, headStart, cursor + WORD, depth);
      var values := d.ItemsAt(elem, n, headStart, cursor, depth).value;
      assert values[1..] == d.ItemsAt(elem, n - 1, headStart, cursor + WORD, depth).value;
    }
  }

  lemma {:induction false} StaticItemsAtConform(d: Decoder, elem: Field, n: nat, cursor: nat, size: nat, depth: nat)
    requires depth <= d.maxDepth && d.StaticItemsAt(elem, n, cursor, size, depth).Ok?
    ensures var values := d.StaticItemsAt(elem, n, cursor, size, depth).value;
            EachConforms(elem, values) && depth + DepthAll(values) <= d.maxDepth
    decreases elem, 3, n
  {
    hide Conforms, Depth, Decoder.StaticValue;
    if n > 0 {
      StaticValueConforms(d, elem, cursor, depth);
      StaticItemsAtConform(d, elem, n - 1, cursor + size, size, depth);
      var values := d.StaticItemsAt(elem, n, cursor, size, depth).value;
      assert values[1..] == d.StaticItemsAt(elem, n - 1, cursor + size, size, depth).value;
    }
  }

  // ---- structs without fields ----

  // An array whose elements take no bytes is encoded, but never decoded, whatever the data.
  lemma ZeroWidthArray(d: Decoder, elem: Field, values: seq<Value>, pos: nat, depth: nat)
    requires !IsDynamic(elem) && StaticHeadSize(elem).value == 0
    ensures ArrayEncoding(elem, values).Ok? <==> EachConforms(elem, values)
    ensures d.ArrayAt(elem, pos, depth).Err?
  {
    hide IsDynamic, StaticHeadSize, EachConforms, ItemParts, LengthWord, Uint64At;
    ItemsConform(elem, values, |values| * WORD, 0);
  }

  // Nor does a tuple come back whose fields are all static and whose last field takes no bytes.
  lemma TrailingEmptyStruct(schema: Schema, values: seq<Value>)
    requires |schema.fields| > 0 && !AnyDynamic(schema.fields)
    requires StaticHeadSize(schema.fields[|schema.fields| - 1]).value == 0
    requires TupleEncoding(schema.fields, values).Ok? && |TupleEncoding(schema.fields, values).value| <= MAX_LEN
    ensures Decoded(schema, TupleEncoding(schema.fields, values).value).Err?
  {
    RoundTrip(schema, values);
    LastNotDecodable(schema.fields, values);
  }

  lemma {:induction false} LastNotDecodable(fields: seq<Field>, values: seq<Value>)
    requires 0 < |fields| == |values| && !AnyDynamic(fields) && StaticHeadSize(fields[|fields| - 1]).value == 0
    ensures !FieldsDecodable(fields, values, false, false)
  {
    hide Decodable, StaticHeadSize, IsDynamic;
    if |fields| > 1 {
      LastNotDecodable(fields[1..], values[1..]);
    } else {
      assert HeadLength(fields[1..]).value == 0;
      ZeroWidthAtEnd(fields[0], values[0]);
    }
  }

  lemma ZeroWidthAtEnd(f: Field, v: Value)
    requires StaticHeadSize(f).value == 0
    ensures !Decodable(f, v, false)
  {
  }
}
