// Different values never share an encoding, whatever the schema and however deeply they are nested.
module AbiInjective {
  import opened Bytes
  import opened Wrappers
  import opened AbiTypes
  import opened AbiEncode
  import opened AbiDecode
  import opened AbiShape

  // Values as Go can hold them: no slice has more elements than an int counts.
  predicate Countable(v: Value)
  {
    v.Items? ==> |v.items| <= MAX_INT && forall i :: 0 <= i < |v.items| ==> Countable(v.items[i])
  }

  predicate AllCountable(values: seq<Value>)
  {
    forall i :: 0 <= i < |values| ==> Countable(values[i])
  }

  // Two values whose encodings are found at one place are the same value.
  lemma {:induction false} SameValue(data: seq<Byte>, f: Field, v: Value, w: Value, pos: nat)
    requires ValueEncoding(f, v).Ok? && At(data, pos, ValueEncoding(f, v).value)
    requires ValueEncoding(f, w).Ok? && At(data, pos, ValueEncoding(f, w).value)
    requires Aligned(pos) && Countable(v) && Countable(w) && |data| <= MAX_LEN
    ensures v == w
    decreases v, 2
  {
    hide BytesAt, ElementaryAt, BytesEncoding, TupleEncoding, ArrayEncoding, At, Aligned;
    match f.typ
    case TBytes => BytesBack(data, pos, v.bytes); BytesBack(data, pos, w.bytes);
    case TString => BytesBack(data, pos, v.text); BytesBack(data, pos, w.text);
    case TArray => SameArray(data, f.elem.value, v.items, w.items, pos);
    case TStruct => SameTuple(data, f.sub.value.fields, v.items, w.items, pos);
    case _ =>
      ElementaryBack(data, f, v, pos);
      ElementaryBack(data, f, w, pos);
  }

  lemma {:induction false} SameTuple(data: seq<Byte>, fields: seq<Field>, values: seq<Value>, others: seq<Value>, pos: nat)
    requires TupleEncoding(fields, values).Ok? && At(data, pos, TupleEncoding(fields, values).value)
    requires TupleEncoding(fields, others).Ok? && At(data, pos, TupleEncoding(fields, others).value)
    requires Aligned(pos) && AllCountable(values) && AllCountable(others) && |data| <= MAX_LEN
    ensures values == others
    decreases values, 1
  {
    hide FieldParts, HeadLength, At, Aligned, AnyDynamic;
    AlignedWords(0);
    var headLen := HeadLength(fields).value;
    var p, q := FieldParts(fields, values, headLen, 0).value, FieldParts(fields, others, headLen, 0).value;
    PartsLength(fields, values, headLen, 0);
    PartsLength(fields, others, headLen, 0);
    AtConcat(data, pos, p.head, p.tail);
    AtConcat(data, pos, q.head, q.tail);
    SameFields(data, fields, values, others, headLen, 0, pos, pos);
  }

  // As long as the values agree, so do the places of the tails.
  lemma {:induction false} SameFields(data: seq<Byte>, fields: seq<Field>, values: seq<Value>, others: seq<Value>,
                                      headLen: nat, tailLen: nat, start: nat, cursor: nat)
    requires FieldsPlaced(data, fields, values, headLen, tailLen, start, cursor)
    requires FieldsPlaced(data, fields, others, headLen, tailLen, start, cursor)
    requires AllCountable(values) && AllCountable(others) && |data| <= MAX_LEN
    ensures values == others
    decreases values, 0
  {
    hide ValueEncoding, FieldParts, FieldsPlaced, At, Aligned, IsDynamic, Countable;
    PlacedInside(data, fields, values, headLen, tailLen, start, cursor);
    PlacedInside(data, fields, others, headLen, tailLen, start, cursor);
    if |fields| > 0 {
      var f, e := fields[0], ValueEncoding(fields[0], values[0]).value;
      var dyn := IsDynamic(f);
      FirstPlaced(data, fields, values, headLen, tailLen, start, cursor);
      FirstPlaced(data, fields, others, headLen, tailLen, start, cursor);
      SameValue(data, f, values[0], others[0], if dyn then start + headLen + tailLen else cursor);
      SameFields(data, fields[1..], values[1..], others[1..], headLen, tailLen + if dyn then |e| else 0, start,
                 cursor + if dyn then WORD else |e|);
      assert [values[0]] + values[1..] == values && [others[0]] + others[1..] == others;
    }
  }

  lemma {:induction false} SameArray(data: seq<Byte>, elem: Field, values: seq<Value>, others: seq<Value>, pos: nat)
    requires ArrayEncoding(elem, values).Ok? && At(data, pos, ArrayEncoding(elem, values).value)
    requires ArrayEncoding(elem, others).Ok? && At(data, pos, ArrayEncoding(elem, others).value)
    requires |values| <= MAX_INT && |others| <= MAX_INT && Aligned(pos)
    requires AllCountable(values) && AllCountable(others) && |data| <= MAX_LEN
    ensures values == others
    decreases values, 1
  {
    hide ItemsPlaced, ArrayEncoding, At, Aligned, Uint64At, StaticHeadSize;
    ArrayPlaced(data, elem, values, pos);
    ArrayPlaced(data, elem, others, pos);
    var n := |values|;
    SameItems(data, elem, values, others, n * WORD, 0, pos + WORD, pos + WORD + n * StaticHeadSize(elem).value);
  }

  // The heads and tails of the elements to come, and where they stand in the data.
  ghost predicate ItemsPlaced(data: seq<Byte>, elem: Field, values: seq<Value>, headLen: nat, tailLen: nat,
                              cursor: nat, tail: nat)
  {
    && ItemParts(elem, values, headLen, tailLen).Ok?
    && At(data, cursor, ItemParts(elem, values, headLen, tailLen).value.head)
    && At(data, tail, ItemParts(elem, values, headLen, tailLen).value.tail)
    && Aligned(cursor) && Aligned(tail)
  }

  lemma ArrayPlaced(data: seq<Byte>, elem: Field, values: seq<Value>, pos: nat)
    requires ArrayEncoding(elem, values).Ok? && At(data, pos, ArrayEncoding(elem, values).value)
    requires |values| <= MAX_INT && Aligned(pos)
    ensures pos + WORD <= |data| && Uint64At(data, pos) == Ok(|values|)
    ensures ItemsPlaced(data, elem, values, |values| * WORD, 0, pos + WORD,
                        pos + WORD + |values| * StaticHeadSize(elem).value)
  {
    hide LengthWord, ItemParts, At, Aligned, Uint64At, StaticHeadSize, IsDynamic;
    var p := ItemParts(elem, values, |values| * WORD, 0).value;
    ItemPartsLength(elem, values, |values| * WORD, 0);
    assert LengthWord(|values|) + p.head + p.tail == LengthWord(|values|) + (p.head + p.tail);
    BytesFound(data, pos, LengthWord(|values|) + p.head + p.tail);
    AtConcat(data, pos, LengthWord(|values|), p.head + p.tail);
    AtConcat(data, pos + WORD, p.head, p.tail);
    LengthWordAt(data, pos, |values|);
    AlignedWords(1);
    AlignedSum(pos, WORD);
    AlignedSum(pos + WORD, |p.head|);
  }

  lemma FirstItemPlaced(data: seq<Byte>, elem: Field, values: seq<Value>, headLen: nat, tailLen: nat,
                        cursor: nat, tail: nat)
    requires ItemsPlaced(data, elem, values, headLen, tailLen, cursor, tail) && |values| > 0
    ensures ValueEncoding(elem, values[0]).Ok?
    ensures var e := ValueEncoding(elem, values[0]).value;
            if IsDynamic(elem) then
              && At(data, tail, e) && Aligned(tail)
              && ItemsPlaced(data, elem, values[1..], headLen, tailLen + |e|, cursor + WORD, tail + |e|)
            else
              && At(data, cursor, e) && Aligned(cursor)
              && ItemsPlaced(data, elem, values[1..], headLen, tailLen, cursor + |e|, tail)
  {
    hide LengthWord, ValueEncoding, At, Aligned, IsDynamic;
    var e, dyn := ValueEncoding(elem, values[0]).value, IsDynamic(elem);
    var rest := ItemParts(elem, values[1..], headLen, tailLen + if dyn then |e| else 0).value;
    EncodingLength(elem, values[0]);
    AlignedWords(1);
    AlignedSum(cursor, WORD);
    AlignedSum(cursor, |e|);
    AlignedSum(tail, |e|);
    if dyn {
      AtConcat(data, cursor, LengthWord(headLen + tailLen), rest.head);
      AtConcat(data, tail, e, rest.tail);
    } else {
      AtConcat(data, cursor, e, rest.head);
    }
  }

  lemma {:induction false} SameItems(data: seq<Byte>, elem: Field, values: seq<Value>, others: seq<Value>,
                                     headLen: nat, tailLen: nat, cursor: nat, tail: nat)
    requires |values| == |others|
    requires ItemsPlaced(data, elem, values, headLen, tailLen, cursor, tail)
    requires ItemsPlaced(data, elem, others, headLen, tailLen, cursor, tail)
    requires AllCountable(values) && AllCountable(others) && |data| <= MAX_LEN
    ensures values == others
    decreases values, 0
  {
    hide ValueEncoding, ItemsPlaced, At, Aligned, IsDynamic, Countable;
    if |values| > 0 {
      FirstItemPlaced(data, elem, values, headLen, tailLen, cursor, tail);
      FirstItemPlaced(data, elem, others, headLen, tailLen, cursor, tail);
      var e, dyn := ValueEncoding(elem, values[0]).value, IsDynamic(elem);
      SameValue(data, elem, values[0], others[0], if dyn then tail else cursor);
      SameItems(data, elem, values[1..], others[1..], headLen, tailLen + if dyn then |e| else 0,
                cursor + if dyn then WORD else |e|, tail + if dyn then |e| else 0);
      assert [values[0]] + values[1..] == values && [others[0]] + others[1..] == others;
    }
  }

  // Different tuples of values never share an encoding.
  lemma EncodingInjective(schema: Schema, values: seq<Value>, others: seq<Value>)
    requires AllCountable(values) && AllCountable(others)
    requires TupleEncoding(schema.fields, values).Ok? && |TupleEncoding(schema.fields, values).value| <= MAX_LEN
    requires TupleEncoding(schema.fields, values) == TupleEncoding(schema.fields, others)
    ensures values == others
  {
    hide TupleEncoding;
    var data := TupleEncoding(schema.fields, values).value;
    AtWhole(data);
    AlignedWords(0);
    SameTuple(data, schema.fields, values, others, 0);
  }
}
