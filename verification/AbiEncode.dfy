// Encoding values by a schema: heads in order, then tails, with offsets from the tuple's start.
module AbiEncode {
  import opened Words
  import opened Bytes
  import opened Wrappers
  import opened AbiTypes

  function Uint64Word(v: Word): (w: seq<Byte>)
    ensures |w| == WORD
  {
    ZeroBytes(24) + BigEndian(v, 8)
  }

  // A length or offset as the uint64 it is converted to.
  function LengthWord(n: nat): (w: seq<Byte>)
    ensures |w| == WORD
  {
    Uint64Word(n % B)
  }

  function Uint256Word(x: Limbs4): (w: seq<Byte>)
    ensures |w| == WORD
  {
    BigEndian(x[3], 8) + BigEndian(x[2], 8) + BigEndian(x[1], 8) + BigEndian(x[0], 8)
  }

  function PadLength(n: nat): (p: nat)
    ensures p < 32
  {
    (32 - n % 32) % 32
  }

  lemma PadLengthAligns(n: nat)
    ensures (n + PadLength(n)) % 32 == 0
  {
    var r, q := n % 32, n / 32;
    assert n == 32 * q + r;
    assert PadLength(n) == if r == 0 then 0 else 32 - r;
    assert n + PadLength(n) == 32 * (q + if r == 0 then 0 else 1);
  }

  function BytesEncoding(v: seq<Byte>): (e: seq<Byte>)
    ensures |e| == WORD + |v| + PadLength(|v|)
  {
    LengthWord(|v|) + v + ZeroBytes(PadLength(|v|))
  }

  datatype Parts = Parts(head: seq<Byte>, tail: seq<Byte>)

  // The remaining fields of a tuple whose head takes headLen bytes and whose tail has tailLen
  // bytes so far.
  function FieldParts(fields: seq<Field>, values: seq<Value>, headLen: nat, tailLen: nat): (r: Result<Parts>)
    requires |fields| == |values|
    decreases values, 0
  {
    if |fields| == 0 then Ok(Parts([], []))
    else
      var encoded :- ValueEncoding(fields[0], values[0]);
      var dyn := IsDynamic(fields[0]);
      var rest :- FieldParts(fields[1..], values[1..], headLen, tailLen + if dyn then |encoded| else 0);
      if dyn then Ok(Parts(LengthWord(headLen + tailLen) + rest.head, encoded + rest.tail))
      else Ok(Parts(encoded + rest.head, rest.tail))
  }

  function TupleEncoding(fields: seq<Field>, values: seq<Value>): (r: Result<seq<Byte>>)
    decreases values, 1
  {
    if |fields| != |values| then Err(InvalidValue)
    else
      var parts :- FieldParts(fields, values, HeadLength(fields).value, 0);
      Ok(parts.head + parts.tail)
  }

  // The elements of an array, like the fields of a tuple that all have one type.
  function ItemParts(elem: Field, values: seq<Value>, headLen: nat, tailLen: nat): (r: Result<Parts>)
    decreases values, 0
  {
    if |values| == 0 then Ok(Parts([], []))
    else
      var encoded :- ValueEncoding(elem, values[0]);
      var dyn := IsDynamic(elem);
      var rest :- ItemParts(elem, values[1..], headLen, tailLen + if dyn then |encoded| else 0);
      if dyn then Ok(Parts(LengthWord(headLen + tailLen) + rest.head, encoded + rest.tail))
      else Ok(Parts(encoded + rest.head, rest.tail))
  }

  function ArrayEncoding(elem: Field, values: seq<Value>): (r: Result<seq<Byte>>)
    decreases values, 1
  {
    var parts :- ItemParts(elem, values, |values| * WORD, 0);
    Ok(LengthWord(|values|) + parts.head + parts.tail)
  }

  function ValueEncoding(f: Field, v: Value): (r: Result<seq<Byte>>)
    decreases v
  {
    match f.typ
    case TUint8 => if v.U8? then Ok(Uint64Word(v.n8)) else Err(InvalidValue)
    case TUint32 => if v.U32? then Ok(Uint64Word(v.n32)) else Err(InvalidValue)
    case TUint64 => if v.U64? then Ok(Uint64Word(v.n64)) else Err(InvalidValue)
    case TUint256 => if v.U256? then Ok(Uint256Word(v.limbs)) else Err(InvalidValue)
    case TBytes32 => if v.Fixed32? then Ok(v.fixed) else Err(InvalidValue)
    case TBytes => if v.Blob? then Ok(BytesEncoding(v.bytes)) else Err(InvalidValue)
    case TString => if v.Text? then Ok(BytesEncoding(v.text)) else Err(InvalidValue)
    case TBool => if v.Flag? then Ok(Uint64Word(if v.flag then 1 else 0)) else Err(InvalidValue)
    case TAddress => if v.Blob? && |v.bytes| == 20 then Ok(ZeroBytes(12) + v.bytes) else Err(InvalidValue)
    case TStruct =>
      if f.sub.None? then Err(InvalidSchema)
      else if v.Items? then TupleEncoding(f.sub.value.fields, v.items)
      else Err(InvalidValue)
    case TArray =>
      if f.elem.None? then Err(InvalidSchema)
      else if v.Items? then ArrayEncoding(f.elem.value, v.items)
      else Err(InvalidValue)
    case TUnknown(_) => Err(UnsupportedType)
  }

  // ---- the encoder's loops ----

  method EncodeTuple(fields: seq<Field>, values: seq<Value>) returns (r: Result<seq<Byte>>)
    ensures r == TupleEncoding(fields, values)
    decreases values, 1
  {
    if |fields| != |values| { return Err(InvalidValue); }
    var dyn: seq<bool>, headLen := [], 0;
    for i := 0 to |fields|
      invariant |dyn| == i && forall k :: 0 <= k < i ==> dyn[k] == IsDynamic(fields[k])
      invariant headLen + HeadLength(fields[i..]).value == HeadLength(fields).value
    {
      dyn := dyn + [IsDynamic(fields[i])];
      var size := StaticHeadSize(fields[i]);
      headLen := headLen + if dyn[i] then WORD else size.value;
      assert fields[i..][1..] == fields[i + 1..];
    }
    assert fields[|fields|..] == [];
    var head: seq<Byte>, tail: seq<Byte> := [], [];
    assert fields[0..] == fields && values[0..] == values;
    OntoNothing(FieldParts(fields, values, headLen, 0));
    for i := 0 to |fields|
      invariant FieldParts(fields, values, headLen, 0)
             == Onto(head, tail, FieldParts(fields[i..], values[i..], headLen, |tail|))
    {
      var encoded := EncodeValue(fields[i], values[i]);
      FieldStep(fields, values, i, headLen, head, tail);
      if encoded.Err? { return Err(encoded.error); }
      if dyn[i] {
        head := head + LengthWord(headLen + |tail|);
        tail := tail + encoded.value;
      } else {
        head := head + encoded.value;
      }
    }
    OntoAll(head, tail);
    return Ok(head + tail);
  }

  // One round of the loop over the fields.
  lemma FieldStep(fields: seq<Field>, values: seq<Value>, i: nat, headLen: nat, head: seq<Byte>, tail: seq<Byte>)
    requires i < |fields| == |values|
    ensures Onto(head, tail, FieldParts(fields[i..], values[i..], headLen, |tail|))
         == (var encoded := ValueEncoding(fields[i], values[i]);
             if encoded.Err? then Err(encoded.error)
             else if IsDynamic(fields[i]) then
               Onto(head + LengthWord(headLen + |tail|), tail + encoded.value,
                    FieldParts(fields[i + 1..], values[i + 1..], headLen, |tail + encoded.value|))
             else Onto(head + encoded.value, tail, FieldParts(fields[i + 1..], values[i + 1..], headLen, |tail|)))
  {
    hide LengthWord, IsDynamic, ValueEncoding;
    assert fields[i..][1..] == fields[i + 1..] && values[i..][1..] == values[i + 1..];
    var encoded := ValueEncoding(fields[i], values[i]);
    if encoded.Ok? {
      var e := encoded.value;
      var w := LengthWord(headLen + |tail|);
      var rest := FieldParts(fields[i + 1..], values[i + 1..], headLen, |tail| + if IsDynamic(fields[i]) then |e| else 0);
      if rest.Ok? {
        assert head + (w + rest.value.head) == (head + w) + rest.value.head;
        assert head + (e + rest.value.head) == (head + e) + rest.value.head;
        assert tail + (e + rest.value.tail) == (tail + e) + rest.value.tail;
      }
    }
  }

  lemma OntoNothing(rest: Result<Parts>)
    ensures Onto([], [], rest) == rest
  {
    if rest.Ok? {
      assert [] + rest.value.head == rest.value.head && [] + rest.value.tail == rest.value.tail;
    }
  }

  lemma OntoAll(head: seq<Byte>, tail: seq<Byte>)
    ensures Onto(head, tail, Ok(Parts([], []))) == Ok(Parts(head, tail))
  {
    assert head + [] == head && tail + [] == tail;
  }

  // What has been written, followed by what is still to come.
  function Onto(head: seq<Byte>, tail: seq<Byte>, rest: Result<Parts>): (r: Result<Parts>)
  {
    if rest.Err? then Err(rest.error) else Ok(Parts(head + rest.value.head, tail + rest.value.tail))
  }

  method EncodeArray(elem: Field, values: seq<Value>) returns (r: Result<seq<Byte>>)
    ensures r == ArrayEncoding(elem, values)
    decreases values, 1
  {
    var out := LengthWord(|values|);
    assert out + [] + [] == out;
    if |values| == 0 { return Ok(out); }
    var headLen := |values| * WORD;
    assert values[0..] == values;
    OntoNothing(ItemParts(elem, values, headLen, 0));
    if IsDynamic(elem) {
      var head: seq<Byte>, tail: seq<Byte> := [], [];
      for i := 0 to |values|
        invariant ItemParts(elem, values, headLen, 0)
               == Onto(head, tail, ItemParts(elem, values[i..], headLen, |tail|))
      {
        var encoded := EncodeValue(elem, values[i]);
        ItemStep(elem, values, i, headLen, head, tail);
        if encoded.Err? { return Err(encoded.error); }
        head := head + LengthWord(headLen + |tail|);
        tail := tail + encoded.value;
      }
      OntoAll(head, tail);
      return Ok(out + head + tail);
    }
    var body: seq<Byte> := [];
    for i := 0 to |values|
      invariant ItemParts(elem, values, headLen, 0) == Onto(body, [], ItemParts(elem, values[i..], headLen, 0))
    {
      var encoded := EncodeValue(elem, values[i]);
      ItemStep(elem, values, i, headLen, body, []);
      if encoded.Err? { return Err(encoded.error); }
      body := body + encoded.value;
    }
    OntoAll(body, []);
    assert out + body + [] == out + body;
    return Ok(out + body);
  }

  lemma ItemStep(elem: Field, values: seq<Value>, i: nat, headLen: nat, head: seq<Byte>, tail: seq<Byte>)
    requires i < |values|
    ensures Onto(head, tail, ItemParts(elem, values[i..], headLen, |tail|))
         == (var encoded := ValueEncoding(elem, values[i]);
             if encoded.Err? then Err(encoded.error)
             else if IsDynamic(elem) then
               Onto(head + LengthWord(headLen + |tail|), tail + encoded.value,
                    ItemParts(elem, values[i + 1..], headLen, |tail + encoded.value|))
             else Onto(head + encoded.value, tail, ItemParts(elem, values[i + 1..], headLen, |tail|)))
  {
    hide LengthWord, IsDynamic, ValueEncoding;
    assert values[i..][1..] == values[i + 1..];
    var encoded := ValueEncoding(elem, values[i]);
    if encoded.Ok? {
      var e := encoded.value;
      var w := LengthWord(headLen + |tail|);
      var rest := ItemParts(elem, values[i + 1..], headLen, |tail| + if IsDynamic(elem) then |e| else 0);
      if rest.Ok? {
        assert head + (w + rest.value.head) == (head + w) + rest.value.head;
        assert head + (e + rest.value.head) == (head + e) + rest.value.head;
        assert tail + (e + rest.value.tail) == (tail + e) + rest.value.tail;
      }
    }
  }

  // The bytes behind their length, and zeros up to a whole word.
  predicate ZeroPadded(e: seq<Byte>, b: seq<Byte>)
  {
    && WORD + |b| <= |e| < WORD + |b| + 32 && |e| % 32 == 0
    && e[WORD..WORD + |b|] == b
    && forall k :: WORD + |b| <= k < |e| ==> e[k] == 0
  }

  lemma BytesZeroPadded(b: seq<Byte>)
    ensures ZeroPadded(BytesEncoding(b), b)
  {
    hide LengthWord, PadLength;
    var e := BytesEncoding(b);
    assert |e| % 32 == 0 by { PadLengthAligns(|b|); }
    assert e[WORD..WORD + |b|] == b;
    forall k | WORD + |b| <= k < |e| ensures e[k] == 0 {
      assert e[k] == ZeroBytes(PadLength(|b|))[k - WORD - |b|];
    }
  }

  method EncodeValue(f: Field, v: Value) returns (r: Result<seq<Byte>>)
    ensures r == ValueEncoding(f, v)
    ensures r.Ok? && f.typ.TBytes? ==> v.Blob? && ZeroPadded(r.value, v.bytes)
    ensures r.Ok? && f.typ.TString? ==> v.Text? && ZeroPadded(r.value, v.text)
    decreases v
  {
    hide BytesEncoding, ZeroPadded;
    if f.typ.TBytes? && v.Blob? { BytesZeroPadded(v.bytes); }
    if f.typ.TString? && v.Text? { BytesZeroPadded(v.text); }
    if f.typ.TStruct? && f.sub.Some? && v.Items? {
      r := EncodeTuple(f.sub.value.fields, v.items);
    } else if f.typ.TArray? && f.elem.Some? && v.Items? {
      r := EncodeArray(f.elem.value, v.items);
    } else {
      r := ValueEncoding(f, v);
    }
  }
}
