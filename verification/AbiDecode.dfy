// Decoding by a schema: heads from a moving cursor, tails through offsets that must stay in the data.
module AbiDecode {
  import opened Arith
  import opened Words
  import opened Bytes
  import opened Wrappers
  import opened AbiTypes

  // A word that holds a uint64: 24 zero bytes, then 8 bytes of value.
  function Uint64At(data: seq<Byte>, pos: nat): (r: Result<Word>)
    requires pos + WORD <= |data|
  {
    if data[pos..pos + 24] != ZeroBytes(24) then Err(InvalidData)
    else
      FromBigEndianBound(data[pos + 24..pos + 32]);
      Pow256Eight();
      Ok(FromBigEndian(data[pos + 24..pos + 32]))
  }

  function LimbAt(data: seq<Byte>, pos: nat): (w: Word)
    requires pos + 8 <= |data|
  {
    FromBigEndianBound(data[pos..pos + 8]);
    Pow256Eight();
    FromBigEndian(data[pos..pos + 8])
  }

  // v rounded up to a multiple of 32, modulo 2^64.
  function RoundUp32(v: Word): (w: Word)
  {
    if v % 32 == 0 then v else (v + 32 - v % 32) % B
  }

  function BytesAt(data: seq<Byte>, pos: nat): (r: Result<seq<Byte>>)
    ensures r.Ok? ==> pos + WORD + |r.value| <= |data|
  {
    if pos + WORD > |data| then Err(InvalidData)
    else
      var length :- Uint64At(data, pos);
      var start := pos + WORD;
      var remaining := |data| - start;
      var padded := RoundUp32(length);
      if padded < length || length > remaining || padded > remaining then Err(InvalidData)
      else Ok(data[start..start + length])
  }

  function ElementaryAt(typ: Type, data: seq<Byte>, pos: nat): (r: Result<Value>)
    requires pos + WORD <= |data|
  {
    match typ
    case TUint8 =>
      var v := Uint64At(data, pos);
      if v.Err? || v.value > 255 then Err(InvalidData) else Ok(U8(v.value))
    case TUint32 =>
      var v := Uint64At(data, pos);
      if v.Err? || v.value > 0xFFFF_FFFF then Err(InvalidData) else Ok(U32(v.value))
    case TUint64 =>
      var v :- Uint64At(data, pos);
      Ok(U64(v))
    case TUint256 =>
      Ok(U256([LimbAt(data, pos + 24), LimbAt(data, pos + 16), LimbAt(data, pos + 8), LimbAt(data, pos)]))
    case TBytes32 => Ok(Fixed32(data[pos..pos + 32]))
    case TBool =>
      var v := Uint64At(data, pos);
      if v.Err? || v.value > 1 then Err(InvalidData) else Ok(Flag(v.value == 1))
    case TAddress =>
      if data[pos..pos + 12] != ZeroBytes(12) then Err(InvalidData) else Ok(Blob(data[pos + 12..pos + 32]))
    case _ => Err(UnsupportedType)
  }

  // A decoder for one input: the data, and the depth it goes down to.
  datatype Decoder = Decoder(data: seq<Byte>, maxDepth: nat) {

    function TupleAt(fields: seq<Field>, start: nat, depth: nat): (r: Result<seq<Value>>)
      decreases fields, 3
    {
      if depth + 1 > maxDepth then Err(DepthLimit)
      else if start > |data| then Err(InvalidData)
      else FieldsAt(fields, start, start, depth + 1)
    }

    // The remaining fields of the tuple at start, whose heads begin at the cursor.
    function FieldsAt(fields: seq<Field>, start: nat, cursor: nat, depth: nat): (r: Result<seq<Value>>)
      requires start <= |data|
      decreases fields, 2
    {
      if |fields| == 0 then Ok([])
      else
        var dyn := IsDynamic(fields[0]);
        var size := if dyn then WORD else StaticHeadSize(fields[0]).value;
        if cursor > |data| || size > |data| - cursor then Err(InvalidData)
        else
          var first :- if dyn then ValueThrough(fields[0], start, cursor, depth)
                       else StaticValue(fields[0], cursor, depth);
          var rest :- FieldsAt(fields[1..], start, cursor + size, depth);
          Ok([first] + rest)
    }

    // The value whose offset from base is the word at pos.
    function ValueThrough(f: Field, base: nat, pos: nat, depth: nat): (r: Result<Value>)
      requires base <= |data| && pos + WORD <= |data|
      decreases f, 2
    {
      var offset :- Uint64At(data, pos);
      if offset > |data| - base || offset % 32 != 0 then Err(InvalidData)
      else ValueAt(f, base + offset, depth)
    }

    function ValueAt(f: Field, pos: nat, depth: nat): (r: Result<Value>)
      requires pos <= |data|
      decreases f, 1
    {
      match f.typ
      case TBytes =>
        var bytes :- BytesAt(data, pos);
        Ok(Blob(bytes))
      case TString =>
        var bytes :- BytesAt(data, pos);
        Ok(Text(bytes))
      case TStruct =>
        if f.sub.None? then Err(InvalidSchema)
        else
          var items :- TupleAt(f.sub.value.fields, pos, depth);
          Ok(Items(items))
      case TArray =>
        if f.elem.None? then Err(InvalidSchema)
        else
          var items :- ArrayAt(f.elem.value, pos, depth);
          Ok(Items(items))
      case _ => StaticValue(f, pos, depth)
    }

    function StaticValue(f: Field, pos: nat, depth: nat): (r: Result<Value>)
      decreases f, 0
    {
      if pos + WORD > |data| then Err(InvalidData)
      else if f.typ.TStruct? then
        if f.sub.None? then Err(InvalidSchema)
        else
          var items :- TupleAt(f.sub.value.fields, pos, depth);
          Ok(Items(items))
      else ElementaryAt(f.typ, data, pos)
    }

    function ArrayAt(elem: Field, pos: nat, depth: nat): (r: Result<seq<Value>>)
      decreases elem, 4
    {
      if depth + 1 > maxDepth then Err(DepthLimit)
      else if pos > |data| || WORD > |data| - pos then Err(InvalidData)
      else
        var n :- Uint64At(data, pos);
        var headStart := pos + WORD;
        if n > (|data| - pos) / WORD then Err(InvalidData)
        else if IsDynamic(elem) then
          if n > (|data| - headStart) / WORD then Err(InvalidData)
          else
            assert n * WORD <= |data| - headStart;
            ItemsAt(elem, n, headStart, headStart, depth + 1)
        else
          var size := StaticHeadSize(elem).value;
          if size <= 0 || n > (|data| - headStart) / size then Err(InvalidData)
          else StaticItemsAt(elem, n, headStart, size, depth + 1)
    }

    // The last n elements of an array of dynamic elements, whose offsets begin at the cursor.
    function ItemsAt(elem: Field, n: nat, headStart: nat, cursor: nat, depth: nat): (r: Result<seq<Value>>)
      requires headStart <= |data| && cursor + n * WORD <= |data|
      decreases elem, 3, n
    {
      if n == 0 then Ok([])
      else
        var first :- ValueThrough(elem, headStart, cursor, depth);
        var rest :- ItemsAt(elem, n - 1, headStart, cursor + WORD, depth);
        Ok([first] + rest)
    }

    function StaticItemsAt(elem: Field, n: nat, cursor: nat, size: nat, depth: nat): (r: Result<seq<Value>>)
      decreases elem, 3, n
    {
      if n == 0 then Ok([])
      else
        var first :- StaticValue(elem, cursor, depth);
        var rest :- StaticItemsAt(elem, n - 1, cursor + size, size, depth);
        Ok([first] + rest)
    }
  }

  function Decoded(schema: Schema, data: seq<Byte>): (r: Result<seq<Value>>)
  {
    if |data| % WORD != 0 then Err(InvalidData)
    else Decoder(data, MAX_DEPTH).TupleAt(schema.fields, 0, 0)
  }

  // ---- the decoder's loops ----

  method DecodeTuple(d: Decoder, fields: seq<Field>, start: nat, depth: nat) returns (r: Result<seq<Value>>)
    ensures r == d.TupleAt(fields, start, depth)
    decreases fields, 3
  {
    hide Uint64At;
    var inner := depth + 1;
    if inner > d.maxDepth { return Err(DepthLimit); }
    if start > |d.data| { return Err(InvalidData); }
    var out: seq<Value>, cursor: nat := [], start;
    assert fields[0..] == fields;
    FollowingNothing(d.FieldsAt(fields, start, start, inner));
    for i := 0 to |fields|
      invariant d.FieldsAt(fields, start, start, inner)
             == Following(out, d.FieldsAt(fields[i..], start, cursor, inner))
    {
      FieldsStep(d, fields, i, start, cursor, inner, out);
      var dyn := IsDynamic(fields[i]);
      var size := WORD;
      if !dyn {
        var s := StaticHeadSize(fields[i]);
        size := s.value;
      }
      if size < 0 || cursor > |d.data| || size > |d.data| - cursor { return Err(InvalidData); }
      if dyn {
        var offset := Uint64At(d.data, cursor);
        if offset.Err? { return Err(offset.error); }
        if offset.value > |d.data| - start || offset.value % WORD != 0 { return Err(InvalidData); }
        var v := DecodeValue(d, fields[i], start + offset.value, inner);
        if v.Err? { return Err(v.error); }
        out := out + [v.value];
        cursor := cursor + WORD;
      } else {
        var v := DecodeStatic(d, fields[i], cursor, inner);
        if v.Err? { return Err(v.error); }
        out := out + [v.value];
        cursor := cursor + size;
      }
    }
    assert fields[|fields|..] == [];
    assert out + [] == out;
    return Ok(out);
  }

  lemma FieldsStep(d: Decoder, fields: seq<Field>, i: nat, start: nat, cursor: nat, depth: nat, out: seq<Value>)
    requires i < |fields| && start <= |d.data|
    ensures Following(out, d.FieldsAt(fields[i..], start, cursor, depth))
         == (var dyn := IsDynamic(fields[i]);
             var size := if dyn then WORD else StaticHeadSize(fields[i]).value;
             if cursor > |d.data| || size > |d.data| - cursor then Err(InvalidData)
             else
               var v := if dyn then d.ValueThrough(fields[i], start, cursor, depth)
                        else d.StaticValue(fields[i], cursor, depth);
               if v.Err? then Err(v.error)
               else Following(out + [v.value], d.FieldsAt(fields[i + 1..], start, cursor + size, depth)))
  {
    hide IsDynamic, StaticHeadSize, Decoder.ValueThrough, Decoder.StaticValue;
    assert fields[i..][1..] == fields[i + 1..];
    var size := if IsDynamic(fields[i]) then WORD else StaticHeadSize(fields[i]).value;
    if cursor <= |d.data| && size <= |d.data| - cursor {
      var v := if IsDynamic(fields[i]) then d.ValueThrough(fields[i], start, cursor, depth)
               else d.StaticValue(fields[i], cursor, depth);
      var rest := d.FieldsAt(fields[i + 1..], start, cursor + size, depth);
      if v.Ok? && rest.Ok? {
        assert out + ([v.value] + rest.value) == (out + [v.value]) + rest.value;
      }
    }
  }

  method DecodeArray(d: Decoder, elem: Field, pos: nat, depth: nat) returns (r: Result<seq<Value>>)
    ensures r == d.ArrayAt(elem, pos, depth)
    decreases elem, 4
  {
    var inner := depth + 1;
    if inner > d.maxDepth { return Err(DepthLimit); }
    if pos > |d.data| || WORD > |d.data| - pos { return Err(InvalidData); }
    var length := Uint64At(d.data, pos);
    if length.Err? { return Err(length.error); }
    if length.value > (|d.data| - pos) / WORD { return Err(InvalidData); }
    var n := length.value;
    var headStart := pos + WORD;
    if IsDynamic(elem) {
      if n > (|d.data| - headStart) / WORD { return Err(InvalidData); }
      assert n * WORD <= |d.data| - headStart;
      r := DecodeItems(d, elem, n, headStart, inner);
    } else {
      var size := StaticHeadSize(elem);
      if size.value <= 0 || n > (|d.data| - headStart) / size.value { return Err(InvalidData); }
      r := DecodeStaticItems(d, elem, n, headStart, size.value, inner);
    }
  }

  method DecodeItems(d: Decoder, elem: Field, n: nat, headStart: nat, depth: nat) returns (r: Result<seq<Value>>)
    requires headStart + n * WORD <= |d.data|
    ensures r == d.ItemsAt(elem, n, headStart, headStart, depth)
    decreases elem, 3
  {
    hide Uint64At;
    var out: seq<Value> := [];
    FollowingNothing(d.ItemsAt(elem, n, headStart, headStart, depth));
    for i := 0 to n
      invariant d.ItemsAt(elem, n, headStart, headStart, depth)
             == Following(out, d.ItemsAt(elem, n - i, headStart, headStart + i * WORD, depth))
    {
      var cursor := headStart + i * WORD;
      ItemsStep(d, elem, n - i, headStart, cursor, depth, out);
      var offset := Uint64At(d.data, cursor);
      if offset.Err? { return Err(offset.error); }
      if offset.value > |d.data| - headStart || offset.value % WORD != 0 { return Err(InvalidData); }
      var v := DecodeValue(d, elem, headStart + offset.value, depth);
      if v.Err? { return Err(v.error); }
      out := out + [v.value];
    }
    assert out + [] == out;
    return Ok(out);
  }

  method DecodeStaticItems(d: Decoder, elem: Field, n: nat, start: nat, size: nat, depth: nat)
    returns (r: Result<seq<Value>>)
    ensures r == d.StaticItemsAt(elem, n, start, size, depth)
    decreases elem, 3
  {
    var out: seq<Value> := [];
    FollowingNothing(d.StaticItemsAt(elem, n, start, size, depth));
    for i := 0 to n
      invariant 0 <= i * size
      invariant d.StaticItemsAt(elem, n, start, size, depth)
             == Following(out, d.StaticItemsAt(elem, n - i, start + i * size, size, depth))
    {
      var cursor := start + i * size;
      StaticItemsStep(d, elem, n - i, cursor, size, depth, out);
      Distribute(i, 1, size);
      var v := DecodeStatic(d, elem, cursor, depth);
      if v.Err? { return Err(v.error); }
      out := out + [v.value];
    }
    assert out + [] == out;
    return Ok(out);
  }

  lemma ItemsStep(d: Decoder, elem: Field, n: nat, headStart: nat, cursor: nat, depth: nat, out: seq<Value>)
    requires n > 0 && headStart <= |d.data| && cursor + n * WORD <= |d.data|
    ensures Following(out, d.ItemsAt(elem, n, headStart, cursor, depth))
         == (var v := d.ValueThrough(elem, headStart, cursor, depth);
             if v.Err? then Err(v.error)
             else Following(out + [v.value], d.ItemsAt(elem, n - 1, headStart, cursor + WORD, depth)))
  {
    hide Decoder.ValueThrough;
    var v := d.ValueThrough(elem, headStart, cursor, depth);
    var rest := d.ItemsAt(elem, n - 1, headStart, cursor + WORD, depth);
    if v.Ok? && rest.Ok? {
      assert out + ([v.value] + rest.value) == (out + [v.value]) + rest.value;
    }
  }

  lemma StaticItemsStep(d: Decoder, elem: Field, n: nat, cursor: nat, size: nat, depth: nat, out: seq<Value>)
    requires n > 0
    ensures Following(out, d.StaticItemsAt(elem, n, cursor, size, depth))
         == (var v := d.StaticValue(elem, cursor, depth);
             if v.Err? then Err(v.error)
             else Following(out + [v.value], d.StaticItemsAt(elem, n - 1, cursor + size, size, depth)))
  {
    hide Decoder.StaticValue;
    var v := d.StaticValue(elem, cursor, depth);
    var rest := d.StaticItemsAt(elem, n - 1, cursor + size, size, depth);
    if v.Ok? && rest.Ok? {
      assert out + ([v.value] + rest.value) == (out + [v.value]) + rest.value;
    }
  }

  method DecodeValue(d: Decoder, f: Field, pos: nat, depth: nat) returns (r: Result<Value>)
    requires pos <= |d.data|
    ensures r == d.ValueAt(f, pos, depth)
    decreases f, 1
  {
    if f.typ.TStruct? && f.sub.Some? {
      var items := DecodeTuple(d, f.sub.value.fields, pos, depth);
      return if items.Err? then Err(items.error) else Ok(Items(items.value));
    } else if f.typ.TArray? && f.elem.Some? {
      var items := DecodeArray(d, f.elem.value, pos, depth);
      return if items.Err? then Err(items.error) else Ok(Items(items.value));
    }
    return d.ValueAt(f, pos, depth);
  }

  method DecodeStatic(d: Decoder, f: Field, pos: nat, depth: nat) returns (r: Result<Value>)
    ensures r == d.StaticValue(f, pos, depth)
    decreases f, 0
  {
    if pos + WORD > |d.data| { return Err(InvalidData); }
    if f.typ.TStruct? && f.sub.Some? {
      var items := DecodeTuple(d, f.sub.value.fields, pos, depth);
      return if items.Err? then Err(items.error) else Ok(Items(items.value));
    }
    return d.StaticValue(f, pos, depth);
  }

  method Decode(schema: Schema, data: seq<Byte>) returns (r: Result<seq<Value>>)
    ensures r == Decoded(schema, data)
  {
    if |data| % WORD != 0 { return Err(InvalidData); }
    r := DecodeTuple(Decoder(data, MAX_DEPTH), schema.fields, 0, 0);
  }
}
