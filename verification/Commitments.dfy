// The commitment encoders, written by hand, against the ABI codec; and the salt preimage.
module Commitments {
  import opened Words
  import opened Bytes
  import opened Wrappers
  import opened AbiTypes
  import opened AbiEncode
  import opened AbiShape
  import opened AbiRoundTrip
  import opened AbiInjective
  import opened AbiReference
  import opened AbiMeaning

  datatype Packet = Packet(
    sourceChannelId: Uint32,
    destinationChannelId: Uint32,
    data: seq<Byte>,
    timeoutHeight: Word,
    timeoutTimestamp: Word)

  function Plain(typ: Type): Field
  {
    Field(typ, None, None)
  }

  function PacketFields(): seq<Field>
  {
    [Plain(TUint32), Plain(TUint32), Plain(TBytes), Plain(TUint64), Plain(TUint64)]
  }

  function PacketField(): Field
  {
    Field(TStruct, Some(Schema(PacketFields())), None)
  }

  // The tuple of a packet. The timeout height is always written as zero.
  function PacketValues(p: Packet): seq<Value>
  {
    [U32(p.sourceChannelId), U32(p.destinationChannelId), Blob(p.data), U64(0), U64(p.timeoutTimestamp)]
  }

  function PacketItems(packets: seq<Packet>): (r: seq<Value>)
    ensures |r| == |packets|
  {
    seq(|packets|, i requires 0 <= i < |packets| => Items(PacketValues(packets[i])))
  }

  function BlobItems(blobs: seq<seq<Byte>>): (r: seq<Value>)
    ensures |r| == |blobs|
  {
    seq(|blobs|, i requires 0 <= i < |blobs| => Blob(blobs[i]))
  }

  // The schema of one array.
  function ArrayOf(elem: Field): Schema
  {
    Schema([Field(TArray, None, Some(elem))])
  }

  // The bytes of a packet read as numbers, word by word: source and destination channel, the distance of the
  // data, zero for the height, the timestamp, and the data padded with zeros.
  predicate IsPacket(e: seq<Byte>, p: Packet)
  {
    && WordIs(e, 0, p.sourceChannelId)
    && WordIs(e, 32, p.destinationChannelId)
    && WordIs(e, 64, 160)
    && WordIs(e, 96, 0)
    && WordIs(e, 128, p.timeoutTimestamp)
    && |e| >= 160 && IsPadded(e[160..], p.data)
  }

  method EncodePacket(p: Packet) returns (r: Result<seq<Byte>>)
    ensures r == ValueEncoding(PacketField(), Items(PacketValues(p)))
    ensures r.Ok? && |p.data| < B ==> IsPacket(r.value, p)
  {
    r := EncodeTuple(PacketFields(), PacketValues(p));
    PacketBytes(p);
  }

  lemma PacketBytes(p: Packet)
    ensures var r := ValueEncoding(PacketField(), Items(PacketValues(p)));
            r.Ok? && (|p.data| < B ==> IsPacket(r.value, p))
  {
    hide Uint64Word, BytesEncoding, IsPadded, Number;
    PacketLayout(p);
    var w0, w1, w2, w3, w4 := Uint64Word(p.sourceChannelId), Uint64Word(p.destinationChannelId), Uint64Word(160),
                              Uint64Word(0), Uint64Word(p.timeoutTimestamp);
    var e := w0 + w1 + w2 + w3 + w4 + BytesEncoding(p.data);
    assert e[160..] == BytesEncoding(p.data);
    if |p.data| < B { BytesArePadded(p.data); }
    WordOf(e, 0, p.sourceChannelId);
    WordOf(e, 32, p.destinationChannelId);
    WordOf(e, 64, 160);
    WordOf(e, 96, 0);
    WordOf(e, 128, p.timeoutTimestamp);
  }

  lemma WordOf(e: seq<Byte>, pos: nat, v: Word)
    requires pos + 32 <= |e| && e[pos..pos + 32] == Uint64Word(v)
    ensures WordIs(e, pos, v)
  {
    hide Uint64Word;
    Uint64Number(v);
  }

  lemma PacketLayout(p: Packet)
    ensures ValueEncoding(PacketField(), Items(PacketValues(p)))
         == Ok(Uint64Word(p.sourceChannelId) + Uint64Word(p.destinationChannelId) + Uint64Word(160) + Uint64Word(0)
               + Uint64Word(p.timeoutTimestamp) + BytesEncoding(p.data))
  {
    hide Uint64Word, BytesEncoding;
    var fields, values := PacketFields(), PacketValues(p);
    var none, data: seq<Byte> := [], BytesEncoding(p.data);
    PacketHead();
    assert fields[5..] == [] && values[5..] == [];
    assert FieldParts(fields[5..], values[5..], 160, |data|) == Ok(Parts(none, none));
    assert fields[4..][1..] == fields[5..] && values[4..][1..] == values[5..];
    var h4 := Uint64Word(p.timeoutTimestamp);
    assert h4 + none == h4;
    assert FieldParts(fields[4..], values[4..], 160, |data|) == Ok(Parts(h4, none));
    assert fields[3..][1..] == fields[4..] && values[3..][1..] == values[4..];
    var h3 := Uint64Word(0) + h4;
    assert FieldParts(fields[3..], values[3..], 160, |data|) == Ok(Parts(h3, none));
    assert fields[2..][1..] == fields[3..] && values[2..][1..] == values[3..];
    var h2 := Uint64Word(160) + h3;
    assert data + none == data;
    assert FieldParts(fields[2..], values[2..], 160, 0) == Ok(Parts(h2, data));
    assert fields[1..][1..] == fields[2..] && values[1..][1..] == values[2..];
    var h1 := Uint64Word(p.destinationChannelId) + h2;
    assert FieldParts(fields[1..], values[1..], 160, 0) == Ok(Parts(h1, data));
    var h0 := Uint64Word(p.sourceChannelId) + h1;
    assert FieldParts(fields, values, 160, 0) == Ok(Parts(h0, data));
    assert h0 + data == Uint64Word(p.sourceChannelId) + Uint64Word(p.destinationChannelId) + Uint64Word(160)
                      + Uint64Word(0) + Uint64Word(p.timeoutTimestamp) + data;
  }

  lemma PacketHead()
    ensures HeadLength(PacketFields()).value == 160
  {
    var fields := PacketFields();
    assert HeadLength(fields[5..]).value == 0;
    assert fields[4..][1..] == fields[5..] && HeadLength(fields[4..]).value == 32;
    assert fields[3..][1..] == fields[4..] && HeadLength(fields[3..]).value == 64;
    assert fields[2..][1..] == fields[3..] && HeadLength(fields[2..]).value == 96;
    assert fields[1..][1..] == fields[2..] && HeadLength(fields[1..]).value == 128;
  }

  method EncodeBytes(v: seq<Byte>) returns (r: seq<Byte>)
    ensures r == BytesEncoding(v)
    ensures |v| < B ==> IsPadded(r, v)
  {
    if |v| < B { BytesArePadded(v); }
    var pad := (32 - |v| % 32) % 32;
    r := LengthWord(|v|);
    r := r + v;
    if pad > 0 {
      r := r + ZeroBytes(pad);
    } else {
      assert r + ZeroBytes(0) == r;
    }
  }

  method EncodePacketArray(packets: seq<Packet>) returns (r: Result<seq<Byte>>)
    ensures r == ArrayEncoding(PacketField(), PacketItems(packets))
  {
    hide LengthWord, ItemParts, ValueEncoding, PacketField, PacketValues;
    var out := LengthWord(|packets|);
    var headLen := |packets| * 32;
    var tail: seq<Byte> := [];
    ghost var elem, items, head: seq<Byte> := PacketField(), PacketItems(packets), [];
    assert items[0..] == items;
    OntoNothing(ItemParts(elem, items, headLen, 0));
    assert out + head == out;
    for i := 0 to |packets|
      invariant out == LengthWord(|packets|) + head
      invariant ItemParts(elem, items, headLen, 0) == Onto(head, tail, ItemParts(elem, items[i..], headLen, |tail|))
    {
      var encoded := EncodePacket(packets[i]);
      ItemStep(elem, items, i, headLen, head, tail);
      PacketDynamic();
      if encoded.Err? { return Err(encoded.error); }
      ghost var word := LengthWord(headLen + |tail|);
      assert out + word == LengthWord(|packets|) + (head + word);
      out := out + LengthWord(headLen + |tail|);
      tail := tail + encoded.value;
      head := head + word;
    }
    NoMoreItems(elem, headLen, |tail|);
    OntoAll(head, tail);
    return Ok(out + tail);
  }

  lemma PacketDynamic()
    ensures IsDynamic(PacketField())
  {
    assert IsDynamic(PacketFields()[1..][1..][0]);
  }

  lemma NoMoreItems(elem: Field, headLen: nat, tailLen: nat)
    ensures forall none: seq<Value> :: none == [] ==> ItemParts(elem, none, headLen, tailLen) == Ok(Parts([], []))
  {
  }

  method EncodeBytesArray(blobs: seq<seq<Byte>>) returns (r: seq<Byte>)
    ensures Ok(r) == ArrayEncoding(Plain(TBytes), BlobItems(blobs))
  {
    hide LengthWord, ItemParts, BytesEncoding;
    var out := LengthWord(|blobs|);
    var headLen := |blobs| * 32;
    var tail: seq<Byte> := [];
    ghost var elem, items, head: seq<Byte> := Plain(TBytes), BlobItems(blobs), [];
    assert items[0..] == items;
    OntoNothing(ItemParts(elem, items, headLen, 0));
    assert out + head == out;
    for i := 0 to |blobs|
      invariant out == LengthWord(|blobs|) + head
      invariant ItemParts(elem, items, headLen, 0) == Onto(head, tail, ItemParts(elem, items[i..], headLen, |tail|))
    {
      var encoded := EncodeBytes(blobs[i]);
      ItemStep(elem, items, i, headLen, head, tail);
      ghost var word := LengthWord(headLen + |tail|);
      assert out + word == LengthWord(|blobs|) + (head + word);
      out := out + LengthWord(headLen + |tail|);
      tail := tail + encoded;
      head := head + word;
    }
    NoMoreItems(elem, headLen, |tail|);
    OntoAll(head, tail);
    return out + tail;
  }

  method WrapAbiEncode(encoded: seq<Byte>) returns (r: seq<Byte>)
    ensures r == LengthWord(32) + encoded
  {
    r := LengthWord(32);
    r := r + encoded;
  }

  // An encoded dynamic value behind the offset 32 is the encoding of a tuple of that one value.
  lemma WrappedIsTuple(f: Field, v: Value)
    requires IsDynamic(f)
    ensures TupleEncoding([f], [v])
         == (var e := ValueEncoding(f, v); if e.Err? then Err(e.error) else Ok(LengthWord(32) + e.value))
  {
    hide LengthWord, ValueEncoding;
    var fields, values := [f], [v];
    assert fields[1..] == [] && values[1..] == [];
    assert HeadLength(fields).value == 32;
    var e := ValueEncoding(f, v);
    if e.Ok? {
      var none: seq<Byte> := [];
      assert FieldParts(fields[1..], values[1..], 32, |e.value|) == Ok(Parts(none, none));
      assert LengthWord(32) + none == LengthWord(32) && e.value + none == e.value;
    }
  }

  // ---- the preimages, word by word ----

  // The bytes of a packet, and of several.
  function PacketSize(p: Packet): nat
  {
    192 + (|p.data| + 31) / 32 * 32
  }

  function PacketsSize(packets: seq<Packet>): nat
  {
    if |packets| == 0 then 0 else PacketSize(packets[0]) + PacketsSize(packets[1..])
  }

  // The preimage of a batch read as numbers: the distance of the array, the number of packets, the distance
  // of each packet from behind that number, and the packets one after the other.
  ghost predicate IsBatch(e: seq<Byte>, packets: seq<Packet>)
  {
    var n := |packets|;
    && WordIs(e, 0, 32) && WordIs(e, 32, n)
    && |e| == 64 + 32 * n + PacketsSize(packets)
    && forall i :: 0 <= i < n ==> BatchHas(e, n, i, PacketsSize(packets[..i]), packets[i])
  }

  predicate BatchHas(e: seq<Byte>, n: nat, i: nat, before: nat, p: Packet)
  {
    var offset := 32 * n + before;
    && WordIs(e, 64 + 32 * i, offset)
    && 64 + offset + PacketSize(p) <= |e| && IsPacket(e[64 + offset..64 + offset + PacketSize(p)], p)
  }

  lemma EncodedPacketSize(p: Packet)
    ensures var r := ValueEncoding(PacketField(), Items(PacketValues(p))); r.Ok? && |r.value| == PacketSize(p)
  {
    hide Uint64Word, BytesEncoding;
    PacketLayout(p);
    RoundedLength(|p.data|);
  }

  lemma {:induction false} PacketsTail(packets: seq<Packet>)
    ensures TailLength(Repeated(PacketField(), |packets|), PacketItems(packets)) == PacketsSize(packets)
  {
    hide PacketField, ValueEncoding, PacketValues, IsDynamic;
    if |packets| > 0 {
      var items := PacketItems(packets);
      assert items[1..] == PacketItems(packets[1..]);
      assert Repeated(PacketField(), |packets|)[1..] == Repeated(PacketField(), |packets[1..]|);
      PacketDynamic();
      EncodedPacketSize(packets[0]);
      PacketsTail(packets[1..]);
    }
  }

  // A word that is found in the preimage.
  lemma LengthWordIs(e: seq<Byte>, pos: nat, n: nat)
    requires At(e, pos, LengthWord(n)) && n < B
    ensures WordIs(e, pos, n)
  {
    hide Uint64Word;
    WordOf(e, pos, n);
  }

  lemma PrefixAt(s: seq<Byte>, t: seq<Byte>)
    ensures At(s + t, 0, s)
  {
  }

  // The encoding of one array of dynamic elements: the distance of the array and its length.
  lemma ArrayPreimage(elem: Field, items: seq<Value>)
    requires IsDynamic(elem) && ArrayEncoding(elem, items).Ok?
    ensures var r := TupleEncoding(ArrayOf(elem).fields, [Items(items)]);
            && r == Ok(LengthWord(32) + ArrayEncoding(elem, items).value)
            && |r.value| == 64 + 32 * |items| + TailLength(Repeated(elem, |items|), items)
            && (|r.value| <= MAX_LEN ==> WordIs(r.value, 0, 32) && WordIs(r.value, 32, |items|))
  {
    hide TupleEncoding, ArrayEncoding, LengthWord, TailLength, At, WordIs, IsDynamic;
    var n := |items|;
    WhatIsDynamic(ArrayOf(elem).fields[0]);
    WrappedIsTuple(ArrayOf(elem).fields[0], Items(items));
    var a := ArrayEncoding(elem, items).value;
    ArrayIsTuple(elem, items);
    var t := TupleEncoding(Repeated(elem, n), items).value;
    PrefixAt(LengthWord(32), a);
    PrefixAt(LengthWord(n), t);
    AtPrepended(LengthWord(32), a, 0, LengthWord(n));
    DynamicHeadSize(elem);
    TupleLength(Repeated(elem, n), items);
    RepeatedHead(elem, n);
    LengthWordIs(LengthWord(32) + a, 0, 32);
    if |LengthWord(32) + a| <= MAX_LEN { LengthWordIs(LengthWord(32) + a, 32, n); }
  }

  // Its element i and the offset of that.
  lemma ElementPreimage(elem: Field, items: seq<Value>, i: nat)
    requires IsDynamic(elem) && ArrayEncoding(elem, items).Ok? && i < |items|
    requires |LengthWord(32) + ArrayEncoding(elem, items).value| <= MAX_LEN
    ensures ValueEncoding(elem, items[i]).Ok?
    ensures var e, v := LengthWord(32) + ArrayEncoding(elem, items).value, ValueEncoding(elem, items[i]).value;
            var offset := 32 * |items| + TailLength(Repeated(elem, i), items[..i]);
            && WordIs(e, 64 + 32 * i, offset)
            && 64 + offset + |v| <= |e| && e[64 + offset..64 + offset + |v|] == v
  {
    hide ArrayEncoding, LengthWord, TailLength, ValueEncoding, At, IsDynamic, WordIs;
    ArrayLayout(elem, items, i);
    var a, v := ArrayEncoding(elem, items).value, ValueEncoding(elem, items[i]).value;
    var offset := 32 * |items| + TailLength(Repeated(elem, i), items[..i]);
    AtPrepended(LengthWord(32), a, 32 + 32 * i, LengthWord(offset));
    AtPrepended(LengthWord(32), a, 32 + offset, v);
    BytesFound(LengthWord(32) + a, 64 + offset, v);
    LengthWordIs(LengthWord(32) + a, 64 + 32 * i, offset);
  }

  lemma PreimageIsBatch(packets: seq<Packet>)
    requires var r := TupleEncoding(ArrayOf(PacketField()).fields, [Items(PacketItems(packets))]);
             r.Ok? && |r.value| <= MAX_LEN
    ensures IsBatch(TupleEncoding(ArrayOf(PacketField()).fields, [Items(PacketItems(packets))]).value, packets)
  {
    hide TupleEncoding, ArrayEncoding, LengthWord, TailLength, PacketField, PacketValues, ValueEncoding, IsDynamic, IsPacket,
      WordIs;
    var elem, items := PacketField(), PacketItems(packets);
    PacketDynamic();
    EncodesOneArray(elem, items);
    ArrayPreimage(elem, items);
    PacketsTail(packets);
    var e := LengthWord(32) + ArrayEncoding(elem, items).value;
    forall i | 0 <= i < |packets| ensures BatchHas(e, |packets|, i, PacketsSize(packets[..i]), packets[i]) {
      ElementPreimage(elem, items, i);
      assert items[..i] == PacketItems(packets[..i]);
      PacketsTail(packets[..i]);
      EncodedPacketSize(packets[i]);
      PacketBytes(packets[i]);
    }
  }

  lemma EncodesOneArray(elem: Field, items: seq<Value>)
    requires TupleEncoding(ArrayOf(elem).fields, [Items(items)]).Ok?
    ensures ArrayEncoding(elem, items).Ok?
  {
    hide ArrayEncoding, TupleEncoding, LengthWord;
    WrappedIsTuple(ArrayOf(elem).fields[0], Items(items));
  }

  // The preimage of acknowledgements read as numbers, like that of packets.
  function AcksSize(acks: seq<seq<Byte>>): nat
  {
    if |acks| == 0 then 0 else 32 + (|acks[0]| + 31) / 32 * 32 + AcksSize(acks[1..])
  }

  ghost predicate IsAckBatch(e: seq<Byte>, acks: seq<seq<Byte>>)
  {
    var n := |acks|;
    && WordIs(e, 0, 32) && WordIs(e, 32, n)
    && |e| == 64 + 32 * n + AcksSize(acks)
    && forall i :: 0 <= i < n ==> AckBatchHas(e, n, i, AcksSize(acks[..i]), acks[i])
  }

  predicate AckBatchHas(e: seq<Byte>, n: nat, i: nat, before: nat, ack: seq<Byte>)
  {
    var offset, size := 32 * n + before, 32 + (|ack| + 31) / 32 * 32;
    && WordIs(e, 64 + 32 * i, offset)
    && 64 + offset + size <= |e| && IsPadded(e[64 + offset..64 + offset + size], ack)
  }

  lemma {:induction false} AcksTail(acks: seq<seq<Byte>>)
    ensures TailLength(Repeated(Plain(TBytes), |acks|), BlobItems(acks)) == AcksSize(acks)
  {
    hide BytesEncoding;
    if |acks| > 0 {
      assert BlobItems(acks)[1..] == BlobItems(acks[1..]);
      assert Repeated(Plain(TBytes), |acks|)[1..] == Repeated(Plain(TBytes), |acks[1..]|);
      RoundedLength(|acks[0]|);
      AcksTail(acks[1..]);
    }
  }

  lemma PreimageIsAckBatch(acks: seq<seq<Byte>>)
    requires var r := TupleEncoding(ArrayOf(Plain(TBytes)).fields, [Items(BlobItems(acks))]);
             r.Ok? && |r.value| <= MAX_LEN
    ensures IsAckBatch(TupleEncoding(ArrayOf(Plain(TBytes)).fields, [Items(BlobItems(acks))]).value, acks)
  {
    hide TupleEncoding, ArrayEncoding, LengthWord, TailLength, BytesEncoding, IsPadded, WordIs;
    var elem, items := Plain(TBytes), BlobItems(acks);
    EncodesOneArray(elem, items);
    ArrayPreimage(elem, items);
    AcksTail(acks);
    var e := LengthWord(32) + ArrayEncoding(elem, items).value;
    forall i | 0 <= i < |acks| ensures AckBatchHas(e, |acks|, i, AcksSize(acks[..i]), acks[i]) {
      ElementPreimage(elem, items, i);
      assert items[..i] == BlobItems(acks[..i]);
      AcksTail(acks[..i]);
      RoundedLength(|acks[i]|);
      BytesArePadded(acks[i]);
    }
  }

  // What a packet batch is hashed from is the ABI encoding of the array of packets.
  method PacketsPreimage(packets: seq<Packet>) returns (r: Result<seq<Byte>>)
    ensures r == TupleEncoding(ArrayOf(PacketField()).fields, [Items(PacketItems(packets))])
    ensures r.Ok? && |r.value| <= MAX_LEN ==> IsBatch(r.value, packets)
  {
    ghost var preimage := TupleEncoding(ArrayOf(PacketField()).fields, [Items(PacketItems(packets))]);
    if preimage.Ok? && |preimage.value| <= MAX_LEN { PreimageIsBatch(packets); }
    hide LengthWord, ArrayEncoding, TupleEncoding, PacketField, PacketItems, IsBatch;
    var encoded := EncodePacketArray(packets);
    WrappedIsTuple(ArrayOf(PacketField()).fields[0], Items(PacketItems(packets)));
    if encoded.Err? { return Err(encoded.error); }
    var wrapped := WrapAbiEncode(encoded.value);
    return Ok(wrapped);
  }

  // What a batch of acknowledgements is hashed from is the ABI encoding of the array of bytes.
  method AcksPreimage(acks: seq<seq<Byte>>) returns (r: seq<Byte>)
    ensures Ok(r) == TupleEncoding(ArrayOf(Plain(TBytes)).fields, [Items(BlobItems(acks))])
    ensures |r| <= MAX_LEN ==> IsAckBatch(r, acks)
  {
    hide LengthWord, ArrayEncoding, TupleEncoding, BlobItems, IsAckBatch;
    AcksEncode(acks);
    if |TupleEncoding(ArrayOf(Plain(TBytes)).fields, [Items(BlobItems(acks))]).value| <= MAX_LEN {
      PreimageIsAckBatch(acks);
    }
    var encoded := EncodeBytesArray(acks);
    WrappedIsTuple(ArrayOf(Plain(TBytes)).fields[0], Items(BlobItems(acks)));
    r := WrapAbiEncode(encoded);
  }

  // Every batch can be encoded.
  lemma PacketsEncode(packets: seq<Packet>)
    ensures TupleEncoding(ArrayOf(PacketField()).fields, [Items(PacketItems(packets))]).Ok?
  {
    hide TupleEncoding, EachConforms;
    EachPacketConforms(packets);
    var values := [Items(PacketItems(packets))];
    assert ConformsAll(ArrayOf(PacketField()).fields[1..], values[1..]);
    EncodesConforming(ArrayOf(PacketField()), values);
  }

  lemma {:induction false} EachPacketConforms(packets: seq<Packet>)
    ensures EachConforms(PacketField(), PacketItems(packets))
  {
    hide PacketField, PacketValues, Conforms;
    if |packets| > 0 {
      var items := PacketItems(packets);
      assert items[1..] == PacketItems(packets[1..]);
      PacketConforms(packets[0]);
      EachPacketConforms(packets[1..]);
    }
  }

  lemma PacketConforms(p: Packet)
    ensures Conforms(PacketField(), Items(PacketValues(p)))
  {
    var fields, values := PacketFields(), PacketValues(p);
    assert fields[4..][1..] == fields[5..] && values[4..][1..] == values[5..];
    assert ConformsAll(fields[5..], values[5..]);
    assert ConformsAll(fields[4..], values[4..]);
    assert fields[3..][1..] == fields[4..] && values[3..][1..] == values[4..];
    assert ConformsAll(fields[3..], values[3..]);
    assert fields[2..][1..] == fields[3..] && values[2..][1..] == values[3..];
    assert ConformsAll(fields[2..], values[2..]);
    assert fields[1..][1..] == fields[2..] && values[1..][1..] == values[2..];
    assert ConformsAll(fields[1..], values[1..]);
  }

  // The packets of a batch, without the timeout height that is not committed to.
  function Committed(packets: seq<Packet>): seq<Packet>
  {
    seq(|packets|, i requires 0 <= i < |packets| => packets[i].(timeoutHeight := 0))
  }

  // Two batches have the same preimage exactly when they agree packet by packet on everything but
  // the timeout height.
  lemma SamePacketsPreimage(packets: seq<Packet>, others: seq<Packet>)
    requires var r := TupleEncoding(ArrayOf(PacketField()).fields, [Items(PacketItems(packets))]);
             r.Ok? ==> |r.value| <= MAX_LEN
    ensures TupleEncoding(ArrayOf(PacketField()).fields, [Items(PacketItems(packets))])
         == TupleEncoding(ArrayOf(PacketField()).fields, [Items(PacketItems(others))])
       <==> Committed(packets) == Committed(others)
  {
    hide TupleEncoding;
    var schema := ArrayOf(PacketField());
    var values, values' := [Items(PacketItems(packets))], [Items(PacketItems(others))];
    PacketsEncode(packets);
    if TupleEncoding(schema.fields, values) == TupleEncoding(schema.fields, values') {
      PacketsCountable(packets);
      PacketsCountable(others);
      EncodingInjective(schema, values, values');
      assert PacketItems(packets) == PacketItems(others);
      SamePackets(packets, others);
    }
    if Committed(packets) == Committed(others) {
      SameCommitted(packets, others);
    }
  }

  // An array has no more elements than its encoding has words.
  lemma ElementsCounted(elem: Field, items: seq<Value>)
    requires IsDynamic(elem) && TupleEncoding(ArrayOf(elem).fields, [Items(items)]).Ok?
    ensures |items| <= |TupleEncoding(ArrayOf(elem).fields, [Items(items)]).value|
  {
    hide TupleEncoding, LengthWord, ItemParts, Aligned;
    var f := ArrayOf(elem).fields[0];
    WrappedIsTuple(f, Items(items));
    ItemPartsLength(elem, items, |items| * WORD, 0);
    DynamicHeadSize(elem);
  }

  lemma PacketsCountable(packets: seq<Packet>)
    requires var r := TupleEncoding(ArrayOf(PacketField()).fields, [Items(PacketItems(packets))]);
             r.Ok? && |r.value| <= MAX_LEN
    ensures AllCountable([Items(PacketItems(packets))])
  {
    hide TupleEncoding, IsDynamic;
    PacketDynamic();
    ElementsCounted(PacketField(), PacketItems(packets));
    forall i | 0 <= i < |packets| ensures Countable(PacketItems(packets)[i]) {
      var values := PacketValues(packets[i]);
      assert PacketItems(packets)[i] == Items(values);
      forall k | 0 <= k < |values| ensures Countable(values[k]) {
      }
    }
  }

  lemma SamePackets(packets: seq<Packet>, others: seq<Packet>)
    requires PacketItems(packets) == PacketItems(others)
    ensures Committed(packets) == Committed(others)
  {
    assert |packets| == |PacketItems(packets)| == |others|;
    forall i | 0 <= i < |packets| ensures Committed(packets)[i] == Committed(others)[i] {
      var v, w := PacketValues(packets[i]), PacketValues(others[i]);
      assert PacketItems(packets)[i] == Items(v) && PacketItems(others)[i] == Items(w);
      assert v[0] == w[0] && v[1] == w[1] && v[2] == w[2] && v[4] == w[4];
    }
  }

  lemma SameCommitted(packets: seq<Packet>, others: seq<Packet>)
    requires Committed(packets) == Committed(others)
    ensures PacketItems(packets) == PacketItems(others)
  {
    assert |packets| == |Committed(packets)| == |others|;
    forall i | 0 <= i < |packets| ensures PacketItems(packets)[i] == PacketItems(others)[i] {
      assert Committed(packets)[i] == Committed(others)[i];
    }
  }

  // Every batch of acknowledgements can be encoded.
  lemma AcksEncode(acks: seq<seq<Byte>>)
    ensures TupleEncoding(ArrayOf(Plain(TBytes)).fields, [Items(BlobItems(acks))]).Ok?
  {
    hide TupleEncoding, EachConforms;
    EachAckConforms(acks);
    var values := [Items(BlobItems(acks))];
    assert ConformsAll(ArrayOf(Plain(TBytes)).fields[1..], values[1..]);
    EncodesConforming(ArrayOf(Plain(TBytes)), values);
  }

  lemma {:induction false} EachAckConforms(acks: seq<seq<Byte>>)
    ensures EachConforms(Plain(TBytes), BlobItems(acks))
  {
    if |acks| > 0 {
      assert BlobItems(acks)[1..] == BlobItems(acks[1..]);
      EachAckConforms(acks[1..]);
    }
  }

  lemma AcksCountable(acks: seq<seq<Byte>>)
    requires |acks| <= MAX_INT
    ensures AllCountable([Items(BlobItems(acks))])
  {
    forall i | 0 <= i < |acks| ensures Countable(BlobItems(acks)[i]) {
      assert BlobItems(acks)[i] == Blob(acks[i]);
    }
  }

  // Two batches of acknowledgements have the same preimage only if they are the same batch.
  lemma SameAcksPreimage(acks: seq<seq<Byte>>, others: seq<seq<Byte>>)
    requires var r := TupleEncoding(ArrayOf(Plain(TBytes)).fields, [Items(BlobItems(acks))]);
             r.Ok? ==> |r.value| <= MAX_LEN
    requires TupleEncoding(ArrayOf(Plain(TBytes)).fields, [Items(BlobItems(acks))])
          == TupleEncoding(ArrayOf(Plain(TBytes)).fields, [Items(BlobItems(others))])
    ensures acks == others
  {
    hide TupleEncoding;
    AcksEncode(acks);
    ElementsCounted(Plain(TBytes), BlobItems(acks));
    ElementsCounted(Plain(TBytes), BlobItems(others));
    AcksCountable(acks);
    AcksCountable(others);
    EncodingInjective(ArrayOf(Plain(TBytes)), [Items(BlobItems(acks))], [Items(BlobItems(others))]);
    var items, items' := BlobItems(acks), BlobItems(others);
    assert items == items' && |acks| == |others|;
    forall i | 0 <= i < |acks| ensures acks[i] == others[i] {
      assert items[i] == Blob(acks[i]) && items'[i] == Blob(others[i]);
    }
  }

  // ---- the salt of a sender ----

  // The tuple of a sender and its salt.
  function SenderFields(): seq<Field>
  {
    [Plain(TBytes), Plain(TBytes32)]
  }

  lemma SenderTuple(sender: seq<Byte>, salt: Bytes32)
    ensures TupleEncoding(SenderFields(), [Blob(sender), Fixed32(salt)])
         == Ok(LengthWord(64) + salt + BytesEncoding(sender))
  {
    hide LengthWord, BytesEncoding;
    var fields, values := SenderFields(), [Blob(sender), Fixed32(salt)];
    var none, e: seq<Byte> := [], BytesEncoding(sender);
    assert fields[2..] == [] && values[2..] == [];
    assert fields[1..][1..] == fields[2..] && values[1..][1..] == values[2..];
    assert HeadLength(fields[1..]).value == 32 && HeadLength(fields).value == 64;
    assert FieldParts(fields[2..], values[2..], 64, |e|) == Ok(Parts(none, none));
    assert salt + none == salt;
    assert FieldParts(fields[1..], values[1..], 64, |e|) == Ok(Parts(salt, none));
    assert e + none == e;
    assert FieldParts(fields, values, 64, 0) == Ok(Parts(LengthWord(64) + salt, e));
  }

  // A number that fits in one byte, as n bytes.
  lemma SmallBigEndian(v: Byte, n: nat)
    requires n > 0
    ensures BigEndian(v, n) == ZeroBytes(n - 1) + [v]
  {
    BigEndianZero(n - 1);
  }

  lemma {:induction false} BigEndianZero(n: nat)
    ensures BigEndian(0, n) == ZeroBytes(n)
  {
    if n > 0 {
      BigEndianZero(n - 1);
      assert ZeroBytes(n - 1) + [0] == ZeroBytes(n);
    }
  }

  // The buffer filled in place is the encoding of one tuple of the sender and the salt: the offset
  // of the tuple, the offset of the sender in it, the salt, and the padded sender.
  method SenderSaltPreimage(sender: seq<Byte>, salt: Bytes32) returns (buf: array<Byte>)
    ensures fresh(buf)
    ensures Ok(buf[..]) == TupleEncoding([Field(TStruct, Some(Schema(SenderFields())), None)],
                                         [Items([Blob(sender), Fixed32(salt)])])
    ensures |sender| < B ==> IsSenderSalt(buf[..], sender, salt)
  {
    hide TupleEncoding, BigEndian, PadLength;
    var n := |sender|;
    var pad := (32 - n % 32) % 32;
    assert pad == PadLength(n) by { PadLengthIs(n); }
    buf := new Byte[4 * 32 + n + pad](i => 0);
    buf[31] := 0x20;
    buf[63] := 0x40;
    forall i | 64 <= i < 96 { buf[i] := salt[i - 64]; }
    forall i | 120 <= i < 128 { buf[i] := BigEndian(n % B, 8)[i - 120]; }
    forall i | 128 <= i < 128 + n { buf[i] := sender[i - 128]; }
    SenderStruct(sender, salt);
    SmallBigEndian(0x20, 8);
    SmallBigEndian(0x40, 8);
    assert buf[..] == LengthWord(32) + (LengthWord(64) + salt + BytesEncoding(sender));
    if |sender| < B { SenderSaltBytes(sender, salt); }
  }

  // The preimage read word by word: two distances, the salt, and the sender padded with zeros.
  predicate IsSenderSalt(e: seq<Byte>, sender: seq<Byte>, salt: Bytes32)
  {
    && WordIs(e, 0, 32) && WordIs(e, 32, 64) && |e| >= 96 && e[64..96] == salt && IsPadded(e[96..], sender)
  }

  lemma SenderSaltBytes(sender: seq<Byte>, salt: Bytes32)
    requires |sender| < B
    ensures IsSenderSalt(LengthWord(32) + (LengthWord(64) + salt + BytesEncoding(sender)), sender, salt)
  {
    hide Uint64Word, BytesEncoding, IsPadded, Number;
    var e := LengthWord(32) + (LengthWord(64) + salt + BytesEncoding(sender));
    assert e[96..] == BytesEncoding(sender) && e[64..96] == salt;
    WordOf(e, 0, 32);
    WordOf(e, 32, 64);
    BytesArePadded(sender);
  }

  lemma PadLengthIs(n: nat)
    ensures PadLength(n) == (32 - n % 32) % 32
  {
  }

  lemma SenderStruct(sender: seq<Byte>, salt: Bytes32)
    ensures TupleEncoding([Field(TStruct, Some(Schema(SenderFields())), None)], [Items([Blob(sender), Fixed32(salt)])])
         == Ok(LengthWord(32) + (LengthWord(64) + salt + BytesEncoding(sender)))
  {
    hide LengthWord, BytesEncoding, TupleEncoding;
    var f := Field(TStruct, Some(Schema(SenderFields())), None);
    assert IsDynamic(f);
    WrappedIsTuple(f, Items([Blob(sender), Fixed32(salt)]));
    SenderTuple(sender, salt);
  }
}
