// Decoding one RLP item, refusing every encoding that is not the canonical one.
module RlpDecode {
  import opened Arith
  import opened Words
  import opened Bits
  import opened Bytes
  import opened Wrappers
  import opened RlpEncode

  datatype RlpError = CanonSize | ValueTooLarge | TrailingBytes | UnexpectedEOF | DepthLimit

  type Result<T> = Outcome<T, RlpError>

  const MAX_DEPTH: nat := 256

  datatype Kind = KindByte | KindString | KindList

  // The kind of an item, the bytes its tag takes and the bytes its content takes.
  datatype Tag = Tag(kind: Kind, tagSize: nat, contentSize: nat)

  datatype Parts = Parts(kind: Kind, content: seq<Byte>, rest: seq<Byte>)

  datatype Decoded = Decoded(item: Item, rest: seq<Byte>)

  function ReadSize(b: seq<Byte>, sizeLen: nat): (r: Result<nat>)
  {
    if sizeLen == 0 || sizeLen > 8 || |b| < sizeLen then Err(UnexpectedEOF)
    else if b[0] == 0 then Err(CanonSize)
    else
      var size := FromBigEndian(b[..sizeLen]);
      if size < 56 then Err(CanonSize)
      else if size > MAX_INT then Err(ValueTooLarge)
      else Ok(size)
  }

  function ReadLongItem(b: seq<Byte>, sizeLen: nat, kind: Kind): (r: Result<Tag>)
    requires |b| > 0
    ensures r.Ok? ==> r.value.kind == kind && r.value.tagSize > 0 && r.value.tagSize + r.value.contentSize <= |b|
  {
    var size :- ReadSize(b[1..], sizeLen);
    if size > |b| - 1 - sizeLen then Err(ValueTooLarge)
    else Ok(Tag(kind, 1 + sizeLen, size))
  }

  function ReadKind(b: seq<Byte>): (r: Result<Tag>)
    ensures r.Ok? ==> 0 < r.value.tagSize + r.value.contentSize <= |b|
    ensures r.Ok? ==> if r.value.kind.KindByte? then r.value.contentSize == 1 else r.value.tagSize > 0
  {
    if |b| == 0 then Err(UnexpectedEOF)
    else
      var prefix := b[0];
      if prefix < 0x80 then Ok(Tag(KindByte, 0, 1))
      else if prefix < 0xB8 then
        var size := prefix - 0x80;
        if size == 1 && |b| > 1 && b[1] < 0x80 then Err(CanonSize)
        else if |b| < 1 + size then Err(ValueTooLarge)
        else Ok(Tag(KindString, 1, size))
      else if prefix < 0xC0 then ReadLongItem(b, prefix - 0xB7, KindString)
      else if prefix < 0xF8 then
        var size := prefix - 0xC0;
        if |b| < 1 + size then Err(ValueTooLarge)
        else Ok(Tag(KindList, 1, size))
      else ReadLongItem(b, prefix - 0xF7, KindList)
  }

  function Split(b: seq<Byte>): (r: Result<Parts>)
    ensures r.Ok? ==> |r.value.rest| < |b|
    ensures r.Ok? ==> if r.value.kind.KindByte? then |r.value.content| == 1 else |r.value.content| < |b|
  {
    var tag :- ReadKind(b);
    var end := tag.tagSize + tag.contentSize;
    Ok(Parts(tag.kind, b[tag.tagSize..end], b[end..]))
  }

  // The first item of b, and what follows it, for lists nested at most limit deep.
  function ItemOf(b: seq<Byte>, depth: nat, limit: nat): (r: Result<Decoded>)
    ensures r.Ok? ==> |r.value.rest| < |b|
    decreases |b|, 0
  {
    if depth > limit then Err(DepthLimit)
    else
      var parts :- Split(b);
      match parts.kind
      case KindByte => Ok(Decoded(ByteItem(parts.content[0]), parts.rest))
      case KindString => Ok(Decoded(StringItem(parts.content), parts.rest))
      case KindList =>
        var items :- ItemsOf(parts.content, depth + 1, limit);
        Ok(Decoded(ListItem(items), parts.rest))
  }

  // All the items of b, which they fill to the end.
  function ItemsOf(b: seq<Byte>, depth: nat, limit: nat): (r: Result<seq<Item>>)
    decreases |b|, 1
  {
    if |b| == 0 then Ok([])
    else
      var first :- ItemOf(b, depth, limit);
      var others :- ItemsOf(first.rest, depth, limit);
      Ok([first.item] + others)
  }

  function ValueOf(b: seq<Byte>): (r: Result<Item>)
  {
    var first :- ItemOf(b, 0, MAX_DEPTH);
    if |first.rest| != 0 then Err(TrailingBytes) else Ok(first.item)
  }

  // ---- the decoder's loops ----

  // The size is gathered byte by byte in a uint64.
  method ReadSizeBytes(b: seq<Byte>, sizeLen: nat) returns (r: Result<nat>)
    ensures r == ReadSize(b, sizeLen)
  {
    hide FromBigEndian, Shl, Or, Pow256;
    if sizeLen == 0 || sizeLen > 8 || |b| < sizeLen { return Err(UnexpectedEOF); }
    if b[0] == 0 { return Err(CanonSize); }
    var size: Word := 0;
    FromNothing();
    for i := 0 to sizeLen
      invariant size == FromBigEndian(b[..i])
    {
      assert b[..i + 1][..i] == b[..i];
      ShiftInByte(b[..i + 1]);
      size := Or(Shl(size, 8), b[i]);
    }
    if size < 56 { return Err(CanonSize); }
    if size > MAX_INT { return Err(ValueTooLarge); }
    return Ok(size);
  }

  lemma FromNothing()
    ensures FromBigEndian([]) == 0
  {
  }

  lemma ShiftInByte(s: seq<Byte>)
    requires 0 < |s| <= 8 && FromBigEndian(s[..|s| - 1]) < B
    ensures Or(Shl(FromBigEndian(s[..|s| - 1]), 8), s[|s| - 1]) == FromBigEndian(s)
  {
    hide Pow2, Pow256, Bitwise;
    var high := FromBigEndian(s[..|s| - 1]);
    FromBigEndianBound(s[..|s| - 1]);
    PowMono(256, |s| - 1, 7);
    Pow256Values();
    assert high < Pow256(7) by { PowersOrdered(|s| - 1, 7); }
    assert Pow2(8) == 256 by { EightBits(); }
    Pow2Word();
    OrDisjoint(64, 8, high, s[|s| - 1]);
  }

  lemma PowersOrdered(m: nat, n: nat)
    requires m <= n
    ensures Pow256(m) <= Pow256(n)
  {
    PowMono(256, m, n);
  }

  lemma EightBits()
    ensures Pow2(8) == 256
  {
  }

  method DecodeItem(b: seq<Byte>, depth: nat) returns (r: Result<Decoded>)
    ensures r == ItemOf(b, depth, MAX_DEPTH)
    decreases |b|
  {
    hide Split;
    if depth > MAX_DEPTH { return Err(DepthLimit); }
    var parts := Split(b);
    if parts.Err? { return Err(parts.error); }
    match parts.value.kind
    case KindByte => return Ok(Decoded(ByteItem(parts.value.content[0]), parts.value.rest));
    case KindString => return Ok(Decoded(StringItem(parts.value.content), parts.value.rest));
    case KindList =>
      var content, items := parts.value.content, [];
      FollowingNothing(ItemsOf(content, depth + 1, MAX_DEPTH));
      while |content| > 0
        invariant |content| < |b|
        invariant ItemsOf(parts.value.content, depth + 1, MAX_DEPTH) == Following(items, ItemsOf(content, depth + 1, MAX_DEPTH))
        decreases |content|
      {
        ItemsStep(content, depth + 1, MAX_DEPTH, items);
        var item := DecodeItem(content, depth + 1);
        if item.Err? { return Err(item.error); }
        content := item.value.rest;
        items := items + [item.value.item];
      }
      assert items + [] == items;
      return Ok(Decoded(ListItem(items), parts.value.rest));
  }

  lemma ItemsStep(b: seq<Byte>, depth: nat, limit: nat, items: seq<Item>)
    requires |b| > 0
    ensures Following(items, ItemsOf(b, depth, limit))
         == (var first := ItemOf(b, depth, limit);
             if first.Err? then Err(first.error)
             else Following(items + [first.value.item], ItemsOf(first.value.rest, depth, limit)))
  {
    hide ItemOf;
    var first := ItemOf(b, depth, limit);
    if first.Ok? {
      var others := ItemsOf(first.value.rest, depth, limit);
      if others.Ok? {
        assert items + ([first.value.item] + others.value) == (items + [first.value.item]) + others.value;
      }
    }
  }

  method DecodeValue(b: seq<Byte>) returns (r: Result<Item>)
    ensures r == ValueOf(b)
  {
    hide ItemOf;
    var first := DecodeItem(b, 0);
    if first.Err? { return Err(first.error); }
    if |first.value.rest| != 0 { return Err(TrailingBytes); }
    return Ok(first.value.item);
  }
}
