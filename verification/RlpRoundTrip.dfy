// RLP decoding and encoding are inverse to each other, on all byte strings and all items.
module RlpRoundTrip {
  import opened Arith
  import opened Bytes
  import opened Wrappers
  import opened RlpEncode
  import opened RlpDecode

  // An item the decoder can return: a byte stands for itself only below 0x80, and such a byte is
  // never a string.
  predicate Canonical(v: Item)
  {
    match v
    case ByteItem(b) => b < 0x80
    case StringItem(s) => !SelfEncoded(s)
    case ListItem(items) => AllCanonical(items)
  }

  predicate AllCanonical(items: seq<Item>)
  {
    |items| == 0 || (Canonical(items[0]) && AllCanonical(items[1..]))
  }

  // How many lists are nested below an item.
  function Depth(v: Item): nat
  {
    if v.ListItem? && |v.items| > 0 then 1 + DepthAll(v.items) else 0
  }

  function DepthAll(items: seq<Item>): nat
  {
    if |items| == 0 then 0
    else
      var a, b := Depth(items[0]), DepthAll(items[1..]);
      if a > b then a else b
  }

  // ---- tags ----

  function TagBase(kind: Kind): Byte
  {
    if kind.KindList? then 0xC0 else 0x80
  }

  // A size read from n bytes without leading zero is a size of n bytes.
  lemma LeadingByte(s: seq<Byte>)
    requires |s| > 0
    ensures s[0] != 0 <==> FromBigEndian(s) >= Pow256(|s| - 1)
  {
    hide Pow256, FromBigEndian;
    assert s == s[..1] + s[1..];
    FromBigEndianConcat(s[..1], s[1..]);
    FromBigEndianBound(s[1..]);
    assert FromBigEndian(s[..1]) == s[0] by { SingleByte(s[..1]); }
    if s[0] != 0 { MulLe(1, s[0], Pow256(|s| - 1)); }
  }

  lemma SingleByte(s: seq<Byte>)
    requires |s| == 1
    ensures FromBigEndian(s) == s[0]
  {
    assert s[..0] == [];
  }

  // What ReadSize accepts is the shortest form of a size from 56 to the largest int.
  lemma ReadSizeExact(b: seq<Byte>, n: nat, size: nat)
    ensures ReadSize(b, n) == Ok(size)
       <==> (56 <= size <= MAX_INT && n == IntSize(size) && n <= |b| && b[..n] == BigEndian(size, n))
  {
    hide Pow256, FromBigEndian, BigEndian, IntSize;
    if 56 <= size <= MAX_INT && n == IntSize(size) && n <= |b| && b[..n] == BigEndian(size, n) {
      IntSizeBounds(size);
      BigEndianRoundTrip(size, n);
      LeadingByte(b[..n]);
    }
    if ReadSize(b, n) == Ok(size) {
      var s := b[..n];
      FromBigEndianRoundTrip(s);
      FromBigEndianBound(s);
      LeadingByte(s);
      IntSizeUnique(size, n);
    }
  }

  // What ReadKind accepts is the tag the encoder writes, in front of enough bytes.
  lemma TagWritten(b: seq<Byte>)
    requires ReadKind(b).Ok? && |b| <= MAX_INT
    ensures var tag := ReadKind(b).value;
            if tag.kind.KindByte? then tag.tagSize == 0 && b[0] < 0x80
            else
              && b[..tag.tagSize] == Header(TagBase(tag.kind), tag.contentSize)
              && (tag.kind.KindString? ==> !SelfEncoded(b[tag.tagSize..tag.tagSize + tag.contentSize]))
  {
    hide ReadSize, IntSize, BigEndian;
    var tag := ReadKind(b).value;
    if tag.kind.KindByte? {
    } else if tag.tagSize == 1 && tag.contentSize < 56 {
      assert b[..1] == [b[0]];
    } else {
      var n := tag.tagSize - 1;
      ReadSizeExact(b[1..], n, tag.contentSize);
      assert b[..tag.tagSize] == [b[0]] + b[1..][..n];
    }
  }

  // A size from 56 on is written with its own length in front, and read back.
  lemma LongSizeRead(base: Byte, size: nat, after: seq<Byte>)
    requires (base == 0x80 || base == 0xC0) && 56 <= size <= MAX_INT && size <= |after|
    ensures var h, n := Header(base, size), IntSize(size);
            && |h| == 1 + n && n <= 8 && h[0] == base + 55 + n
            && ReadSize((h + after)[1..], n) == Ok(size)
  {
    hide ReadSize, IntSize, BigEndian;
    var h, n := Header(base, size), IntSize(size);
    var digits := BigEndian(size, n);
    assert h + after == [h[0]] + (digits + after);
    assert (h + after)[1..] == digits + after;
    IntSizeBounds(size);
    ReadSizeExact(digits + after, n, size);
  }

  lemma KindRead(kind: Kind, size: nat, after: seq<Byte>)
    requires !kind.KindByte? && size <= MAX_INT && size <= |after|
    requires kind.KindString? ==> !SelfEncoded(after[..size])
    ensures var h := Header(TagBase(kind), size); ReadKind(h + after) == Ok(Tag(kind, |h|, size))
  {
    hide ReadSize, IntSize, BigEndian;
    if size < 56 {
      assert size == 1 ==> (Header(TagBase(kind), size) + after)[1] == after[..size][0];
    } else {
      LongSizeRead(TagBase(kind), size, after);
    }
  }

  lemma TagRead(kind: Kind, content: seq<Byte>, rest: seq<Byte>)
    requires !kind.KindByte? && |content| <= MAX_INT
    requires kind.KindString? ==> !SelfEncoded(content)
    ensures Split(Tagged(TagBase(kind), content) + rest) == Ok(Parts(kind, content, rest))
  {
    hide ReadKind, Header, SelfEncoded;
    var h := Header(TagBase(kind), |content|);
    var b := Tagged(TagBase(kind), content) + rest;
    assert b == h + (content + rest);
    assert (content + rest)[..|content|] == content;
    KindRead(kind, |content|, content + rest);
    assert b[|h|..|h| + |content|] == content && b[|h| + |content|..] == rest;
  }

  // ---- decoding what was encoded ----

  function Within<T>(depth: nat, limit: nat, v: T): (r: Result<T>)
  {
    if depth <= limit then Ok(v) else Err(DepthLimit)
  }

  lemma {:induction false} ItemBack(v: Item, rest: seq<Byte>, depth: nat, limit: nat)
    requires Canonical(v) && |Encoding(v)| <= MAX_INT
    ensures ItemOf(Encoding(v) + rest, depth, limit) == Within(depth + Depth(v), limit, Decoded(v, rest))
    decreases v, 1
  {
    hide Split, Tagged, Encodings, ItemsOf;
    if depth <= limit {
      match v
      case ByteItem(b) => ByteRead(b, rest);
      case StringItem(s) => TagRead(KindString, s, rest);
      case ListItem(items) =>
        TagRead(KindList, Encodings(items), rest);
        ItemsBack(items, depth + 1, limit);
    }
  }

  lemma ByteRead(b: Byte, rest: seq<Byte>)
    requires b < 0x80
    ensures Split([b] + rest) == Ok(Parts(KindByte, [b], rest))
  {
  }

  lemma {:induction false} ItemsBack(items: seq<Item>, depth: nat, limit: nat)
    requires AllCanonical(items) && |Encodings(items)| <= MAX_INT
    ensures ItemsOf(Encodings(items), depth, limit)
         == Within(if |items| == 0 then 0 else depth + DepthAll(items), limit, items)
    decreases items, 0
  {
    hide Canonical, Encoding, Depth, ItemOf;
    if |items| > 0 {
      ItemBack(items[0], Encodings(items[1..]), depth, limit);
      ItemsBack(items[1..], depth, limit);
      assert [items[0]] + items[1..] == items;
    }
  }

  // ---- encoding what was decoded ----

  // What a split string was joined from.
  lemma SplitJoined(b: seq<Byte>)
    requires Split(b).Ok? && |b| <= MAX_INT
    ensures var parts := Split(b).value;
            if parts.kind.KindByte? then |parts.content| == 1 && b == parts.content + parts.rest && parts.content[0] < 0x80
            else
              && b == Tagged(TagBase(parts.kind), parts.content) + parts.rest
              && (parts.kind.KindString? ==> !SelfEncoded(parts.content))
  {
    hide ReadKind, Header;
    TagWritten(b);
    var tag := ReadKind(b).value;
    var parts := Split(b).value;
    assert b == b[..tag.tagSize] + parts.content + parts.rest;
  }

  lemma {:induction false} ItemWritten(b: seq<Byte>, depth: nat, limit: nat)
    requires |b| <= MAX_INT && ItemOf(b, depth, limit).Ok?
    ensures var first := ItemOf(b, depth, limit).value;
            && b == Encoding(first.item) + first.rest
            && Canonical(first.item) && depth + Depth(first.item) <= limit
    decreases |b|, 0
  {
    hide Split, Tagged, ItemsOf, Encodings, AllCanonical;
    var parts := Split(b).value;
    SplitJoined(b);
    if parts.kind.KindList? {
      ItemsWritten(parts.content, depth + 1, limit);
    }
  }

  lemma {:induction false} ItemsWritten(b: seq<Byte>, depth: nat, limit: nat)
    requires |b| <= MAX_INT && ItemsOf(b, depth, limit).Ok?
    ensures var items := ItemsOf(b, depth, limit).value;
            b == Encodings(items) && AllCanonical(items) && (|items| > 0 ==> depth + DepthAll(items) <= limit)
    decreases |b|, 1
  {
    hide Canonical, Encoding, Depth, ItemOf;
    if |b| > 0 {
      ItemWritten(b, depth, limit);
      var first := ItemOf(b, depth, limit).value;
      ItemsWritten(first.rest, depth, limit);
      var items := ItemsOf(b, depth, limit).value;
      assert items[1..] == ItemsOf(first.rest, depth, limit).value;
    }
  }

  // ---- the codec as a whole ----

  // The decoder returns v for exactly one byte string, the encoding of v, and only if v is canonical
  // and at most 256 lists deep.
  lemma Bijection(b: seq<Byte>, v: Item)
    requires |b| <= MAX_INT
    ensures ValueOf(b) == Ok(v) <==> (Canonical(v) && Depth(v) <= 256 && b == Encoding(v))
  {
    hide ItemOf, Encoding, Canonical, Depth;
    if ValueOf(b) == Ok(v) {
      ItemWritten(b, 0, MAX_DEPTH);
      assert Encoding(v) + [] == Encoding(v);
    }
    if Canonical(v) && Depth(v) <= 256 && b == Encoding(v) {
      ItemBack(v, [], 0, MAX_DEPTH);
      assert Encoding(v) + [] == Encoding(v);
    }
  }

  // A canonical item nested too deeply is encoded, and its encoding is refused for its depth.
  lemma TooDeep(v: Item)
    requires Canonical(v) && |Encoding(v)| <= MAX_INT && Depth(v) > 256
    ensures ValueOf(Encoding(v)) == Err(DepthLimit)
  {
    hide ItemOf, Encoding, Canonical, Depth;
    ItemBack(v, [], 0, MAX_DEPTH);
    assert Encoding(v) + [] == Encoding(v);
  }

  // Different canonical items never share an encoding, nor is one encoding the start of another,
  // however deeply they are nested.
  lemma PrefixFree(v: Item, w: Item, rest: seq<Byte>)
    requires Canonical(v) && Canonical(w) && |Encoding(w)| <= MAX_INT
    requires Encoding(w) == Encoding(v) + rest
    ensures v == w && rest == []
  {
    hide ItemOf, Encoding, Canonical, Depth;
    var limit := Depth(v) + Depth(w);
    ItemBack(v, rest, 0, limit);
    ItemBack(w, [], 0, limit);
    assert Encoding(w) + [] == Encoding(w);
  }

  // ---- the form of an encoding ----

  // Up to 55 bytes stand behind one byte of tag and length; more stand behind the length itself, in the
  // fewest bytes, and a byte that says how many those are.
  predicate IsTagged(e: seq<Byte>, base: Byte, content: seq<Byte>)
  {
    var k := |e| - 1 - |content|;
    && 0 <= k <= 8 && e[1 + k..] == content
    && if |content| < 56 then k == 0 && e[0] == base + |content|
       else k > 0 && e[0] == base + 55 + k && e[1] != 0 && FromBigEndian(e[1..1 + k]) == |content|
  }

  lemma TaggedForm(base: Byte, content: seq<Byte>)
    requires (base == 0x80 || base == 0xC0) && |content| <= MAX_INT
    ensures IsTagged(Tagged(base, content), base, content)
  {
    hide IntSize, BigEndian, FromBigEndian, Pow256;
    var e := Tagged(base, content);
    if |content| >= 56 {
      var n := IntSize(|content|);
      var size := BigEndian(|content|, n);
      IntSizeBounds(|content|);
      assert e == [base + 55 + n] + (size + content);
      assert e[1..1 + n] == size && e[1 + n..] == content;
      BigEndianRoundTrip(|content|, n);
      LeadingByte(size);
    } else {
      assert e == [base + |content|] + content;
    }
  }

  // A single byte below 0x80 is its own encoding; other strings are tagged from 0x80, and lists from 0xC0
  // around the encodings of their items.
  lemma EncodingForm(v: Item)
    requires |Encoding(v)| <= MAX_INT
    ensures match v
            case ByteItem(b) => if b < 0x80 then Encoding(v) == [b] else IsTagged(Encoding(v), 0x80, [b])
            case StringItem(s) =>
              if |s| == 1 && s[0] < 0x80 then Encoding(v) == s else IsTagged(Encoding(v), 0x80, s)
            case ListItem(items) =>
              exists parts :: |parts| == |items| && (forall i :: 0 <= i < |items| ==> parts[i] == Encoding(items[i]))
                           && IsTagged(Encoding(v), 0xC0, Concat(parts))
  {
    hide Tagged, IsTagged;
    match v
    case ByteItem(b) => if b >= 0x80 { TaggedForm(0x80, [b]); }
    case StringItem(s) => if !(|s| == 1 && s[0] < 0x80) { TaggedForm(0x80, s); }
    case ListItem(items) =>
      var parts := seq(|items|, i requires 0 <= i < |items| => Encoding(items[i]));
      PartsConcat(items, parts);
      TaggedForm(0xC0, Concat(parts));
  }

  lemma {:induction false} PartsConcat(items: seq<Item>, parts: seq<seq<Byte>>)
    requires |parts| == |items| && forall i :: 0 <= i < |items| ==> parts[i] == Encoding(items[i])
    ensures Encodings(items) == Concat(parts)
  {
    hide Encoding;
    if |items| > 0 { PartsConcat(items[1..], parts[1..]); }
  }
}
