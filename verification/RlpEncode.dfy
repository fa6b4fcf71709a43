// RLP items and their encoding (Ethereum Yellow Paper, appendix B).
module RlpEncode {
  import opened Arith
  import opened Words
  import opened Bits
  import opened Bytes

  // A decoded item: a byte that stands for itself, a string behind a tag, or a list.
  datatype Item =
    | ByteItem(byte: Byte)
    | StringItem(bytes: seq<Byte>)
    | ListItem(items: seq<Item>)

  // The bytes a size takes without leading zeros.
  function IntSize(x: Word): (n: nat)
    ensures 1 <= n <= 8
  {
    if x < 0x100 then 1
    else if x < 0x1_0000 then 2
    else if x < 0x100_0000 then 3
    else if x < 0x1_0000_0000 then 4
    else if x < 0x100_0000_0000 then 5
    else if x < 0x1_0000_0000_0000 then 6
    else if x < 0x100_0000_0000_0000 then 7
    else 8
  }

  lemma Pow256Values()
    ensures Pow256(0) == 1 && Pow256(1) == 0x100 && Pow256(2) == 0x1_0000 && Pow256(3) == 0x100_0000
    ensures Pow256(4) == 0x1_0000_0000 && Pow256(5) == 0x100_0000_0000 && Pow256(6) == 0x1_0000_0000_0000
    ensures Pow256(7) == 0x100_0000_0000_0000 && Pow256(8) == B
  {
    PowAdd(256, 4, 1);
    PowAdd(256, 4, 2);
    PowAdd(256, 4, 3);
    PowAdd(256, 4, 4);
  }

  lemma IntSizeBounds(x: Word)
    ensures x < Pow256(IntSize(x)) && (x > 0 ==> Pow256(IntSize(x) - 1) <= x)
  {
    hide Pow256;
    Pow256Values();
  }

  // Only one number of bytes fits a size exactly.
  lemma IntSizeUnique(x: Word, n: nat)
    requires 0 < n && Pow256(n - 1) <= x < Pow256(n)
    ensures IntSize(x) == n
  {
    hide IntSize;
    IntSizeBounds(x);
    var m := IntSize(x);
    if m < n { PowMono(256, m, n - 1); }
    if n < m { PowMono(256, n, m - 1); }
  }

  // Tag and size of a string (0x80) or a list (0xC0).
  function Header(baseTag: Byte, size: Word): (h: seq<Byte>)
    requires baseTag == 0x80 || baseTag == 0xC0
    ensures |h| > 0
  {
    if size < 56 then [baseTag + size]
    else [baseTag + 55 + IntSize(size)] + BigEndian(size, IntSize(size))
  }

  function Tagged(baseTag: Byte, content: seq<Byte>): (e: seq<Byte>)
    requires baseTag == 0x80 || baseTag == 0xC0
    ensures |e| > |content|
  {
    Header(baseTag, |content| % B) + content
  }

  predicate SelfEncoded(b: seq<Byte>)
  {
    |b| == 1 && b[0] <= 0x7F
  }

  function StringEncoding(b: seq<Byte>): (e: seq<Byte>)
    ensures |e| > 0
  {
    if SelfEncoded(b) then b else Tagged(0x80, b)
  }

  function Encoding(v: Item): (e: seq<Byte>)
    ensures |e| > 0
  {
    match v
    case ByteItem(b) => StringEncoding([b])
    case StringItem(s) => StringEncoding(s)
    case ListItem(items) => Tagged(0xC0, Encodings(items))
  }

  function Encodings(items: seq<Item>): (e: seq<Byte>)
    ensures |items| > 0 ==> |e| > 0
  {
    if |items| == 0 then [] else Encoding(items[0]) + Encodings(items[1..])
  }

  function Concat(parts: seq<seq<Byte>>): (e: seq<Byte>)
  {
    if |parts| == 0 then [] else parts[0] + Concat(parts[1..])
  }

  lemma {:induction false} ConcatSnoc(parts: seq<seq<Byte>>, last: seq<Byte>)
    ensures Concat(parts + [last]) == Concat(parts) + last
  {
    if |parts| == 0 {
      assert parts + [last] == [last] && [last][1..] == [];
    } else {
      assert (parts + [last])[1..] == parts[1..] + [last];
      ConcatSnoc(parts[1..], last);
    }
  }

  // ---- the encoder's methods ----

  method AppendBigEndianUint(out: seq<Byte>, x: Word, n: nat) returns (r: seq<Byte>)
    requires n <= 8
    ensures r == out + BigEndian(x, n)
  {
    hide BigEndian, Shr;
    r := out;
    BigEndianNothing(Shr(x, n * 8));
    var i := n;
    while i > 0
      invariant 0 <= i <= n
      invariant r == out + BigEndian(Shr(x, i * 8), n - i)
    {
      i := i - 1;
      BigEndianNext(x, i, n - i - 1);
      r := r + [Shr(x, i * 8) % 256];
    }
    ShrNothing(x);
  }

  lemma BigEndianNothing(x: nat)
    ensures BigEndian(x, 0) == []
  {
  }

  lemma ShrNothing(x: Word)
    ensures Shr(x, 0) == x
  {
  }

  lemma BigEndianNext(x: Word, i: nat, n: nat)
    requires i < 8
    ensures BigEndian(Shr(x, i * 8), n + 1) == BigEndian(Shr(x, (i + 1) * 8), n) + [Shr(x, i * 8) % 256]
  {
    hide BigEndian;
    PowersAgree(i);
    PowersAgree(i + 1);
    DivDiv(x, Pow256(i), 256);
    BigEndianLast(Shr(x, i * 8), n);
  }

  lemma BigEndianLast(v: nat, n: nat)
    ensures BigEndian(v, n + 1) == BigEndian(v / 256, n) + [v % 256]
  {
  }

  lemma {:induction false} PowersAgree(i: nat)
    ensures Pow2(i * 8) == Pow256(i)
  {
    if i > 0 {
      PowersAgree(i - 1);
      Pow2Add(8, (i - 1) * 8);
      assert Pow2(8) == 256;
    }
  }

  lemma DivDiv(x: nat, a: nat, b: nat)
    requires 0 < a && 0 < b
    ensures a * b > 0 && x / a / b == x / (a * b)
  {
    var q, r := x / a, x % a;
    var q', r' := q / b, q % b;
    MulLe(1, a, b);
    assert x == q * a + r && q == q' * b + r';
    Distribute(q' * b, r', a);
    Associate(q', b, a);
    MulLe(r', b - 1, a);
    Distribute(b, 1, a);
    DivUnique(x, a * b, q', r' * a + r);
  }

  method AppendHeader(out: seq<Byte>, baseTag: Byte, size: Word) returns (r: seq<Byte>)
    requires baseTag == 0x80 || baseTag == 0xC0
    ensures r == out + Header(baseTag, size)
  {
    if size < 56 { return out + [baseTag + size]; }
    var n := IntSize(size);
    r := AppendBigEndianUint(out + [baseTag + 55 + n], size, n);
  }

  method AppendBytes(out: seq<Byte>, b: seq<Byte>) returns (r: seq<Byte>)
    ensures r == out + StringEncoding(b)
  {
    hide Header;
    if |b| == 1 && b[0] <= 0x7F { return out + [b[0]]; }
    r := AppendHeader(out, 0x80, |b| % B);
    r := r + b;
  }

  method EncodeBytes(b: seq<Byte>) returns (r: seq<Byte>)
    ensures r == StringEncoding(b)
  {
    r := AppendBytes([], b);
  }

  method EncodeList(parts: seq<seq<Byte>>) returns (r: seq<Byte>)
    ensures r == Tagged(0xC0, Concat(parts))
  {
    hide Header, Concat;
    var size := 0;
    ConcatNothing();
    for i := 0 to |parts|
      invariant size == |Concat(parts[..i])|
    {
      assert parts[..i + 1] == parts[..i] + [parts[i]];
      ConcatSnoc(parts[..i], parts[i]);
      size := size + |parts[i]|;
    }
    r := AppendHeader([], 0xC0, size % B);
    assert parts[..|parts|] == parts;
    for i := 0 to |parts|
      invariant r == Header(0xC0, size % B) + Concat(parts[..i])
    {
      assert parts[..i + 1] == parts[..i] + [parts[i]];
      ConcatSnoc(parts[..i], parts[i]);
      r := r + parts[i];
    }
  }

  lemma ConcatNothing()
    ensures Concat([]) == []
  {
  }

  // A tree is encoded with EncodeBytes at its leaves and EncodeList at its lists.
  method EncodeItem(v: Item) returns (r: seq<Byte>)
    ensures r == Encoding(v)
    decreases v
  {
    match v
    case ByteItem(b) => r := EncodeBytes([b]);
    case StringItem(s) => r := EncodeBytes(s);
    case ListItem(items) =>
      var parts: seq<seq<Byte>> := [];
      for i := 0 to |items|
        invariant |parts| == i && forall k :: 0 <= k < i ==> parts[k] == Encoding(items[k])
      {
        var part := EncodeItem(items[i]);
        parts := parts + [part];
      }
      ConcatEncodings(items, parts);
      r := EncodeList(parts);
  }

  lemma {:induction false} ConcatEncodings(items: seq<Item>, parts: seq<seq<Byte>>)
    requires |parts| == |items| && forall k :: 0 <= k < |items| ==> parts[k] == Encoding(items[k])
    ensures Concat(parts) == Encodings(items)
  {
    hide Encoding;
    if |items| > 0 {
      ConcatEncodings(items[1..], parts[1..]);
    }
  }

  // ---- the sizes buffers are allocated with ----

  function HeaderSize(payloadSize: Word): nat
  {
    if payloadSize < 56 then 1 else 1 + IntSize(payloadSize)
  }

  function BytesSize(b: seq<Byte>): nat
    requires |b| < B
  {
    if |b| == 1 && b[0] <= 0x7F then 1 else HeaderSize(|b|) + |b|
  }

  function ListSize(contentSize: Word): nat
  {
    HeaderSize(contentSize) + contentSize
  }

  // They are exact: no buffer grows, and none is too large.
  lemma SizesAreExact(b: seq<Byte>)
    requires |b| < B
    ensures |StringEncoding(b)| == BytesSize(b) && |Tagged(0xC0, b)| == ListSize(|b|)
  {
  }
}
