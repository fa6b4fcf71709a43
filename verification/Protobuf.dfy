// Protocol buffer messages: how proofs and their operations are written, and how they are read.
module Protobuf {
  import opened Bytes
  import opened Wrappers

  // Seven bits to a byte, low bits first; the top bit says that more follow.
  function Uvarint(v: nat): (e: seq<Byte>)
    ensures |e| > 0
  {
    if v < 0x80 then [v] else [v % 0x80 + 0x80] + Uvarint(v / 0x80)
  }

  // A signed number that is not negative.
  function Varint(v: nat): (e: seq<Byte>)
  {
    Uvarint(2 * v)
  }

  // Reads the shortest form and refuses any other, where the last bytes say nothing.
  function ReadUvarint(b: seq<Byte>): (r: Option<(nat, seq<Byte>)>)
    ensures r.Some? ==> |r.value.1| < |b|
  {
    if |b| == 0 then None
    else if b[0] < 0x80 then Some((b[0], b[1..]))
    else
      var high := ReadUvarint(b[1..]);
      if high.None? || high.value.0 == 0 then None else Some((b[0] - 0x80 + 0x80 * high.value.0, high.value.1))
  }

  lemma {:induction false} UvarintBack(v: nat, rest: seq<Byte>)
    ensures ReadUvarint(Uvarint(v) + rest) == Some((v, rest))
  {
    if v >= 0x80 {
      var tail := Uvarint(v / 0x80);
      assert (Uvarint(v) + rest)[1..] == tail + rest;
      UvarintBack(v / 0x80, rest);
    }
  }

  // Only what is written for a number is read as that number.
  lemma {:induction false} UvarintOnly(b: seq<Byte>)
    ensures ReadUvarint(b).Some? ==> b == Uvarint(ReadUvarint(b).value.0) + ReadUvarint(b).value.1
  {
    if |b| > 0 && b[0] >= 0x80 && ReadUvarint(b).Some? {
      UvarintOnly(b[1..]);
      var w := ReadUvarint(b[1..]).value.0;
      var v := b[0] - 0x80 + 0x80 * w;
      assert v / 0x80 == w && v % 0x80 == b[0] - 0x80;
    }
  }

  // No shorter form has the same value: only the last byte is below 0x80, and it is not a needless zero.
  lemma {:induction false} UvarintShortest(v: nat)
    ensures var e := Uvarint(v);
            && (forall k :: 0 <= k < |e| - 1 ==> e[k] >= 0x80) && e[|e| - 1] < 0x80
            && (|e| > 1 ==> e[|e| - 1] != 0)
  {
    if v >= 0x80 { UvarintShortest(v / 0x80); }
  }

  // A signed number: even codes are the numbers from zero up, odd ones those below.
  function ReadVarint(b: seq<Byte>): (r: Option<(int, seq<Byte>)>)
    ensures r.Some? ==> |r.value.1| < |b|
  {
    var u := ReadUvarint(b);
    if u.None? then None
    else
      var (n, rest) := u.value;
      Some((if n % 2 == 0 then n / 2 else -(n / 2) - 1, rest))
  }

  lemma VarintBack(v: nat, rest: seq<Byte>)
    ensures ReadVarint(Varint(v) + rest) == Some((v, rest))
  {
    hide Uvarint, ReadUvarint;
    UvarintBack(2 * v, rest);
  }

  lemma VarintOnly(b: seq<Byte>)
    ensures var r := ReadVarint(b); r.Some? && r.value.0 >= 0 ==> b == Varint(r.value.0) + r.value.1
  {
    hide Uvarint, ReadUvarint;
    UvarintOnly(b);
  }

  datatype Field = VarintField(num: nat, v: nat) | BytesField(num: nat, data: seq<Byte>)

  function FieldEncoding(f: Field): (e: seq<Byte>)
    ensures |e| > 0
  {
    match f
    case VarintField(num, v) => Uvarint(8 * num) + Uvarint(v)
    case BytesField(num, data) => Uvarint(8 * num + 2) + Uvarint(|data|) + data
  }

  function Message(fields: seq<Field>): (e: seq<Byte>)
  {
    if |fields| == 0 then [] else FieldEncoding(fields[0]) + Message(fields[1..])
  }

  function ReadField(b: seq<Byte>): (r: Option<(Field, seq<Byte>)>)
    ensures r.Some? ==> |r.value.1| < |b|
  {
    var tag := ReadUvarint(b);
    if tag.None? then None
    else
      var num, wire := tag.value.0 / 8, tag.value.0 % 8;
      var payload := ReadUvarint(tag.value.1);
      if payload.None? then None
      else
        var (v, rest) := payload.value;
        if wire == 0 then Some((VarintField(num, v), rest))
        else if wire == 2 && v <= |rest| then Some((BytesField(num, rest[..v]), rest[v..]))
        else None
  }

  function ReadMessage(b: seq<Byte>): (r: Option<seq<Field>>)
    decreases |b|
  {
    if |b| == 0 then Some([])
    else
      var first := ReadField(b);
      if first.None? then None
      else
        var rest := ReadMessage(first.value.1);
        if rest.None? then None else Some([first.value.0] + rest.value)
  }

  lemma FieldBack(f: Field, rest: seq<Byte>)
    ensures ReadField(FieldEncoding(f) + rest) == Some((f, rest))
  {
    hide Uvarint, ReadUvarint;
    match f
    case VarintField(num, v) =>
      assert FieldEncoding(f) + rest == Uvarint(8 * num) + (Uvarint(v) + rest);
      UvarintBack(8 * num, Uvarint(v) + rest);
      UvarintBack(v, rest);
    case BytesField(num, data) =>
      assert FieldEncoding(f) + rest == Uvarint(8 * num + 2) + (Uvarint(|data|) + (data + rest));
      UvarintBack(8 * num + 2, Uvarint(|data|) + (data + rest));
      UvarintBack(|data|, data + rest);
      assert (data + rest)[..|data|] == data && (data + rest)[|data|..] == rest;
  }

  lemma {:induction false} MessageBack(fields: seq<Field>)
    ensures ReadMessage(Message(fields)) == Some(fields)
  {
    hide FieldEncoding, ReadField;
    if |fields| > 0 {
      FieldBack(fields[0], Message(fields[1..]));
      MessageBack(fields[1..]);
      assert [fields[0]] + fields[1..] == fields;
    }
  }

  // ---- the inner operation of an ICS-23 proof ----

  datatype InnerOp = InnerOp(hash: nat, prefix: seq<Byte>, suffix: seq<Byte>)

  // An empty suffix is not written.
  function InnerOpEncoding(op: InnerOp): (e: seq<Byte>)
  {
    Message([VarintField(1, op.hash), BytesField(2, op.prefix)]
            + if |op.suffix| > 0 then [BytesField(3, op.suffix)] else [])
  }

  // The last value of a field counts, a missing one is zero or empty, and unknown ones are skipped.
  function InnerOpFields(op: InnerOp, fields: seq<Field>): (r: InnerOp)
    decreases fields
  {
    if |fields| == 0 then op
    else
      var op' := match fields[0]
        case VarintField(num, v) => if num == 1 then op.(hash := v) else op
        case BytesField(num, data) =>
          if num == 2 then op.(prefix := data) else if num == 3 then op.(suffix := data) else op;
      InnerOpFields(op', fields[1..])
  }

  function ReadInnerOp(b: seq<Byte>): (r: Option<InnerOp>)
  {
    var fields := ReadMessage(b);
    if fields.None? then None else Some(InnerOpFields(InnerOp(0, [], []), fields.value))
  }

  lemma InnerOpBack(op: InnerOp)
    ensures ReadInnerOp(InnerOpEncoding(op)) == Some(op)
  {
    hide Message, ReadMessage;
    var fields := [VarintField(1, op.hash), BytesField(2, op.prefix)]
                  + if |op.suffix| > 0 then [BytesField(3, op.suffix)] else [];
    MessageBack(fields);
    var op1 := InnerOp(op.hash, [], []);
    var op2 := InnerOp(op.hash, op.prefix, []);
    assert InnerOpFields(InnerOp(0, [], []), fields) == InnerOpFields(op1, fields[1..]);
    assert InnerOpFields(op1, fields[1..]) == InnerOpFields(op2, fields[1..][1..]);
    if |op.suffix| > 0 {
      assert fields[1..][1..] == [BytesField(3, op.suffix)];
      assert InnerOpFields(op2, [BytesField(3, op.suffix)]) == InnerOpFields(op, [BytesField(3, op.suffix)][1..]);
    } else {
      assert fields[1..][1..] == [];
    }
  }

  // ---- existence and non-existence proofs ----

  // A field that is left out when it is empty.
  function Optional(num: nat, data: seq<Byte>): seq<Field>
  {
    if |data| > 0 then [BytesField(num, data)] else []
  }

  function Repeated(num: nat, items: seq<seq<Byte>>): seq<Field>
  {
    if |items| == 0 then [] else [BytesField(num, items[0])] + Repeated(num, items[1..])
  }

  // The last value of a bytes field, or what it was before.
  function LastOf(fields: seq<Field>, num: nat, before: seq<Byte>): seq<Byte>
  {
    if |fields| == 0 then before
    else LastOf(fields[1..], num, if fields[0].BytesField? && fields[0].num == num then fields[0].data else before)
  }

  // All the values of a repeated bytes field.
  function AllOf(fields: seq<Field>, num: nat): seq<seq<Byte>>
  {
    if |fields| == 0 then []
    else (if fields[0].BytesField? && fields[0].num == num then [fields[0].data] else []) + AllOf(fields[1..], num)
  }

  lemma {:induction false} RepeatedBack(num: nat, items: seq<seq<Byte>>)
    ensures AllOf(Repeated(num, items), num) == items
    ensures forall other: nat, before: seq<Byte> :: other != num ==> LastOf(Repeated(num, items), other, before) == before
  {
    if |items| > 0 {
      RepeatedBack(num, items[1..]);
      assert Repeated(num, items)[1..] == Repeated(num, items[1..]);
      assert [items[0]] + items[1..] == items;
    }
  }

  // The leaf operation and the inner operations as they are encoded.
  datatype Existence = Existence(key: seq<Byte>, value: seq<Byte>, leaf: seq<Byte>, path: seq<seq<Byte>>)

  function ExistenceEncoding(e: Existence): (r: seq<Byte>)
    ensures |r| > 0
  {
    assert Message([BytesField(1, e.key), BytesField(2, e.value), BytesField(3, e.leaf)] + Repeated(4, e.path))
        == FieldEncoding(BytesField(1, e.key))
         + Message(([BytesField(1, e.key), BytesField(2, e.value), BytesField(3, e.leaf)] + Repeated(4, e.path))[1..]);
    Message([BytesField(1, e.key), BytesField(2, e.value), BytesField(3, e.leaf)] + Repeated(4, e.path))
  }

  function ReadExistence(b: seq<Byte>): (r: Option<Existence>)
  {
    var fields := ReadMessage(b);
    if fields.None? then None
    else Some(Existence(LastOf(fields.value, 1, []), LastOf(fields.value, 2, []), LastOf(fields.value, 3, []),
                        AllOf(fields.value, 4)))
  }

  lemma ExistenceBack(e: Existence)
    ensures ReadExistence(ExistenceEncoding(e)) == Some(e)
  {
    hide Message, ReadMessage, LastOf, AllOf, Repeated;
    var path := Repeated(4, e.path);
    var three := [BytesField(3, e.leaf)] + path;
    var two := [BytesField(2, e.value)] + three;
    var fields := [BytesField(1, e.key)] + two;
    assert fields == [BytesField(1, e.key), BytesField(2, e.value), BytesField(3, e.leaf)] + path;
    MessageBack(fields);
    RepeatedBack(4, e.path);
    FirstField(1, e.key, two);
    FirstField(2, e.value, three);
    FirstField(3, e.leaf, path);
  }

  // What one field adds to the values read.
  lemma FirstField(num: nat, data: seq<Byte>, rest: seq<Field>)
    ensures forall other: nat, before: seq<Byte> ::
              LastOf([BytesField(num, data)] + rest, other, before) == LastOf(rest, other, if other == num then data else before)
    ensures forall other: nat :: other != num ==> AllOf([BytesField(num, data)] + rest, other) == AllOf(rest, other)
  {
    var fields := [BytesField(num, data)] + rest;
    assert fields[1..] == rest;
    forall other: nat | other != num ensures AllOf(fields, other) == AllOf(rest, other) {
      assert [] + AllOf(rest, other) == AllOf(rest, other);
    }
  }

  // The key that is missing, and the existence proofs of its neighbours.
  datatype NonExistence = NonExistence(key: seq<Byte>, left: seq<Byte>, right: seq<Byte>)

  function NonExistenceEncoding(n: NonExistence): (r: seq<Byte>)
  {
    Message(Optional(1, n.key) + Optional(2, n.left) + Optional(3, n.right))
  }

  function ReadNonExistence(b: seq<Byte>): (r: Option<NonExistence>)
  {
    var fields := ReadMessage(b);
    if fields.None? then None
    else Some(NonExistence(LastOf(fields.value, 1, []), LastOf(fields.value, 2, []), LastOf(fields.value, 3, [])))
  }

  lemma NonExistenceBack(n: NonExistence)
    ensures ReadNonExistence(NonExistenceEncoding(n)) == Some(n)
  {
    hide Message, ReadMessage, LastOf, Optional;
    var three := Optional(3, n.right) + [];
    var two := Optional(2, n.left) + three;
    var fields := Optional(1, n.key) + two;
    assert fields == Optional(1, n.key) + Optional(2, n.left) + Optional(3, n.right);
    MessageBack(fields);
    OptionalStep(1, n.key, two);
    OptionalStep(2, n.left, three);
    OptionalStep(3, n.right, []);
    NoMore();
  }

  lemma NoMore()
    ensures forall num: nat, before: seq<Byte> :: LastOf([], num, before) == before
  {
  }

  // What an optional field does to the values read before it.
  lemma OptionalStep(num: nat, data: seq<Byte>, rest: seq<Field>)
    ensures forall other: nat, before: seq<Byte> ::
              LastOf(Optional(num, data) + rest, other, before)
              == LastOf(rest, other, if other == num && |data| > 0 then data else before)
  {
    if |data| > 0 {
      assert (Optional(num, data) + rest)[1..] == rest;
    } else {
      assert Optional(num, data) + rest == rest;
    }
  }
}
