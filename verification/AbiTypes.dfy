// Schemas and values of the Solidity ABI codec.
module AbiTypes {
  import opened Words
  import opened Bytes
  import opened Wrappers

  const WORD: nat := 32
  const MAX_DEPTH: nat := 256

  type Uint32 = x: int | 0 <= x < 0x1_0000_0000
  type Bytes32 = s: seq<Byte> | |s| == 32 witness seq(32, i => 0)
  type Limbs4 = s: seq<Word> | |s| == 4 witness [0, 0, 0, 0]

  datatype Type =
    | TUint8 | TUint32 | TUint64 | TUint256 | TBytes32 | TBytes | TString | TBool | TAddress | TStruct | TArray
    | TUnknown(code: int)

  // A field of a tuple; a struct has a schema and an array has an element, but either may be missing.
  datatype Field = Field(typ: Type, sub: Option<Schema>, elem: Option<Field>)

  datatype Schema = Schema(fields: seq<Field>)

  // The dynamic values the codec takes and returns. Addresses are blobs of 20 bytes.
  datatype Value =
    | U8(n8: Byte)
    | U32(n32: Uint32)
    | U64(n64: Word)
    | U256(limbs: Limbs4)
    | NilUint256
    | Fixed32(fixed: Bytes32)
    | Blob(bytes: seq<Byte>)
    | Text(text: seq<Byte>)
    | Flag(flag: bool)
    | Items(items: seq<Value>)
    | Foreign

  datatype AbiError = UnsupportedType | InvalidSchema | InvalidValue | InvalidData | DepthLimit

  type Result<T> = Outcome<T, AbiError>

  // Whether a field is encoded in the tail, with an offset in the head.
  predicate IsDynamic(f: Field)
  {
    match f.typ
    case TBytes => true
    case TString => true
    case TArray => true
    case TStruct => f.sub.None? || AnyDynamic(f.sub.value.fields)
    case _ => false
  }

  predicate AnyDynamic(fields: seq<Field>)
  {
    |fields| > 0 && (IsDynamic(fields[0]) || AnyDynamic(fields[1..]))
  }

  // The bytes a field takes in the head. The schema error is never returned: a struct without
  // schema counts as dynamic.
  function StaticHeadSize(f: Field): (r: Result<nat>)
    ensures r.Ok? && r.value % 32 == 0
  {
    if IsDynamic(f) then Ok(WORD)
    else if f.typ.TStruct? then
      if f.sub.None? then Err(InvalidSchema) else HeadLength(f.sub.value.fields)
    else Ok(WORD)
  }

  function HeadLength(fields: seq<Field>): (r: Result<nat>)
    ensures r.Ok? && r.value % 32 == 0
  {
    if |fields| == 0 then Ok(0)
    else
      var first := StaticHeadSize(fields[0]);
      var rest := HeadLength(fields[1..]);
      Ok(first.value + rest.value)
  }

  // No struct without fields anywhere in the schema.
  predicate NoEmptyStruct(f: Field)
  {
    && (f.sub.Some? ==> |f.sub.value.fields| > 0 && NoEmptyStructs(f.sub.value.fields))
    && (f.elem.Some? ==> NoEmptyStruct(f.elem.value))
  }

  predicate NoEmptyStructs(fields: seq<Field>)
  {
    |fields| == 0 || (NoEmptyStruct(fields[0]) && NoEmptyStructs(fields[1..]))
  }

  lemma {:induction false} StaticSizePositive(f: Field)
    requires NoEmptyStruct(f)
    ensures StaticHeadSize(f).value >= WORD
  {
    if !IsDynamic(f) && f.typ.TStruct? {
      StaticSizePositive(f.sub.value.fields[0]);
    }
  }
}
