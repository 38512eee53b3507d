/** The events a reader sends to a handler, and the values a document holds. */
module Json {
  import opened Bytes

  datatype Event =
    | OnNull
    | OnBool(b: bool)
    | OnInt(i: int)
    | OnUint(i: int)
    | OnInt64(i: int)
    | OnUint64(i: int)
    | OnDouble(d: real)
    | OnString(s: Text)
    | OnStartObject
    | OnKey(s: Text)
    | OnEndObject(count: nat)
    | OnStartArray
    | OnEndArray(count: nat)

  datatype Value =
    | Null
    | Bool(b: bool)
    | Num(n: int)
    | Double(d: real)
    | Str(s: Text)
    | Arr(elems: seq<Value>)
    | Obj(members: seq<Member>)

  datatype Member = Member(name: Text, value: Value)

  const NULL_WORD: Text := [LOWER_N, LOWER_U, LOWER_L, LOWER_L]
  const TRUE_WORD: Text := [LOWER_T, LOWER_R, LOWER_U, LOWER_E]
  const FALSE_WORD: Text := [LOWER_F, LOWER_A, LOWER_L, LOWER_S, LOWER_E]

  const INT32_MIN := -0x8000_0000
  const INT32_MAX := 0x7FFF_FFFF
  const UINT32_MAX := 0xFFFF_FFFF
  const INT64_MIN := -0x8000_0000_0000_0000
  const INT64_MAX := 0x7FFF_FFFF_FFFF_FFFF
  const UINT64_MAX := 0xFFFF_FFFF_FFFF_FFFF
}
