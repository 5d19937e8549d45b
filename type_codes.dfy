/**
 * The registry of one-byte type codes. The numeric values live in a file
 * (typecodes.ts) that is not part of this model; the ones below are
 * placeholders, and every proof uses only that distinct kinds have distinct
 * codes (LookupCode).
 */
module TypeCodes {
  import opened Bytes
  import opened Wrappers

  datatype TypeCode =
    | STRING | NUMBER | BOOLEAN | NULL | ARRAY | OBJECT | FIXED_POINT | UNDEFINED | BIG_FLOAT_STRING

  function Code(t: TypeCode): byte
  {
    match t
    case STRING => 0x01
    case NUMBER => 0x02
    case BOOLEAN => 0x03
    case NULL => 0x04
    case ARRAY => 0x05
    case OBJECT => 0x06
    case FIXED_POINT => 0x07
    case UNDEFINED => 0x08
    case BIG_FLOAT_STRING => 0x09
  }

  /** The decoder's handler lookup: which kind, if any, a tag byte names. */
  function Lookup(b: byte): (r: Option<TypeCode>)
    ensures r.Some? ==> Code(r.value) == b
    ensures r.None? <==> forall t: TypeCode :: Code(t) != b
  {
    if b == Code(STRING) then Some(STRING)
    else if b == Code(NUMBER) then Some(NUMBER)
    else if b == Code(BOOLEAN) then Some(BOOLEAN)
    else if b == Code(NULL) then Some(NULL)
    else if b == Code(ARRAY) then Some(ARRAY)
    else if b == Code(OBJECT) then Some(OBJECT)
    else if b == Code(FIXED_POINT) then Some(FIXED_POINT)
    else if b == Code(UNDEFINED) then Some(UNDEFINED)
    else if b == Code(BIG_FLOAT_STRING) then Some(BIG_FLOAT_STRING)
    else None
  }

  /** No code is shared by two kinds, so every code the encoder writes is found again. */
  lemma LookupCode(t: TypeCode)
    ensures Lookup(Code(t)) == Some(t)
  {
  }
}
