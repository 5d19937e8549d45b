/**
 * The JSON-like trees the codec carries. The tree is generic in how a number
 * is represented: the encoder sees a JavaScript number (JsNumber), the decoder
 * produces a number in the form the wire layout carried it (DecodedNumber).
 * Strings and object keys are their UTF-8 bytes. An array hole is an
 * `Undefined` element, since indexing a hole yields undefined.
 */
module Values {
  import opened Bytes

  datatype Value<N> =
    | Null
    | Undefined
    | Bool(b: bool)
    | Num(n: N)
    | Str(s: seq<byte>)
    | Arr(items: seq<Value<N>>)
    | Obj(entries: seq<Entry<N>>)
      /** A value of a kind the encoder does not support (typeof gives `kind`). */
    | Other(kind: string)

  /** One own property of an object, in iteration order. */
  datatype Entry<N> = Entry(key: seq<byte>, value: Value<N>)

  /**
   * A JavaScript number as the encoder inspects it: `text` is value.toString(),
   * `bits` its IEEE 754 bytes as written by writeDoubleLE, and `scaled` the
   * abstract result of BigInt(Math.round(value * scale)).
   */
  datatype JsNumber = JsNumber(text: string, bits: Bits64, scaled: Int64)

  /** What the decoder reconstructs for each of the three number layouts. */
  datatype DecodedNumber =
      /** readDoubleLE of these bytes */
    | FromDouble(bits: Bits64)
      /** Number(raw) / scale */
    | FromFixed(raw: Int64, scale: nat)
      /** parseFloat of these bytes read as UTF-8 */
    | FromString(text: seq<byte>)

  type Input = Value<JsNumber>
  type Output = Value<DecodedNumber>

  /** True when no two entries share a key. */
  predicate DistinctKeys<N>(entries: seq<Entry<N>>)
  {
    forall i, j | 0 <= i < j < |entries| :: entries[i].key != entries[j].key
  }

  /** True when no entry has key `k`. */
  predicate KeyAbsent<N>(entries: seq<Entry<N>>, k: seq<byte>)
  {
    forall i | 0 <= i < |entries| :: entries[i].key != k
  }
}
