/**
 * The decoder. `DecodeAt` is the wire layout read back as a function of the
 * buffer and a start position; the methods below walk the buffer with a
 * shared mutable cursor (OffsetRef), as the source does, and are proved to
 * compute exactly what `DecodeAt` says.
 *
 * The width of the length prefix in front of strings, decimal texts and
 * object keys is a parameter: the decoder as written reads one byte
 * (OneByte); the encoder writes four (FourBytes).
 */
module Deserialize {
  import opened Wrappers
  import opened Bytes
  import opened TypeCodes
  import opened Values

  datatype LengthPrefix = OneByte | FourBytes

  function Width(w: LengthPrefix): nat
  {
    match w
    case OneByte => 1
    case FourBytes => 4
  }

  /** Why the decoder throws. */
  datatype DecodeError =
      /** "Unknown type code: 0x.." */
    | UnknownTypeCode(code: byte)
      /** Buffer's RangeError: a fixed-size read at `offset` runs past the end */
    | OutOfRange(offset: nat)

  /** Bytes left from position `p`; the measure every decoding step shrinks. */
  function Remaining(buf: seq<byte>, p: nat): nat
  {
    if p <= |buf| then |buf| - p else 0
  }

  /** Buffer.readUInt8. */
  function ReadU8(buf: seq<byte>, p: nat): Result<byte, DecodeError>
  {
    if p < |buf| then Ok(buf[p]) else Err(OutOfRange(p))
  }

  /** Buffer.readUInt32LE. */
  function ReadU32(buf: seq<byte>, p: nat): Result<nat, DecodeError>
  {
    if p + 4 <= |buf| then Ok(ReadU32LE(buf[p..p + 4])) else Err(OutOfRange(p))
  }

  /** Buffer.readBigInt64LE. */
  function ReadI64(buf: seq<byte>, p: nat): Result<Int64, DecodeError>
  {
    if p + 8 <= |buf| then Ok(ReadI64LE(buf[p..p + 8])) else Err(OutOfRange(p))
  }

  /** Buffer.readDoubleLE, with the double left as its eight bytes. */
  function ReadBits64(buf: seq<byte>, p: nat): Result<Bits64, DecodeError>
  {
    if p + 8 <= |buf| then Ok(buf[p..p + 8]) else Err(OutOfRange(p))
  }

  /** The length in front of a string, decimal text or key. */
  function ReadLength(buf: seq<byte>, p: nat, w: LengthPrefix): (r: Result<nat, DecodeError>)
    ensures r.Ok? ==> p + Width(w) <= |buf|
  {
    match w
    case OneByte => var b :- ReadU8(buf, p); Ok(b as nat)
    case FourBytes => ReadU32(buf, p)
  }

  /**
   * buf.toString(_, start, end) taken as bytes: an end past the buffer is
   * clamped to its length, and an empty or inverted range gives nothing.
   */
  function Slice(buf: seq<byte>, start: nat, end: nat): (r: seq<byte>)
    ensures start <= end <= |buf| ==> r == buf[start..end]
    ensures |r| <= Remaining(buf, start)
  {
    var stop := if end <= |buf| then end else |buf|;
    if start >= stop then [] else buf[start..stop]
  }

  /** Length, then that many bytes (clamped); the cursor moves past the claimed length. */
  function DecodeText(buf: seq<byte>, p: nat, w: LengthPrefix): (r: Result<(seq<byte>, nat), DecodeError>)
    ensures r.Ok? ==> p < |buf| && r.value.1 >= p + Width(w)
  {
    var len :- ReadLength(buf, p, w);
    var start := p + Width(w);
    Ok((Slice(buf, start, start + len), start + len))
  }

  /** The first value stored under `key`, as obj[key] reads it. */
  function Get<N>(entries: seq<Entry<N>>, key: seq<byte>): Option<Value<N>>
  {
    if entries == [] then None
    else if entries[0].key == key then Some(entries[0].value)
    else Get(entries[1..], key)
  }

  /**
   * obj[key] = value: a new key goes last, an existing key keeps its place
   * and takes the new value.
   */
  function Put<N>(entries: seq<Entry<N>>, key: seq<byte>, value: Value<N>): (r: seq<Entry<N>>)
    ensures KeyAbsent(entries, key) ==> r == entries + [Entry(key, value)]
    ensures !KeyAbsent(entries, key) ==> |r| == |entries|
    ensures !KeyAbsent(entries, key) ==>
              forall i | 0 <= i < |r| :: r[i].key == entries[i].key && (entries[i].key != key ==> r[i] == entries[i])
    ensures Get(r, key) == Some(value)
    ensures forall k | k != key :: Get(r, k) == Get(entries, k)
  {
    if entries == [] then [Entry(key, value)]
    else if entries[0].key == key then [Entry(key, value)] + entries[1..]
    else
      assert KeyAbsent(entries, key) ==> KeyAbsent(entries[1..], key);
      [entries[0]] + Put(entries[1..], key, value)
  }

  /**
   * deserializeData from position `pos`: the value there and the cursor
   * after it. The tag read comes first, so a read past the end is a range
   * error and an unregistered tag is an unknown type code.
   */
  function DecodeAt(buf: seq<byte>, pos: nat, w: LengthPrefix): (r: Result<(Output, nat), DecodeError>)
    ensures r.Ok? ==> pos < |buf| && r.value.1 > pos
    ensures pos >= |buf| ==> r == Err(OutOfRange(pos))
    ensures pos < |buf| && Lookup(buf[pos]).None? ==> r == Err(UnknownTypeCode(buf[pos]))
    decreases Remaining(buf, pos), 0
  {
    if pos >= |buf| then Err(OutOfRange(pos))
    else
      match Lookup(buf[pos])
      case None => Err(UnknownTypeCode(buf[pos]))
      case Some(t) => Handle(t, buf, pos + 1, w)
  }

  /** The handler table: the payload of a value of kind `t` starting at `p`. */
  function Handle(t: TypeCode, buf: seq<byte>, p: nat, w: LengthPrefix): (r: Result<(Output, nat), DecodeError>)
    ensures r.Ok? ==> r.value.1 >= p
    decreases Remaining(buf, p), 4
  {
    match t
    case STRING =>
      var text :- DecodeText(buf, p, w);
      Ok((Str(text.0), text.1))
    case NUMBER =>
      var bits :- ReadBits64(buf, p);
      Ok((Num(FromDouble(bits)), p + 8))
    case BOOLEAN =>
      var b :- ReadU8(buf, p);
      Ok((Bool(b != 0), p + 1))
    case NULL => Ok((Null, p))
    case UNDEFINED => Ok((Undefined, p))
    case ARRAY => DecodeArray(buf, p, w)
    case OBJECT => DecodeObject(buf, p, w)
    case FIXED_POINT =>
      var scale :- ReadU32(buf, p);
      var raw :- ReadI64(buf, p + 4);
      Ok((Num(FromFixed(raw, scale)), p + 12))
    case BIG_FLOAT_STRING =>
      var text :- DecodeText(buf, p, w);
      Ok((Num(FromString(text.0)), text.1))
  }

  /** deserializeArray: a u32 count, then that many values. */
  function DecodeArray(buf: seq<byte>, p: nat, w: LengthPrefix): (r: Result<(Output, nat), DecodeError>)
    ensures r.Ok? ==> r.value.0.Arr? && r.value.1 >= p + 4
    ensures r.Ok? ==> ReadU32(buf, p).Ok? && |r.value.0.items| == ReadU32(buf, p).value
    decreases Remaining(buf, p), 3
  {
    var len :- ReadU32(buf, p);
    var items :- DecodeItems(buf, p + 4, len, [], w);
    Ok((Arr(items.0), items.1))
  }

  /** `n` more values from `p`, appended to those already decoded. */
  function DecodeItems(buf: seq<byte>, p: nat, n: nat, acc: seq<Output>, w: LengthPrefix)
    : (r: Result<(seq<Output>, nat), DecodeError>)
    ensures r.Ok? ==> |r.value.0| == |acc| + n && r.value.1 >= p
    decreases Remaining(buf, p), 2
  {
    if n == 0 then Ok((acc, p))
    else
      var item :- DecodeAt(buf, p, w);
      DecodeItems(buf, item.1, n - 1, acc + [item.0], w)
  }

  /** deserializeObject: a u32 count, then that many key/value pairs. */
  function DecodeObject(buf: seq<byte>, p: nat, w: LengthPrefix): (r: Result<(Output, nat), DecodeError>)
    ensures r.Ok? ==> r.value.0.Obj? && r.value.1 >= p + 4
    ensures r.Ok? ==> ReadU32(buf, p).Ok? && |r.value.0.entries| <= ReadU32(buf, p).value
    decreases Remaining(buf, p), 3
  {
    var count :- ReadU32(buf, p);
    var entries :- DecodeEntries(buf, p + 4, count, [], w);
    Ok((Obj(entries.0), entries.1))
  }

  /** `n` more entries from `p`, each stored into the object built so far. */
  function DecodeEntries(buf: seq<byte>, p: nat, n: nat, acc: seq<Entry<DecodedNumber>>, w: LengthPrefix)
    : (r: Result<(seq<Entry<DecodedNumber>>, nat), DecodeError>)
    ensures r.Ok? ==> r.value.1 >= p && |r.value.0| <= |acc| + n
    decreases Remaining(buf, p), 2
  {
    if n == 0 then Ok((acc, p))
    else
      var next :- DecodeEntry(buf, p, acc, w);
      DecodeEntries(buf, next.1, n - 1, next.0, w)
  }

  /** One entry: the key's length and bytes, then its value, stored with obj[key] = value. */
  function DecodeEntry(buf: seq<byte>, p: nat, acc: seq<Entry<DecodedNumber>>, w: LengthPrefix)
    : (r: Result<(seq<Entry<DecodedNumber>>, nat), DecodeError>)
    ensures r.Ok? ==> p < |buf| && r.value.1 > p && |r.value.0| <= |acc| + 1
    decreases Remaining(buf, p), 1
  {
    var key :- DecodeText(buf, p, w);
    var value :- DecodeAt(buf, key.1, w);
    Ok((Put(acc, key.0, value.0), value.1))
  }

  /**
   * What is left for deserializeArray's loop: `n` more values from `p` after
   * those in `acc`. Named apart from DecodeItems so that the loop invariant
   * does not unfold the decoder.
   */
  ghost function ItemsLeft(buf: seq<byte>, p: nat, n: nat, acc: seq<Output>, w: LengthPrefix)
    : Result<(seq<Output>, nat), DecodeError>
  {
    DecodeItems(buf, p, n, acc, w)
  }

  /** What is left for deserializeObject's loop: `n` more entries from `p`, stored into `acc`. */
  ghost function EntriesLeft(buf: seq<byte>, p: nat, n: nat, acc: seq<Entry<DecodedNumber>>, w: LengthPrefix)
    : Result<(seq<Entry<DecodedNumber>>, nat), DecodeError>
  {
    DecodeEntries(buf, p, n, acc, w)
  }

  /** deserializeArray once its count is read: the loop's work, then the array. */
  lemma ArrayLoop(buf: seq<byte>, p: nat, w: LengthPrefix, len: nat)
    requires ReadU32(buf, p) == Ok(len)
    ensures DecodeArray(buf, p, w) == (var items :- ItemsLeft(buf, p + 4, len, [], w); Ok((Arr(items.0), items.1)))
  {
  }

  /** deserializeObject once its count is read: the loop's work, then the object. */
  lemma ObjectLoop(buf: seq<byte>, p: nat, w: LengthPrefix, count: nat)
    requires ReadU32(buf, p) == Ok(count)
    ensures DecodeObject(buf, p, w) == (var entries :- EntriesLeft(buf, p + 4, count, [], w); Ok((Obj(entries.0), entries.1)))
  {
  }

  /** One value decoded, then the rest: the step each iteration of deserializeArray's loop takes. */
  lemma ItemsStep(buf: seq<byte>, p: nat, n: nat, acc: seq<Output>, w: LengthPrefix, x: Output, q: nat)
    requires n > 0 && DecodeAt(buf, p, w) == Ok((x, q))
    ensures ItemsLeft(buf, p, n, acc, w) == ItemsLeft(buf, q, n - 1, acc + [x], w)
  {
  }

  /** One entry decoded, then the rest: the step each iteration of deserializeObject's loop takes. */
  lemma EntriesStep(buf: seq<byte>, p: nat, n: nat, acc: seq<Entry<DecodedNumber>>, w: LengthPrefix,
                    next: seq<Entry<DecodedNumber>>, q: nat)
    requires n > 0 && DecodeEntry(buf, p, acc, w) == Ok((next, q))
    ensures EntriesLeft(buf, p, n, acc, w) == EntriesLeft(buf, q, n - 1, next, w)
  {
  }

  /** deserializeData(buffer) with the default cursor at 0. */
  function Decode(buf: seq<byte>, w: LengthPrefix): Result<Output, DecodeError>
  {
    var decoded :- DecodeAt(buf, 0, w);
    Ok(decoded.0)
  }

  /** The shared cursor the source passes by reference. */
  class OffsetRef {
    var offset: nat

    constructor (offset: nat)
      ensures this.offset == offset
    {
      this.offset := offset;
    }
  }

  /** A step of the walk returned what `expected` says and left the cursor where it says. */
  predicate Decoded<T(==)>(r: Result<T, DecodeError>, expected: Result<(T, nat), DecodeError>, cursor: nat)
  {
    match expected
    case Ok(decoded) => r == Ok(decoded.0) && cursor == decoded.1
    case Err(e) => r == Err(e)
  }

  /** deserializeData: reads the tag at the cursor and runs its handler. */
  method DeserializeData(buffer: seq<byte>, ref: OffsetRef, w: LengthPrefix) returns (r: Result<Output, DecodeError>)
    modifies ref
    ensures Decoded(r, DecodeAt(buffer, old(ref.offset), w), ref.offset)
    decreases Remaining(buffer, ref.offset), 1
  {
    var code :- ReadU8(buffer, ref.offset);
    ref.offset := ref.offset + 1;
    var handler := Lookup(code);
    if handler.None? {
      return Err(UnknownTypeCode(code));
    }
    match handler.value {
      case STRING =>
        r := StringHandler(buffer, ref, w);
      case NUMBER =>
        r := NumberHandler(buffer, ref);
      case BOOLEAN =>
        r := BooleanHandler(buffer, ref);
      case NULL =>
        r := Ok(Null);
      case UNDEFINED =>
        r := Ok(Undefined);
      case ARRAY =>
        r := DeserializeArray(buffer, ref, w);
      case OBJECT =>
        r := DeserializeObject(buffer, ref, w);
      case FIXED_POINT =>
        r := FixedPointHandler(buffer, ref);
      case BIG_FLOAT_STRING =>
        r := BigFloatHandler(buffer, ref, w);
    }
  }

  /** Reads a length and the bytes it covers, moving the cursor past both. */
  method ReadText(buffer: seq<byte>, ref: OffsetRef, w: LengthPrefix) returns (r: Result<seq<byte>, DecodeError>)
    modifies ref
    ensures Decoded(r, DecodeText(buffer, old(ref.offset), w), ref.offset)
  {
    var len :- ReadLength(buffer, ref.offset, w);
    ref.offset := ref.offset + Width(w);
    var val := Slice(buffer, ref.offset, ref.offset + len);
    ref.offset := ref.offset + len;
    return Ok(val);
  }

  method StringHandler(buffer: seq<byte>, ref: OffsetRef, w: LengthPrefix) returns (r: Result<Output, DecodeError>)
    modifies ref
    ensures Decoded(r, Handle(STRING, buffer, old(ref.offset), w), ref.offset)
  {
    var val :- ReadText(buffer, ref, w);
    return Ok(Str(val));
  }

  method NumberHandler(buffer: seq<byte>, ref: OffsetRef) returns (r: Result<Output, DecodeError>)
    modifies ref
    ensures forall w :: Decoded(r, Handle(NUMBER, buffer, old(ref.offset), w), ref.offset)
  {
    var val :- ReadBits64(buffer, ref.offset);
    ref.offset := ref.offset + 8;
    return Ok(Num(FromDouble(val)));
  }

  method BooleanHandler(buffer: seq<byte>, ref: OffsetRef) returns (r: Result<Output, DecodeError>)
    modifies ref
    ensures forall w :: Decoded(r, Handle(BOOLEAN, buffer, old(ref.offset), w), ref.offset)
  {
    var b :- ReadU8(buffer, ref.offset);
    ref.offset := ref.offset + 1;
    return Ok(Bool(b != 0));
  }

  method FixedPointHandler(buffer: seq<byte>, ref: OffsetRef) returns (r: Result<Output, DecodeError>)
    modifies ref
    ensures forall w :: Decoded(r, Handle(FIXED_POINT, buffer, old(ref.offset), w), ref.offset)
  {
    var scale :- ReadU32(buffer, ref.offset);
    ref.offset := ref.offset + 4;
    var raw :- ReadI64(buffer, ref.offset);
    ref.offset := ref.offset + 8;
    return Ok(Num(FromFixed(raw, scale)));
  }

  method BigFloatHandler(buffer: seq<byte>, ref: OffsetRef, w: LengthPrefix) returns (r: Result<Output, DecodeError>)
    modifies ref
    ensures Decoded(r, Handle(BIG_FLOAT_STRING, buffer, old(ref.offset), w), ref.offset)
  {
    var str :- ReadText(buffer, ref, w);
    return Ok(Num(FromString(str)));
  }

  /** deserializeArray: the for loop pushes each decoded value in turn. */
  method DeserializeArray(buffer: seq<byte>, ref: OffsetRef, w: LengthPrefix) returns (r: Result<Output, DecodeError>)
    modifies ref
    ensures Decoded(r, DecodeArray(buffer, old(ref.offset), w), ref.offset)
    decreases Remaining(buffer, ref.offset), 0
  {
    var len :- ReadU32(buffer, ref.offset);
    ArrayLoop(buffer, ref.offset, w, len);
    ref.offset := ref.offset + 4;
    ghost var start := ref.offset;
    var result: seq<Output> := [];
    for i := 0 to len
      invariant ref.offset >= start
      invariant ItemsLeft(buffer, start, len, [], w) == ItemsLeft(buffer, ref.offset, len - i, result, w)
    {
      ghost var p := ref.offset;
      var item :- DeserializeData(buffer, ref, w);
      ItemsStep(buffer, p, len - i, result, w, item, ref.offset);
      result := result + [item];
    }
    return Ok(Arr(result));
  }

  /** deserializeObject: the for loop reads a key and stores the value decoded after it. */
  method DeserializeObject(buffer: seq<byte>, ref: OffsetRef, w: LengthPrefix) returns (r: Result<Output, DecodeError>)
    modifies ref
    ensures Decoded(r, DecodeObject(buffer, old(ref.offset), w), ref.offset)
    decreases Remaining(buffer, ref.offset), 0
  {
    var obj: seq<Entry<DecodedNumber>> := [];
    var count :- ReadU32(buffer, ref.offset);
    ObjectLoop(buffer, ref.offset, w, count);
    ref.offset := ref.offset + 4;
    ghost var start := ref.offset;
    for i := 0 to count
      invariant ref.offset >= start
      invariant EntriesLeft(buffer, start, count, [], w) == EntriesLeft(buffer, ref.offset, count - i, obj, w)
    {
      ghost var p, before := ref.offset, obj;
      obj :- DeserializeEntry(buffer, ref, obj, w);
      EntriesStep(buffer, p, count - i, before, w, obj, ref.offset);
    }
    return Ok(Obj(obj));
  }

  /** The loop body of deserializeObject. */
  method DeserializeEntry(buffer: seq<byte>, ref: OffsetRef, obj: seq<Entry<DecodedNumber>>, w: LengthPrefix)
    returns (r: Result<seq<Entry<DecodedNumber>>, DecodeError>)
    modifies ref
    ensures Decoded(r, DecodeEntry(buffer, old(ref.offset), obj, w), ref.offset)
    decreases Remaining(buffer, ref.offset), 0
  {
    var key :- ReadText(buffer, ref, w);
    var value :- DeserializeData(buffer, ref, w);
    return Ok(Put(obj, key, value));
  }

  /** deserializeData(buffer) with the default cursor { offset: 0 }. */
  method DeserializeDefault(buffer: seq<byte>, w: LengthPrefix) returns (r: Result<Output, DecodeError>)
    ensures r == Decode(buffer, w)
  {
    var ref := new OffsetRef(0);
    r := DeserializeData(buffer, ref, w);
  }
}
