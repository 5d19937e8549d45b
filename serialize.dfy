/**
 * The encoder. `Encode` is the wire layout as a function of the value tree;
 * the methods below walk the tree and append to a BufferWriter step by step,
 * as the source does, and are proved to write exactly `Encode`'s bytes.
 */
module Serialize {
  import opened Wrappers
  import opened Bytes
  import opened TypeCodes
  import opened Values
  import opened Buffers

  datatype ScaleInfo = ScaleInfo(scale: nat, decimalPlaces: nat)

  /** Why the encoder throws. */
  datatype EncodeError =
      /** "Unsupported data type: " + kind */
    | UnsupportedType(kind: string)
      /** writeUInt32LE refused a length or count above 0xffffffff */
    | ValueOutOfRange(value: nat)

  function Pow10(n: nat): (r: nat)
    ensures r >= 1
  {
    if n == 0 then 1 else 10 * Pow10(n - 1)
  }

  /** String.prototype.indexOf for one character: the first position of `c`, or -1. */
  function IndexOf(s: string, c: char): (i: int)
    ensures -1 <= i < |s|
    ensures i == -1 <==> c !in s
    ensures 0 <= i ==> s[i] == c && c !in s[..i]
  {
    if s == [] then -1
    else if s[0] == c then 0
    else
      var j := IndexOf(s[1..], c);
      assert s == [s[0]] + s[1..];
      if j == -1 then -1
      else
        assert s[..j + 1] == [s[0]] + s[1..][..j];
        j + 1
  }

  /**
   * getFloatScaleInfo: a number whose decimal form has a fractional part and
   * no exponent gets scale 10^decimalPlaces, decimalPlaces being the number
   * of characters after the first '.'.
   */
  function GetFloatScaleInfo(text: string): (r: Option<ScaleInfo>)
    ensures r.None? <==> '.' !in text || 'e' in text || IndexOf(text, '.') == |text| - 1
    ensures r.Some? ==>
              r.value.decimalPlaces == |text| - 1 - IndexOf(text, '.') >= 1
              && r.value.scale == Pow10(r.value.decimalPlaces)
  {
    var dot := IndexOf(text, '.');
    if dot == -1 then None
    else if IndexOf(text, 'e') != -1 then None
    else
      var decimalPlaces := |text[dot + 1..]|;
      if decimalPlaces == 0 then None
      else Some(ScaleInfo(Pow10(decimalPlaces), decimalPlaces))
  }

  lemma {:induction false} Pow10Monotone(m: nat, n: nat)
    requires m <= n
    ensures Pow10(m) <= Pow10(n)
  {
    if m < n {
      Pow10Monotone(m, n - 1);
    }
  }

  /** A scale fits the u32 field exactly when there are at most nine decimal places. */
  lemma ScaleFitsIff(d: nat)
    ensures Pow10(d) <= MAX_U32 <==> d <= 9
  {
    assert Pow10(9) == 1_000_000_000;
    if d <= 9 {
      Pow10Monotone(d, 9);
    } else {
      Pow10Monotone(10, d);
    }
  }

  /** The three ways a number is laid out on the wire. */
  datatype NumberLayout = DoubleLayout | FixedLayout(scale: nat) | BigFloatLayout

  /** The branch of _serializePrimitive's number case a number takes. */
  function Layout(n: JsNumber): NumberLayout
  {
    match GetFloatScaleInfo(n.text)
    case None => DoubleLayout
    case Some(info) => if info.scale > MAX_U32 then BigFloatLayout else FixedLayout(info.scale)
  }

  /** Fixed point is chosen exactly for a plain decimal with one to nine fractional digits. */
  lemma FixedLayoutIff(n: JsNumber)
    ensures Layout(n).FixedLayout? <==>
              '.' in n.text && 'e' !in n.text && 1 <= |n.text| - 1 - IndexOf(n.text, '.') <= 9
    ensures Layout(n).FixedLayout? ==> Layout(n).scale == Pow10(|n.text| - 1 - IndexOf(n.text, '.'))
    ensures Layout(n).BigFloatLayout? <==>
              '.' in n.text && 'e' !in n.text && |n.text| - 1 - IndexOf(n.text, '.') >= 10
  {
    var info := GetFloatScaleInfo(n.text);
    if info.Some? {
      ScaleFitsIff(info.value.decimalPlaces);
    }
  }

  /** A tag byte, a u32 length and the bytes, or the error writeUInt32LE throws. */
  function LengthPrefixed(tag: TypeCode, bytes: seq<byte>): Result<seq<byte>, EncodeError>
  {
    if |bytes| > MAX_U32 then Err(ValueOutOfRange(|bytes|))
    else Ok([Code(tag)] + U32LE(|bytes|) + bytes)
  }

  /** The number case: fixed point when the scale fits a u32, else decimal text, else the double. */
  function EncodeNumber(n: JsNumber): Result<seq<byte>, EncodeError>
  {
    match Layout(n)
    case BigFloatLayout => LengthPrefixed(BIG_FLOAT_STRING, Utf8(n.text))
    case FixedLayout(scale) => Ok([Code(FIXED_POINT)] + U32LE(scale) + I64LE(n.scaled))
    case DoubleLayout => Ok([Code(NUMBER)] + n.bits)
  }

  /** _serializePrimitive as a function: the bytes one non-container node becomes. */
  function EncodePrimitive(v: Input): Result<seq<byte>, EncodeError>
  {
    match v
    case Null => Ok([Code(NULL)])
    case Undefined => Ok([Code(UNDEFINED)])
    case Str(s) => LengthPrefixed(STRING, s)
    case Num(n) => EncodeNumber(n)
    case Bool(b) => Ok([Code(BOOLEAN), if b then 1 else 0])
    case Arr(_) => Err(UnsupportedType("object"))
    case Obj(_) => Err(UnsupportedType("object"))
    case Other(kind) => Err(UnsupportedType(kind))
  }

  /** The wire layout of a whole tree, or the first error the encoder throws. */
  function Encode(v: Input): Result<seq<byte>, EncodeError>
    decreases v
  {
    match v
    case Arr(items) =>
      if |items| > MAX_U32 then Err(ValueOutOfRange(|items|))
      else
        var body :- EncodeItems(items);
        Ok([Code(ARRAY)] + U32LE(|items|) + body)
    case Obj(entries) =>
      if |entries| > MAX_U32 then Err(ValueOutOfRange(|entries|))
      else
        var body :- EncodeEntries(entries);
        Ok([Code(OBJECT)] + U32LE(|entries|) + body)
    case _ => EncodePrimitive(v)
  }

  /** Array elements in index order. */
  function EncodeItems(items: seq<Input>): Result<seq<byte>, EncodeError>
    decreases items
  {
    if items == [] then Ok([])
    else
      var head :- Encode(items[0]);
      var tail :- EncodeItems(items[1..]);
      Ok(head + tail)
  }

  /** Object entries in order. */
  function EncodeEntries(entries: seq<Entry<JsNumber>>): Result<seq<byte>, EncodeError>
    decreases entries
  {
    if entries == [] then Ok([])
    else
      var head :- EncodeEntry(entries[0]);
      var tail :- EncodeEntries(entries[1..]);
      Ok(head + tail)
  }

  /** One entry: u32 key byte length, the key bytes, then the value. */
  function EncodeEntry(entry: Entry<JsNumber>): Result<seq<byte>, EncodeError>
    decreases entry
  {
    if |entry.key| > MAX_U32 then Err(ValueOutOfRange(|entry.key|))
    else
      var value :- Encode(entry.value);
      Ok(U32LE(|entry.key|) + entry.key + value)
  }

  /** Independent of the encoder: a tree it accepts has only supported kinds and u32-sized lengths. */
  predicate Encodable(v: Input)
    decreases v
  {
    match v
    case Null => true
    case Undefined => true
    case Bool(_) => true
    case Num(n) => Layout(n).BigFloatLayout? ==> |Utf8(n.text)| <= MAX_U32
    case Str(s) => |s| <= MAX_U32
    case Arr(items) => |items| <= MAX_U32 && forall i | 0 <= i < |items| :: Encodable(items[i])
    case Obj(entries) =>
      |entries| <= MAX_U32
      && forall i | 0 <= i < |entries| :: |entries[i].key| <= MAX_U32 && Encodable(entries[i].value)
    case Other(_) => false
  }

  /** A value is accepted exactly when it is Encodable; every accepted value starts with its tag. */
  lemma {:induction false} EncodeOkIff(v: Input)
    ensures Encode(v).Ok? <==> Encodable(v)
    ensures Encode(v).Ok? ==> |Encode(v).value| >= 1
    ensures v.Other? ==> Encode(v) == Err(UnsupportedType(v.kind))
    decreases v
  {
    match v
    case Arr(items) =>
      if |items| <= MAX_U32 {
        EncodeItemsOkIff(items);
      }
    case Obj(entries) =>
      if |entries| <= MAX_U32 {
        EncodeEntriesOkIff(entries);
      }
    case _ =>
  }

  lemma {:induction false} EncodeItemsOkIff(items: seq<Input>)
    ensures EncodeItems(items).Ok? <==> forall i | 0 <= i < |items| :: Encodable(items[i])
    decreases items
  {
    if items != [] {
      EncodeOkIff(items[0]);
      EncodeItemsOkIff(items[1..]);
      assert forall i | 1 <= i < |items| :: items[i] == items[1..][i - 1];
    }
  }

  lemma {:induction false} EncodeEntriesOkIff(entries: seq<Entry<JsNumber>>)
    ensures EncodeEntries(entries).Ok? <==>
              forall i | 0 <= i < |entries| :: |entries[i].key| <= MAX_U32 && Encodable(entries[i].value)
    decreases entries
  {
    if entries != [] {
      EncodeOkIff(entries[0].value);
      EncodeEntriesOkIff(entries[1..]);
      assert EncodeEntry(entries[0]).Ok? <==> |entries[0].key| <= MAX_U32 && Encodable(entries[0].value);
      assert forall i | 1 <= i < |entries| :: entries[i] == entries[1..][i - 1];
    }
  }

  /** `acc` in front of the bytes of a successful encoding; errors pass through. */
  function Prepend(acc: seq<byte>, r: Result<seq<byte>, EncodeError>): Result<seq<byte>, EncodeError>
  {
    match r
    case Ok(b) => Ok(acc + b)
    case Err(e) => Err(e)
  }

  lemma PrependNothing(r: Result<seq<byte>, EncodeError>)
    ensures Prepend([], r) == r
  {
    if r.Ok? {
      assert [] + r.value == r.value;
    }
  }

  /** The compact number layout: FIXED_POINT tag, u32 scale, i64 scaled value. */
  method WriteFixedPoint(buffer: BufferWriter, scale: nat, scaled: Int64)
    requires buffer.Valid() && scale <= MAX_U32
    modifies buffer, buffer.current
    ensures buffer.Valid()
    ensures buffer.current == old(buffer.current) || fresh(buffer.current)
    ensures buffer.Contents == old(buffer.Contents) + ([Code(FIXED_POINT)] + U32LE(scale) + I64LE(scaled))
  {
    buffer.WriteUInt8(Code(FIXED_POINT));
    buffer.WriteUInt32LE(scale);
    buffer.WriteBigInt64LE(scaled);
  }

  /**
   * The u32 length-then-bytes pair the encoder writes for strings and
   * object keys.
   */
  method WriteSized(buffer: BufferWriter, bytes: seq<byte>)
    requires buffer.Valid() && |bytes| <= MAX_U32
    modifies buffer, buffer.current
    ensures buffer.Valid()
    ensures buffer.current == old(buffer.current) || fresh(buffer.current)
    ensures buffer.Contents == old(buffer.Contents) + (U32LE(|bytes|) + bytes)
  {
    buffer.WriteUInt32LE(|bytes|);
    buffer.WriteBuffer(bytes);
  }

  /** Buffer.byteLength of the text as a u32, then writeString of the text. */
  method WriteText(buffer: BufferWriter, text: string)
    requires buffer.Valid() && |Utf8(text)| <= MAX_U32
    modifies buffer, buffer.current
    ensures buffer.Valid()
    ensures buffer.current == old(buffer.current) || fresh(buffer.current)
    ensures buffer.Contents == old(buffer.Contents) + (U32LE(|Utf8(text)|) + Utf8(text))
  {
    buffer.WriteUInt32LE(|Utf8(text)|);
    buffer.WriteString(text);
  }

  /** The fallback for a scale above u32: BIG_FLOAT_STRING tag, u32 byte length, the decimal text. */
  method WriteBigFloat(buffer: BufferWriter, text: string) returns (res: Outcome<EncodeError>)
    requires buffer.Valid()
    modifies buffer, buffer.current
    ensures buffer.Valid()
    ensures buffer.current == old(buffer.current) || fresh(buffer.current)
    ensures Appended(res, LengthPrefixed(BIG_FLOAT_STRING, Utf8(text)), old(buffer.Contents), buffer.Contents)
  {
    var str := Utf8(text);
    buffer.WriteUInt8(Code(BIG_FLOAT_STRING));
    if |str| > MAX_U32 {
      return Fail(ValueOutOfRange(|str|));
    }
    WriteText(buffer, text);
    return Pass;
  }

  /** The number case of _serializePrimitive: double, fixed point or decimal text. */
  method SerializeNumber(n: JsNumber, buffer: BufferWriter) returns (res: Outcome<EncodeError>)
    requires buffer.Valid()
    modifies buffer, buffer.current
    ensures buffer.Valid()
    ensures buffer.current == old(buffer.current) || fresh(buffer.current)
    ensures Appended(res, EncodeNumber(n), old(buffer.Contents), buffer.Contents)
  {
    var scaleInfo := GetFloatScaleInfo(n.text);
    if scaleInfo.Some? {
      var scale := scaleInfo.value.scale;
      if scale > MAX_U32 {
        // Too big for the u32 scale field: fall back to the decimal text.
        res := WriteBigFloat(buffer, n.text);
        return;
      }
      WriteFixedPoint(buffer, scale, n.scaled);
    } else {
      buffer.WriteUInt8(Code(NUMBER));
      buffer.WriteDoubleLE(n.bits);
    }
    return Pass;
  }

  /**
   * A step of the walk did what `expected` says: on success it appended
   * exactly those bytes, on failure it reports that error.
   */
  predicate Appended(res: Outcome<EncodeError>, expected: Result<seq<byte>, EncodeError>, before: seq<byte>, after: seq<byte>)
  {
    match expected
    case Ok(bytes) => res.Pass? && after == before + bytes
    case Err(e) => res == Fail(e)
  }

  lemma PrependPrepend(a: seq<byte>, b: seq<byte>, r: Result<seq<byte>, EncodeError>)
    ensures Prepend(a, Prepend(b, r)) == Prepend(a + b, r)
  {
    if r.Ok? {
      assert a + (b + r.value) == (a + b) + r.value;
    }
  }

  /**
   * _serializePrimitive: appends the encoding of a non-container node. After
   * an error the writer's contents are left unspecified: the source throws
   * and serializeData drops the writer.
   */
  method SerializePrimitive(data: Input, buffer: BufferWriter) returns (res: Outcome<EncodeError>)
    requires buffer.Valid()
    modifies buffer, buffer.current
    ensures buffer.Valid()
    ensures buffer.current == old(buffer.current) || fresh(buffer.current)
    ensures Appended(res, EncodePrimitive(data), old(buffer.Contents), buffer.Contents)
  {
    match data {
    case Null =>
      buffer.WriteUInt8(Code(NULL));
    case Undefined =>
      buffer.WriteUInt8(Code(UNDEFINED));
    case Str(s) =>
      buffer.WriteUInt8(Code(STRING));
      if |s| > MAX_U32 {
        return Fail(ValueOutOfRange(|s|));
      }
      WriteSized(buffer, s);
    case Num(n) =>
      res := SerializeNumber(n, buffer);
      return;
    case Bool(b) =>
      buffer.WriteUInt8(Code(BOOLEAN));
      buffer.WriteUInt8(if b then 1 else 0);
    case Arr(_) =>
      return Fail(UnsupportedType("object"));
    case Obj(_) =>
      return Fail(UnsupportedType("object"));
    case Other(kind) =>
      return Fail(UnsupportedType(kind));
    }
    return Pass;
  }

  /** _serializeData: appends the encoding of a whole tree, recursing into containers. */
  method SerializeInto(data: Input, buffer: BufferWriter) returns (res: Outcome<EncodeError>)
    requires buffer.Valid()
    modifies buffer, buffer.current
    ensures buffer.Valid()
    ensures buffer.current == old(buffer.current) || fresh(buffer.current)
    ensures Appended(res, Encode(data), old(buffer.Contents), buffer.Contents)
    decreases data, 2
  {
    match data
    case Arr(items) =>
      res := SerializeArray(items, buffer);
    case Obj(entries) =>
      res := SerializeObject(entries, buffer);
    case _ =>
      res := SerializePrimitive(data, buffer);
  }

  /** The array branch of _serializeData: tag, u32 length, then every element in index order. */
  method SerializeArray(items: seq<Input>, buffer: BufferWriter) returns (res: Outcome<EncodeError>)
    requires buffer.Valid()
    modifies buffer, buffer.current
    ensures buffer.Valid()
    ensures buffer.current == old(buffer.current) || fresh(buffer.current)
    ensures Appended(res, Encode(Arr(items)), old(buffer.Contents), buffer.Contents)
    decreases items, 1
  {
    buffer.WriteUInt8(Code(ARRAY));
    if |items| > MAX_U32 {
      return Fail(ValueOutOfRange(|items|));
    }
    buffer.WriteUInt32LE(|items|);
    res := SerializeItems(items, buffer);
  }

  /** The for loop over the array's indices. */
  method SerializeItems(items: seq<Input>, buffer: BufferWriter) returns (res: Outcome<EncodeError>)
    requires buffer.Valid()
    modifies buffer, buffer.current
    ensures buffer.Valid()
    ensures buffer.current == old(buffer.current) || fresh(buffer.current)
    ensures Appended(res, EncodeItems(items), old(buffer.Contents), buffer.Contents)
    decreases items, 0
  {
    ghost var written: seq<byte> := [];
    assert items[0..] == items;
    PrependNothing(EncodeItems(items));
    for i := 0 to |items|
      invariant buffer.Valid()
      invariant buffer.current == old(buffer.current) || fresh(buffer.current)
      invariant buffer.Contents == old(buffer.Contents) + written
      invariant EncodeItems(items) == Prepend(written, EncodeItems(items[i..]))
    {
      assert items[i..][0] == items[i] && items[i..][1..] == items[i + 1..];
      res := SerializeInto(items[i], buffer);
      if res.Fail? {
        return;
      }
      PrependPrepend(written, Encode(items[i]).value, EncodeItems(items[i + 1..]));
      written := written + Encode(items[i]).value;
    }
    assert items[|items|..] == [];
    return Pass;
  }

  /** The object branch of _serializeData: tag, u32 entry count, then the entries. */
  method SerializeObject(entries: seq<Entry<JsNumber>>, buffer: BufferWriter) returns (res: Outcome<EncodeError>)
    requires buffer.Valid()
    modifies buffer, buffer.current
    ensures buffer.Valid()
    ensures buffer.current == old(buffer.current) || fresh(buffer.current)
    ensures Appended(res, Encode(Obj(entries)), old(buffer.Contents), buffer.Contents)
    decreases entries, 1
  {
    buffer.WriteUInt8(Code(OBJECT));
    if |entries| > MAX_U32 {
      return Fail(ValueOutOfRange(|entries|));
    }
    buffer.WriteUInt32LE(|entries|);
    res := SerializeEntries(entries, buffer);
  }

  /** The for loop over Object.entries. */
  method SerializeEntries(entries: seq<Entry<JsNumber>>, buffer: BufferWriter) returns (res: Outcome<EncodeError>)
    requires buffer.Valid()
    modifies buffer, buffer.current
    ensures buffer.Valid()
    ensures buffer.current == old(buffer.current) || fresh(buffer.current)
    ensures Appended(res, EncodeEntries(entries), old(buffer.Contents), buffer.Contents)
    decreases entries, 0
  {
    ghost var written: seq<byte> := [];
    assert entries[0..] == entries;
    PrependNothing(EncodeEntries(entries));
    for i := 0 to |entries|
      invariant buffer.Valid()
      invariant buffer.current == old(buffer.current) || fresh(buffer.current)
      invariant buffer.Contents == old(buffer.Contents) + written
      invariant EncodeEntries(entries) == Prepend(written, EncodeEntries(entries[i..]))
    {
      assert entries[i..][0] == entries[i] && entries[i..][1..] == entries[i + 1..];
      res := SerializeEntry(entries[i], buffer);
      if res.Fail? {
        return;
      }
      PrependPrepend(written, EncodeEntry(entries[i]).value, EncodeEntries(entries[i + 1..]));
      written := written + EncodeEntry(entries[i]).value;
    }
    assert entries[|entries|..] == [];
    return Pass;
  }

  /** The loop body: the key's byte length, the key, then the value. */
  method SerializeEntry(entry: Entry<JsNumber>, buffer: BufferWriter) returns (res: Outcome<EncodeError>)
    requires buffer.Valid()
    modifies buffer, buffer.current
    ensures buffer.Valid()
    ensures buffer.current == old(buffer.current) || fresh(buffer.current)
    ensures Appended(res, EncodeEntry(entry), old(buffer.Contents), buffer.Contents)
    decreases entry, 0
  {
    var keyBuf := entry.key;
    if |keyBuf| > MAX_U32 {
      return Fail(ValueOutOfRange(|keyBuf|));
    }
    WriteSized(buffer, keyBuf);
    res := SerializeInto(entry.value, buffer);
  }

  /** serializeData: a fresh writer, the walk, then the finished bytes. */
  method SerializeData(data: Input) returns (r: Result<seq<byte>, EncodeError>)
    ensures r == Encode(data)
  {
    var buffer := new BufferWriter();
    var res := SerializeInto(data, buffer);
    if res.Fail? {
      return Err(res.error);
    }
    assert buffer.Contents == Encode(data).value;
    var bytes := buffer.ToBuffer();
    return Ok(bytes);
  }
}
