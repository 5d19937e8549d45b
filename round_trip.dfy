/**
 * What the decoder gives back for what the encoder wrote. `Meaning` is the
 * reference: each number becomes the form its layout puts on the wire, and
 * everything else is carried over unchanged. With a four-byte length prefix
 * every encodable tree with distinct keys comes back as its meaning; the
 * decoder as written (one-byte prefix) does so only for trees without
 * strings, decimal-text numbers or non-empty objects.
 */
module RoundTrip {
  import opened Wrappers
  import opened Bytes
  import opened TypeCodes
  import opened Values
  import opened Serialize
  import opened Deserialize

  /** The decoded form of a number: the layout's payload, never a float computation. */
  function MeaningNumber(n: JsNumber): DecodedNumber
  {
    match Layout(n)
    case DoubleLayout => FromDouble(n.bits)
    case FixedLayout(scale) => FromFixed(n.scaled, scale)
    case BigFloatLayout => FromString(Utf8(n.text))
  }

  function Meaning(v: Input): Output
    decreases v
  {
    match v
    case Null => Null
    case Undefined => Undefined
    case Bool(b) => Bool(b)
    case Num(n) => Num(MeaningNumber(n))
    case Str(s) => Str(s)
    case Arr(items) => Arr(MeaningItems(items))
    case Obj(entries) => Obj(MeaningEntries(entries))
    case Other(kind) => Other(kind)
  }

  function MeaningItems(items: seq<Input>): (r: seq<Output>)
    ensures |r| == |items|
    decreases items
  {
    if items == [] then [] else [Meaning(items[0])] + MeaningItems(items[1..])
  }

  function MeaningEntries(entries: seq<Entry<JsNumber>>): (r: seq<Entry<DecodedNumber>>)
    ensures |r| == |entries|
    ensures forall i | 0 <= i < |entries| :: r[i].key == entries[i].key
    decreases entries
  {
    if entries == [] then []
    else [Entry(entries[0].key, Meaning(entries[0].value))] + MeaningEntries(entries[1..])
  }

  /** Every object in the tree has distinct keys, as Object.entries guarantees. */
  predicate KeysDistinct(v: Input)
    decreases v
  {
    match v
    case Arr(items) => forall i | 0 <= i < |items| :: KeysDistinct(items[i])
    case Obj(entries) =>
      DistinctKeys(entries) && forall i | 0 <= i < |entries| :: KeysDistinct(entries[i].value)
    case _ => true
  }

  /** No string, no decimal-text number and no non-empty object anywhere in the tree. */
  predicate NoLengthPrefixes(v: Input)
    decreases v
  {
    match v
    case Str(_) => false
    case Num(n) => !Layout(n).BigFloatLayout?
    case Arr(items) => forall i | 0 <= i < |items| :: NoLengthPrefixes(items[i])
    case Obj(entries) => entries == []
    case _ => true
  }

  /** The trees a decoder reading `w`-byte length prefixes gets back. */
  predicate Readable(v: Input, w: LengthPrefix)
  {
    Encodable(v) && KeysDistinct(v) && (w == OneByte ==> NoLengthPrefixes(v))
  }

  // Reading back what the encoder put at a position inside a larger buffer.

  /** `bytes` sits in `buf` starting at `pos`. */
  predicate At(buf: seq<byte>, pos: nat, bytes: seq<byte>)
  {
    pos + |bytes| <= |buf| && buf[pos..pos + |bytes|] == bytes
  }

  lemma AtSplit(buf: seq<byte>, pos: nat, a: seq<byte>, b: seq<byte>)
    requires At(buf, pos, a + b)
    ensures At(buf, pos, a) && At(buf, pos + |a|, b)
  {
    assert buf[pos..pos + |a|] == buf[pos..pos + |a + b|][..|a|];
    assert buf[pos + |a|..pos + |a| + |b|] == buf[pos..pos + |a + b|][|a|..];
  }

  /** Concatenation is associative and [] is its unit; kept generic so no element equality is involved. */
  lemma Assoc<T>(a: seq<T>, b: seq<T>, c: seq<T>)
    ensures a + b + c == a + (b + c)
    ensures [] + c == c && c + [] == c
  {
  }

  lemma AtWhole(bytes: seq<byte>, rest: seq<byte>)
    ensures At(bytes + rest, 0, bytes)
  {
    assert (bytes + rest)[..|bytes|] == bytes;
  }

  lemma ByteAt(buf: seq<byte>, pos: nat, x: byte)
    requires At(buf, pos, [x])
    ensures ReadU8(buf, pos) == Ok(x)
  {
    assert buf[pos] == buf[pos..pos + 1][0];
  }

  lemma U32At(buf: seq<byte>, p: nat, n: nat)
    requires n <= MAX_U32 && At(buf, p, U32LE(n))
    ensures ReadU32(buf, p) == Ok(n)
  {
    U32RoundTrip(n);
  }

  lemma I64At(buf: seq<byte>, p: nat, x: Int64)
    requires At(buf, p, I64LE(x))
    ensures ReadI64(buf, p) == Ok(x)
  {
    I64RoundTrip(x);
  }

  /** A u32 length and the bytes it counts read back whole with a four-byte prefix. */
  lemma TextAt(buf: seq<byte>, p: nat, bytes: seq<byte>)
    requires |bytes| <= MAX_U32 && At(buf, p, U32LE(|bytes|) + bytes)
    ensures DecodeText(buf, p, FourBytes) == Ok((bytes, p + 4 + |bytes|))
  {
    AtSplit(buf, p, U32LE(|bytes|), bytes);
    U32At(buf, p, |bytes|);
  }

  // The decoder's results under names of their own. Stating the lemmas below
  // through these non-recursive wrappers keeps each proof obligation from
  // unfolding the decoder on the concrete terms it mentions.

  /** The value decoded at `pos` and the cursor after it. */
  ghost function ValueRead(buf: seq<byte>, pos: nat, w: LengthPrefix): Result<(Output, nat), DecodeError>
  {
    DecodeAt(buf, pos, w)
  }

  /** `n` values decoded from `p` after those in `acc`. */
  ghost function ItemsRead(buf: seq<byte>, p: nat, n: nat, acc: seq<Output>, w: LengthPrefix)
    : Result<(seq<Output>, nat), DecodeError>
  {
    DecodeItems(buf, p, n, acc, w)
  }

  /** `n` entries decoded from `p` and stored into `acc`. */
  ghost function EntriesRead(buf: seq<byte>, p: nat, n: nat, acc: seq<Entry<DecodedNumber>>, w: LengthPrefix)
    : Result<(seq<Entry<DecodedNumber>>, nat), DecodeError>
  {
    DecodeEntries(buf, p, n, acc, w)
  }

  /** One entry decoded from `p` and stored into `acc`. */
  ghost function EntryRead(buf: seq<byte>, p: nat, acc: seq<Entry<DecodedNumber>>, w: LengthPrefix)
    : Result<(seq<Entry<DecodedNumber>>, nat), DecodeError>
  {
    DecodeEntry(buf, p, acc, w)
  }

  lemma TagAt(buf: seq<byte>, pos: nat, t: TypeCode, w: LengthPrefix)
    requires At(buf, pos, [Code(t)])
    ensures ValueRead(buf, pos, w) == Handle(t, buf, pos + 1, w)
  {
    LookupCode(t);
    assert buf[pos] == buf[pos..pos + 1][0];
  }

  // One lemma per kind of value: the decoder, started where the encoding of
  // that value begins, returns its meaning and stops right after it.

  lemma BoolAt(b: bool, e: seq<byte>, w: LengthPrefix, buf: seq<byte>, pos: nat)
    requires Encode(Bool(b)) == Ok(e) && At(buf, pos, e)
    ensures ValueRead(buf, pos, w) == Ok((Meaning(Bool(b)), pos + |e|))
  {
    var x: byte := if b then 1 else 0;
    assert e == [Code(BOOLEAN)] + [x];
    AtSplit(buf, pos, [Code(BOOLEAN)], [x]);
    TagAt(buf, pos, BOOLEAN, w);
    ByteAt(buf, pos + 1, x);
  }

  lemma StringAt(s: seq<byte>, e: seq<byte>, w: LengthPrefix, buf: seq<byte>, pos: nat)
    requires Readable(Str(s), w) && Encode(Str(s)) == Ok(e) && At(buf, pos, e)
    ensures ValueRead(buf, pos, w) == Ok((Meaning(Str(s)), pos + |e|))
  {
    TextValueAt(buf, pos, STRING, s, w);
  }

  /** A tag, a u32 length and the bytes it counts: the text a four-byte decoder reads after the tag. */
  lemma TextValueAt(buf: seq<byte>, pos: nat, t: TypeCode, bytes: seq<byte>, w: LengthPrefix)
    requires w == FourBytes && |bytes| <= MAX_U32 && At(buf, pos, [Code(t)] + U32LE(|bytes|) + bytes)
    ensures ValueRead(buf, pos, w) == Handle(t, buf, pos + 1, w)
    ensures DecodeText(buf, pos + 1, w) == Ok((bytes, pos + 5 + |bytes|))
  {
    Assoc([Code(t)], U32LE(|bytes|), bytes);
    AtSplit(buf, pos, [Code(t)], U32LE(|bytes|) + bytes);
    TagAt(buf, pos, t, w);
    TextAt(buf, pos + 1, bytes);
  }

  lemma NumberAt(n: JsNumber, e: seq<byte>, w: LengthPrefix, buf: seq<byte>, pos: nat)
    requires Readable(Num(n), w) && Encode(Num(n)) == Ok(e) && At(buf, pos, e)
    ensures ValueRead(buf, pos, w) == Ok((Meaning(Num(n)), pos + |e|))
  {
    match Layout(n)
    case DoubleLayout =>
      DoubleAt(n, e, w, buf, pos);
    case FixedLayout(scale) =>
      FixedAt(n, scale, e, w, buf, pos);
    case BigFloatLayout =>
      DecimalAt(n, e, w, buf, pos);
  }

  lemma DoubleAt(n: JsNumber, e: seq<byte>, w: LengthPrefix, buf: seq<byte>, pos: nat)
    requires Layout(n).DoubleLayout? && EncodeNumber(n) == Ok(e) && At(buf, pos, e)
    ensures ValueRead(buf, pos, w) == Ok((Num(MeaningNumber(n)), pos + |e|))
  {
    AtSplit(buf, pos, [Code(NUMBER)], n.bits);
    TagAt(buf, pos, NUMBER, w);
  }

  lemma FixedAt(n: JsNumber, scale: nat, e: seq<byte>, w: LengthPrefix, buf: seq<byte>, pos: nat)
    requires Layout(n) == FixedLayout(scale) && EncodeNumber(n) == Ok(e) && At(buf, pos, e)
    ensures ValueRead(buf, pos, w) == Ok((Num(MeaningNumber(n)), pos + |e|))
  {
    FixedLayoutIff(n);
    AtSplit(buf, pos, [Code(FIXED_POINT)] + U32LE(scale), I64LE(n.scaled));
    AtSplit(buf, pos, [Code(FIXED_POINT)], U32LE(scale));
    TagAt(buf, pos, FIXED_POINT, w);
    U32At(buf, pos + 1, scale);
    I64At(buf, pos + 5, n.scaled);
  }

  lemma DecimalAt(n: JsNumber, e: seq<byte>, w: LengthPrefix, buf: seq<byte>, pos: nat)
    requires Layout(n).BigFloatLayout? && w == FourBytes && EncodeNumber(n) == Ok(e) && At(buf, pos, e)
    ensures ValueRead(buf, pos, w) == Ok((Num(MeaningNumber(n)), pos + |e|))
  {
    TextValueAt(buf, pos, BIG_FLOAT_STRING, Utf8(n.text), w);
  }

  /** The decoder, started where the encoding `e` of `v` begins inside a larger buffer, returns the meaning of `v` and stops right after `e`. */
  lemma {:induction false} RoundTripAt(v: Input, e: seq<byte>, w: LengthPrefix, buf: seq<byte>, pos: nat)
    requires Readable(v, w) && Encode(v) == Ok(e) && At(buf, pos, e)
    ensures ValueRead(buf, pos, w) == Ok((Meaning(v), pos + |e|))
    decreases v, 1
  {
    match v
    case Null =>
      TagAt(buf, pos, NULL, w);
    case Undefined =>
      TagAt(buf, pos, UNDEFINED, w);
    case Bool(b) =>
      BoolAt(b, e, w, buf, pos);
    case Num(n) =>
      NumberAt(n, e, w, buf, pos);
    case Str(s) =>
      StringAt(s, e, w, buf, pos);
    case Arr(items) =>
      ArrayAt(items, e, w, buf, pos);
    case Obj(entries) =>
      ObjectAt(entries, e, w, buf, pos);
  }

  /** A result holding acc + [x] + rest holds acc + whole, for whole == [x] + rest. */
  lemma Regroup<T, E>(r: Result<(seq<T>, nat), E>, acc: seq<T>, x: T, rest: seq<T>, whole: seq<T>, end: nat)
    requires r == Ok((acc + [x] + rest, end)) && whole == [x] + rest
    ensures r == Ok((acc + whole, end))
  {
    assert acc + [x] + rest == acc + whole;
  }

  // Arrays.

  lemma {:induction false} ArrayAt(items: seq<Input>, e: seq<byte>, w: LengthPrefix, buf: seq<byte>, pos: nat)
    requires Readable(Arr(items), w) && Encode(Arr(items)) == Ok(e) && At(buf, pos, e)
    ensures ValueRead(buf, pos, w) == Ok((Meaning(Arr(items)), pos + |e|))
    decreases Arr(items), 0
  {
    var body := ArraySplit(items, e);
    AtSplit(buf, pos, [Code(ARRAY)] + U32LE(|items|), body);
    ItemsReadableIntro(items, w);
    ItemsAt(items, |items|, body, w, buf, pos + 5, []);
    ArrayHeader(buf, pos, |items|, w, [] + MeaningItems(items), pos + 5 + |body|);
    ArrayMeaning(items);
  }

  lemma ArraySplit(items: seq<Input>, e: seq<byte>) returns (body: seq<byte>)
    requires Encode(Arr(items)) == Ok(e)
    ensures |items| <= MAX_U32 && EncodeItems(items) == Ok(body)
    ensures e == [Code(ARRAY)] + U32LE(|items|) + body && |e| == 5 + |body|
  {
    body := EncodeItems(items).value;
  }

  lemma ArrayMeaning(items: seq<Input>)
    ensures Meaning(Arr(items)) == Arr([] + MeaningItems(items))
  {
    Assoc([], [], MeaningItems(items));
  }

  /** An array header with count `n`, then `n` values read from after it. */
  lemma ArrayHeader(buf: seq<byte>, pos: nat, n: nat, w: LengthPrefix, xs: seq<Output>, end: nat)
    requires n <= MAX_U32 && At(buf, pos, [Code(ARRAY)] + U32LE(n))
    requires ItemsRead(buf, pos + 5, n, [], w) == Ok((xs, end))
    ensures ValueRead(buf, pos, w) == Ok((Arr(xs), end))
  {
    AtSplit(buf, pos, [Code(ARRAY)], U32LE(n));
    TagAt(buf, pos, ARRAY, w);
    U32At(buf, pos + 1, n);
  }

  /** Every element readable, stated along the decoder's recursion. */
  ghost predicate ItemsReadable(items: seq<Input>, w: LengthPrefix)
    decreases items
  {
    items != [] ==> Readable(items[0], w) && ItemsReadable(items[1..], w)
  }

  lemma {:induction false} ItemsReadableIntro(items: seq<Input>, w: LengthPrefix)
    requires Readable(Arr(items), w)
    ensures ItemsReadable(items, w)
    decreases items
  {
    if items != [] {
      assert Readable(items[0], w);
      assert forall i | 0 <= i < |items[1..]| :: items[1..][i] == items[i + 1];
      ItemsReadableIntro(items[1..], w);
    }
  }

  /** The elements' encodings, one after another, decode to their meanings in order. */
  lemma {:induction false} ItemsAt(items: seq<Input>, n: nat, body: seq<byte>, w: LengthPrefix, buf: seq<byte>, p: nat,
                                   acc: seq<Output>)
    requires n == |items| && ItemsReadable(items, w)
    requires EncodeItems(items) == Ok(body) && At(buf, p, body)
    ensures ItemsRead(buf, p, n, acc, w) == Ok((acc + MeaningItems(items), p + |body|))
    decreases items, 1
  {
    if n == 0 {
      assert items == [] && body == [] && MeaningItems(items) == [];
      assert acc + [] == acc;
    } else {
      var head, tail := ItemsHead(items, body, w, buf, p);
      var x, rest, q := Meaning(items[0]), MeaningItems(items[1..]), p + |head|;
      ItemsAt(items[1..], n - 1, tail, w, buf, q, acc + [x]);
      ItemsCons(buf, p, n, acc, w, x, q, rest, MeaningItems(items), q + |tail|);
      assert q + |tail| == p + |body|;
    }
  }

  /** The first value, then the rest read after it, make up the whole list. */
  lemma ItemsCons(buf: seq<byte>, p: nat, n: nat, acc: seq<Output>, w: LengthPrefix, x: Output, q: nat,
                  rest: seq<Output>, whole: seq<Output>, end: nat)
    requires n > 0 && ValueRead(buf, p, w) == Ok((x, q))
    requires ItemsRead(buf, q, n - 1, acc + [x], w) == Ok((acc + [x] + rest, end)) && whole == [x] + rest
    ensures ItemsRead(buf, p, n, acc, w) == Ok((acc + whole, end))
  {
    ItemsChain(buf, p, n, acc, w, x, q, acc + [x] + rest, end);
    Regroup(ItemsRead(buf, p, n, acc, w), acc, x, rest, whole, end);
  }

  /** The first element read back, and what is left for the rest. */
  lemma {:induction false} ItemsHead(items: seq<Input>, body: seq<byte>, w: LengthPrefix, buf: seq<byte>, p: nat)
    returns (head: seq<byte>, tail: seq<byte>)
    requires items != [] && ItemsReadable(items, w)
    requires EncodeItems(items) == Ok(body) && At(buf, p, body)
    ensures ValueRead(buf, p, w) == Ok((Meaning(items[0]), p + |head|))
    ensures EncodeItems(items[1..]) == Ok(tail) && At(buf, p + |head|, tail) && |body| == |head| + |tail|
    decreases items, 0
  {
    head, tail := Encode(items[0]).value, EncodeItems(items[1..]).value;
    AtSplit(buf, p, head, tail);
    RoundTripAt(items[0], head, w, buf, p);
  }

  /** A value, then the rest: how DecodeItems chains DecodeAt. */
  lemma ItemsChain(buf: seq<byte>, p: nat, n: nat, acc: seq<Output>, w: LengthPrefix, x: Output, q: nat,
                   all: seq<Output>, end: nat)
    requires n > 0 && ValueRead(buf, p, w) == Ok((x, q))
    requires ItemsRead(buf, q, n - 1, acc + [x], w) == Ok((all, end))
    ensures ItemsRead(buf, p, n, acc, w) == Ok((all, end))
  {
  }

  // Objects.

  lemma {:induction false} ObjectAt(entries: seq<Entry<JsNumber>>, e: seq<byte>, w: LengthPrefix, buf: seq<byte>, pos: nat)
    requires Readable(Obj(entries), w) && Encode(Obj(entries)) == Ok(e) && At(buf, pos, e)
    ensures ValueRead(buf, pos, w) == Ok((Meaning(Obj(entries)), pos + |e|))
    decreases Obj(entries), 0
  {
    var body := ObjectSplit(entries, e);
    AtSplit(buf, pos, [Code(OBJECT)] + U32LE(|entries|), body);
    ObjectReadable(entries, w);
    EntriesAt(entries, |entries|, body, w, buf, pos + 5, []);
    ObjectHeader(buf, pos, |entries|, w, [] + MeaningEntries(entries), pos + 5 + |body|);
    ObjectMeaning(entries);
  }

  lemma ObjectSplit(entries: seq<Entry<JsNumber>>, e: seq<byte>) returns (body: seq<byte>)
    requires Encode(Obj(entries)) == Ok(e)
    ensures |entries| <= MAX_U32 && EncodeEntries(entries) == Ok(body)
    ensures e == [Code(OBJECT)] + U32LE(|entries|) + body && |e| == 5 + |body|
  {
    body := EncodeEntries(entries).value;
  }

  lemma ObjectMeaning(entries: seq<Entry<JsNumber>>)
    ensures Meaning(Obj(entries)) == Obj([] + MeaningEntries(entries))
  {
    Assoc([], [], MeaningEntries(entries));
  }

  /** An object header with count `n`, then `n` entries read from after it. */
  lemma ObjectHeader(buf: seq<byte>, pos: nat, n: nat, w: LengthPrefix, xs: seq<Entry<DecodedNumber>>, end: nat)
    requires n <= MAX_U32 && At(buf, pos, [Code(OBJECT)] + U32LE(n))
    requires EntriesRead(buf, pos + 5, n, [], w) == Ok((xs, end))
    ensures ValueRead(buf, pos, w) == Ok((Obj(xs), end))
  {
    AtSplit(buf, pos, [Code(OBJECT)], U32LE(n));
    TagAt(buf, pos, OBJECT, w);
    U32At(buf, pos + 1, n);
  }

  /** A readable object has readable values and distinct keys, and only a four-byte decoder reads a non-empty one. */
  lemma ObjectReadable(entries: seq<Entry<JsNumber>>, w: LengthPrefix)
    requires Readable(Obj(entries), w)
    ensures |entries| > 0 ==> w == FourBytes
    ensures EntriesReadable(entries, [], w)
  {
    assert forall i | 0 <= i < |entries| :: Readable(entries[i].value, w);
    EntriesReadableIntro(entries, [], w);
  }

  /**
   * The entries' encodings decode to their meanings in order: every key is
   * new to the object built so far, so every obj[key] = value adds an entry.
   */
  lemma {:induction false} EntriesAt(entries: seq<Entry<JsNumber>>, n: nat, body: seq<byte>, w: LengthPrefix, buf: seq<byte>, p: nat,
                                     acc: seq<Entry<DecodedNumber>>)
    requires n == |entries| && (n > 0 ==> w == FourBytes)
    requires EntriesReadable(entries, acc, w)
    requires EncodeEntries(entries) == Ok(body) && At(buf, p, body)
    ensures EntriesRead(buf, p, n, acc, w) == Ok((acc + MeaningEntries(entries), p + |body|))
    decreases entries, 1
  {
    if n == 0 {
      assert acc + [] == acc;
    } else {
      var first := Entry(entries[0].key, Meaning(entries[0].value));
      var head, tail := EntriesHead(entries, body, w, buf, p, acc);
      EntriesAt(entries[1..], n - 1, tail, w, buf, p + |head|, acc + [first]);
      EntriesChain(buf, p, n, acc, w, acc + [first], p + |head|, acc + [first] + MeaningEntries(entries[1..]), p + |head| + |tail|);
      Regroup(EntriesRead(buf, p, n, acc, w), acc, first, MeaningEntries(entries[1..]), MeaningEntries(entries), p + |head| + |tail|);
    }
  }

  /** An entry, then the rest: how DecodeEntries chains DecodeEntry. */
  lemma EntriesChain(buf: seq<byte>, p: nat, n: nat, acc: seq<Entry<DecodedNumber>>, w: LengthPrefix,
                     next: seq<Entry<DecodedNumber>>, q: nat, all: seq<Entry<DecodedNumber>>, end: nat)
    requires n > 0 && EntryRead(buf, p, acc, w) == Ok((next, q))
    requires EntriesRead(buf, q, n - 1, next, w) == Ok((all, end))
    ensures EntriesRead(buf, p, n, acc, w) == Ok((all, end))
  {
  }

  /** The first entry read back, and what is left for the rest. */
  lemma {:induction false} EntriesHead(entries: seq<Entry<JsNumber>>, body: seq<byte>, w: LengthPrefix, buf: seq<byte>, p: nat,
                                       acc: seq<Entry<DecodedNumber>>) returns (head: seq<byte>, tail: seq<byte>)
    requires entries != [] && w == FourBytes
    requires EntriesReadable(entries, acc, w)
    requires EncodeEntries(entries) == Ok(body) && At(buf, p, body)
    ensures EntryRead(buf, p, acc, w) == Ok((acc + [Entry(entries[0].key, Meaning(entries[0].value))], p + |head|))
    ensures EncodeEntries(entries[1..]) == Ok(tail) && At(buf, p + |head|, tail) && |body| == |head| + |tail|
    decreases entries, 0
  {
    head, tail := EntriesSplit(entries, body);
    AtSplit(buf, p, head, tail);
    EntryAt(entries[0], head, w, buf, p, acc);
  }

  /** Each value readable, and each key absent from what the entries before it built. */
  ghost predicate EntriesReadable(entries: seq<Entry<JsNumber>>, acc: seq<Entry<DecodedNumber>>, w: LengthPrefix)
    decreases entries
  {
    entries != [] ==>
      KeyAbsent(acc, entries[0].key) && Readable(entries[0].value, w)
      && EntriesReadable(entries[1..], acc + [Entry(entries[0].key, Meaning(entries[0].value))], w)
  }

  /** Distinct keys, none of them in `acc`, make every step's key new. */
  lemma {:induction false} EntriesReadableIntro(entries: seq<Entry<JsNumber>>, acc: seq<Entry<DecodedNumber>>, w: LengthPrefix)
    requires DistinctKeys(entries)
    requires forall i | 0 <= i < |entries| :: KeyAbsent(acc, entries[i].key) && Readable(entries[i].value, w)
    ensures EntriesReadable(entries, acc, w)
    decreases entries
  {
    if entries != [] {
      EntriesRest(entries, acc, w);
      EntriesReadableIntro(entries[1..], acc + [Entry(entries[0].key, Meaning(entries[0].value))], w);
    }
  }

  lemma EntriesSplit(entries: seq<Entry<JsNumber>>, body: seq<byte>) returns (head: seq<byte>, tail: seq<byte>)
    requires entries != [] && EncodeEntries(entries) == Ok(body)
    ensures EncodeEntry(entries[0]) == Ok(head) && EncodeEntries(entries[1..]) == Ok(tail) && body == head + tail
  {
    head, tail := EncodeEntry(entries[0]).value, EncodeEntries(entries[1..]).value;
  }

  lemma EntrySplit(entry: Entry<JsNumber>, e: seq<byte>) returns (value: seq<byte>)
    requires EncodeEntry(entry) == Ok(e)
    ensures |entry.key| <= MAX_U32 && Encode(entry.value) == Ok(value)
    ensures e == (U32LE(|entry.key|) + entry.key) + value
  {
    value := Encode(entry.value).value;
  }

  /** After the first entry is stored, the remaining keys are still new. */
  lemma EntriesRest(entries: seq<Entry<JsNumber>>, acc: seq<Entry<DecodedNumber>>, w: LengthPrefix)
    requires entries != [] && DistinctKeys(entries)
    requires forall i | 0 <= i < |entries| :: KeyAbsent(acc, entries[i].key) && Readable(entries[i].value, w)
    ensures DistinctKeys(entries[1..])
    ensures forall i | 0 <= i < |entries[1..]| ::
              KeyAbsent(acc + [Entry(entries[0].key, Meaning(entries[0].value))], entries[1..][i].key)
              && Readable(entries[1..][i].value, w)
  {
    var next := acc + [Entry(entries[0].key, Meaning(entries[0].value))];
    forall i | 0 <= i < |entries[1..]|
      ensures KeyAbsent(next, entries[1..][i].key) && Readable(entries[1..][i].value, w)
    {
      assert entries[1..][i] == entries[i + 1];
      assert KeyAbsent(acc, entries[i + 1].key);
      assert entries[0].key != entries[i + 1].key;
    }
    assert forall i, j | 0 <= i < j < |entries[1..]| :: entries[1..][i] == entries[i + 1] && entries[1..][j] == entries[j + 1];
  }

  lemma {:induction false} EntryAt(entry: Entry<JsNumber>, e: seq<byte>, w: LengthPrefix, buf: seq<byte>, p: nat,
                                   acc: seq<Entry<DecodedNumber>>)
    requires w == FourBytes && KeyAbsent(acc, entry.key) && Readable(entry.value, w)
    requires EncodeEntry(entry) == Ok(e) && At(buf, p, e)
    ensures EntryRead(buf, p, acc, w) == Ok((acc + [Entry(entry.key, Meaning(entry.value))], p + |e|))
    decreases entry, 0
  {
    var value := EntrySplit(entry, e);
    AtSplit(buf, p, U32LE(|entry.key|) + entry.key, value);
    TextAt(buf, p, entry.key);
    RoundTripAt(entry.value, value, w, buf, p + 4 + |entry.key|);
  }

  /** The decoder's result at the start of a buffer, for DecodeAt and for Decode. */
  lemma ReadFromStart(buf: seq<byte>, w: LengthPrefix, x: Output, end: nat)
    requires ValueRead(buf, 0, w) == Ok((x, end))
    ensures DecodeAt(buf, 0, w) == Ok((x, end)) && Decode(buf, w) == Ok(x)
  {
  }

  /** An encoding followed by any bytes decodes from the start to the value's meaning. */
  lemma ReadBack(v: Input, e: seq<byte>, w: LengthPrefix, rest: seq<byte>)
    requires Readable(v, w) && Encode(v) == Ok(e)
    ensures DecodeAt(e + rest, 0, w) == Ok((Meaning(v), |e|))
  {
    AtWhole(e, rest);
    RoundTripAt(v, e, w, e + rest, 0);
    ReadFromStart(e + rest, w, Meaning(v), |e|);
  }

  /** An encoding on its own decodes to the value's meaning. */
  lemma ReadBackAlone(v: Input, e: seq<byte>, w: LengthPrefix)
    requires Readable(v, w) && Encode(v) == Ok(e)
    ensures Decode(e, w) == Ok(Meaning(v))
  {
    AtWhole(e, []);
    assert e + [] == e;
    RoundTripAt(v, e, w, e, 0);
    ReadFromStart(e, w, Meaning(v), |e|);
  }

  /** A tree whose only objects are empty has no repeated key. */
  lemma {:induction false} NoLengthPrefixesDistinct(v: Input)
    requires NoLengthPrefixes(v)
    ensures KeysDistinct(v)
  {
    if v.Arr? {
      forall i | 0 <= i < |v.items|
        ensures KeysDistinct(v.items[i])
      {
        NoLengthPrefixesDistinct(v.items[i]);
      }
    }
  }

  /** Round trip of the decoder as written, on the fragment where its layout agrees with the encoder's. */
  lemma RoundTripAsWritten(v: Input, rest: seq<byte>)
    requires Encodable(v) && NoLengthPrefixes(v)
    ensures Encode(v).Ok?
    ensures DecodeAt(Encode(v).value + rest, 0, OneByte) == Ok((Meaning(v), |Encode(v).value|))
    ensures Decode(Encode(v).value, OneByte) == Ok(Meaning(v))
  {
    NoLengthPrefixesDistinct(v);
    EncodeOkIff(v);
    var e := Encode(v).value;
    ReadBack(v, e, OneByte, rest);
    ReadBackAlone(v, e, OneByte);
  }

  /** Round trip with four-byte length prefixes: every tree the encoder accepts comes back. */
  lemma RoundTripCorrected(v: Input, rest: seq<byte>)
    requires Encodable(v) && KeysDistinct(v)
    ensures Encode(v).Ok?
    ensures DecodeAt(Encode(v).value + rest, 0, FourBytes) == Ok((Meaning(v), |Encode(v).value|))
    ensures Decode(Encode(v).value, FourBytes) == Ok(Meaning(v))
  {
    EncodeOkIff(v);
    var e := Encode(v).value;
    ReadBack(v, e, FourBytes, rest);
    ReadBackAlone(v, e, FourBytes);
  }

  // The decoder as written against the encoder's four-byte lengths.

  lemma U32LowByte(n: nat)
    requires n <= MAX_U32
    ensures U32LE(n)[0] == n % 256
  {
  }

  /**
   * A one-byte read of a four-byte length takes its low byte, so the decoder
   * stops 3 + 256 * (len / 256) bytes short of where the encoder's bytes end.
   */
  lemma TextMisread(buf: seq<byte>, p: nat, bytes: seq<byte>)
    requires |bytes| <= MAX_U32 && At(buf, p, U32LE(|bytes|) + bytes)
    ensures var r := DecodeText(buf, p, OneByte);
            r.Ok? && r.value.1 == p + 1 + |bytes| % 256 && r.value.1 < p + 4 + |bytes|
  {
    AtSplit(buf, p, U32LE(|bytes|), bytes);
    U32LowByte(|bytes|);
    assert buf[p] == buf[p..p + 4][0];
  }

  /** An encoded string never decodes to the end of its own encoding. */
  lemma StringMisread(s: seq<byte>)
    requires |s| <= MAX_U32
    ensures Encode(Str(s)).Ok?
    ensures var r := DecodeAt(Encode(Str(s)).value, 0, OneByte);
            r.Ok? && r.value.0.Str? && r.value.1 == 2 + |s| % 256 && r.value.1 < |Encode(Str(s)).value|
  {
    var e := Encode(Str(s)).value;
    assert e == [Code(STRING)] + (U32LE(|s|) + s);
    AtWhole(e, []);
    assert e + [] == e;
    AtSplit(e, 0, [Code(STRING)], U32LE(|s|) + s);
    TagAt(e, 0, STRING, OneByte);
    TextMisread(e, 1, s);
  }

  /** A decimal-text number never decodes to the end of its own encoding. */
  lemma BigFloatMisread(n: JsNumber)
    requires Layout(n).BigFloatLayout? && |Utf8(n.text)| <= MAX_U32
    ensures EncodeNumber(n).Ok?
    ensures var r := DecodeAt(EncodeNumber(n).value, 0, OneByte);
            r.Ok? && r.value.0.Num? && r.value.0.n.FromString?
            && r.value.1 == 2 + |Utf8(n.text)| % 256 && r.value.1 < |EncodeNumber(n).value|
  {
    var bytes := Utf8(n.text);
    var e := EncodeNumber(n).value;
    assert e == [Code(BIG_FLOAT_STRING)] + (U32LE(|bytes|) + bytes);
    AtWhole(e, []);
    assert e + [] == e;
    AtSplit(e, 0, [Code(BIG_FLOAT_STRING)], U32LE(|bytes|) + bytes);
    TagAt(e, 0, BIG_FLOAT_STRING, OneByte);
    TextMisread(e, 1, bytes);
  }

  /**
   * In a non-empty object the first key is read from the wrong place: the
   * decoder looks for the first value at 6 + |key| % 256 while the encoder
   * put it at 9 + |key|.
   */
  lemma KeyMisread(entries: seq<Entry<JsNumber>>)
    requires entries != [] && Encodable(Obj(entries))
    ensures Encode(Obj(entries)).Ok?
    ensures var r := DecodeText(Encode(Obj(entries)).value, 5, OneByte);
            r.Ok? && r.value.1 == 6 + |entries[0].key| % 256 && r.value.1 < 9 + |entries[0].key|
  {
    EncodeOkIff(Obj(entries));
    var e := Encode(Obj(entries)).value;
    var body := ObjectSplit(entries, e);
    var head, tail := EntriesSplit(entries, body);
    var k := entries[0].key;
    var value := EntrySplit(entries[0], head);
    AtWhole(e, []);
    assert e + [] == e;
    AtSplit(e, 0, [Code(OBJECT)] + U32LE(|entries|), body);
    AtSplit(e, 5, head, tail);
    AtSplit(e, 5, U32LE(|k|) + k, value);
    TextMisread(e, 5, k);
  }

  /** Concretely: "ab" comes back as two zero bytes, three bytes before the end. */
  lemma StringExample()
    ensures Encode(Str([0x61, 0x62])) == Ok([Code(STRING), 2, 0, 0, 0, 0x61, 0x62])
    ensures DecodeAt([Code(STRING), 2, 0, 0, 0, 0x61, 0x62], 0, OneByte) == Ok((Str([0, 0]), 4))
    ensures Decode([Code(STRING), 2, 0, 0, 0, 0x61, 0x62], FourBytes) == Ok(Str([0x61, 0x62]))
  {
    var s: seq<byte> := [0x61, 0x62];
    var e: seq<byte> := [Code(STRING), 2, 0, 0, 0, 0x61, 0x62];
    assert U32LE(2) == [2, 0, 0, 0];
    assert e == [Code(STRING)] + U32LE(|s|) + s;
    ExampleMisread(e);
    AtWhole(e, []);
    assert e + [] == e;
    StringAt(s, e, FourBytes, e, 0);
    ReadFromStart(e, FourBytes, Str(s), |e|);
  }

  /**
   * The empty string, where stopping short is harmless: the one-byte decoder
   * reads length 0 and returns the empty string, with the cursor at 2 of 5.
   */
  lemma EmptyStringExample()
    ensures Encode(Str([])) == Ok([Code(STRING), 0, 0, 0, 0])
    ensures DecodeAt([Code(STRING), 0, 0, 0, 0], 0, OneByte) == Ok((Str([]), 2))
    ensures Decode([Code(STRING), 0, 0, 0, 0], OneByte) == Ok(Str([]))
  {
    var e: seq<byte> := [Code(STRING), 0, 0, 0, 0];
    assert U32LE(0) == [0, 0, 0, 0];
    assert e == [Code(STRING)] + U32LE(0) + [];
    EmptyRead(e);
  }

  /** The one-byte decoder on a string tag followed by a zero byte. */
  lemma EmptyRead(e: seq<byte>)
    requires |e| == 5 && e[0] == Code(STRING) && e[1] == 0
    ensures DecodeAt(e, 0, OneByte) == Ok((Str([]), 2)) && Decode(e, OneByte) == Ok(Str([]))
  {
    assert e[..1] == [Code(STRING)];
    TagAt(e, 0, STRING, OneByte);
    assert e[2..2] == [];
    ReadFromStart(e, OneByte, Str([]), 2);
  }

  /** The one-byte decoder on a string tag, length bytes 2, 0, 0, 0 and two more bytes. */
  lemma ExampleMisread(e: seq<byte>)
    requires |e| == 7 && e[0] == Code(STRING) && e[1] == 2 && e[2] == 0 && e[3] == 0
    ensures DecodeAt(e, 0, OneByte) == Ok((Str([0, 0]), 4))
  {
    assert e[..1] == [Code(STRING)];
    TagAt(e, 0, STRING, OneByte);
    assert e[2..4] == [0, 0];
    ReadFromStart(e, OneByte, Str([0, 0]), 4);
  }
}
