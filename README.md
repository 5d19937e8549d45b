# bserializer in Dafny

A model of the binary codec of bserializer, a TypeScript library that turns
JSON-like trees into bytes and back. There are three cooperating pieces:

- **The append buffer** (`Buffers.BufferWriter`, buffer_writer.dfy). It has a
  current fixed-capacity chunk, a write offset into it and the list of chunks
  already filled. Every write first makes room; a write that does not fit
  closes the current chunk and starts one of at least 64 KiB. The
  class keeps the invariant `Valid()`: the logical contents are the filled
  chunks followed by `current[0..offset)`. Every write is proved to append
  exactly its bytes to those contents.
- **The encoder** (serialize.dfy). `Encode` is the wire layout as a function
  of the tree: a tag byte, then a payload. Numbers go through
  `GetFloatScaleInfo` and take one of three forms:
  - a double;
  - fixed point: a u32 scale and an i64 scaled value;
  - decimal text with a u32 length, used when the scale exceeds u32.

  The methods `SerializePrimitive`, `SerializeInto` (`_serializeData`) and
  `SerializeData` append to a `BufferWriter` step by step, with the source's
  `for` loops. They are proved to write exactly `Encode`'s bytes, or to stop
  with the error the source throws.
- **The decoder** (deserialize.dfy). `DecodeAt` is the wire layout read back
  from a position. The methods `DeserializeData`, the handler methods,
  `DeserializeArray` and `DeserializeObject` walk the buffer with a shared
  mutable cursor (`OffsetRef`). They are proved to return what `DecodeAt`
  returns and to leave the cursor where it says.

The decoder takes the width of the length prefix in front of strings, decimal
texts and object keys as a parameter:

- `OneByte` is the source as written: `readUInt8` at src/deserialize.ts:23,
  36 and 59.
- `FourBytes` matches the encoder's `writeUInt32LE` at src/serialize.ts:50, 66
  and 127.

round_trip.dfy proves two round trips:

- the decoder as written returns every tree without strings, decimal-text
  numbers or non-empty objects;
- the four-byte decoder returns every tree the encoder accepts, with distinct keys in every object.

It also proves that, for every string and every decimal text, and for the
first key of a non-empty object, the decoder as written stops short of where
the encoder's bytes end (see Findings). That does not always make the value
come back wrong: an empty string is read back as an empty string (`RoundTrip.EmptyStringExample`).
Numbers are compared through `Meaning`: each number becomes the form its
layout carried, so no floating-point arithmetic is involved.

Tags are the one-byte codes of typecodes.ts. That file is not part of this
model, so type_codes.dfy uses placeholder values, and every proof relies only
on distinct kinds having distinct codes (`TypeCodes.LookupCode`).

## Model

| member | source | states |
|---|---|---|
| Buffers.BufferWriter.constructor | src/bufferWriter.ts:7-9 | A new writer is valid and empty, with no chunks, offset 0 and a fresh chunk of the requested size. |
| Buffers.BufferWriter.Ensure | src/bufferWriter.ts:10-13 | The contents are unchanged and `offset + size` fits the current chunk. It flushes exactly when the write would not fit, and then the new chunk has capacity max(size, 64 KiB). |
| Buffers.BufferWriter.Flush | src/bufferWriter.ts:17-21 | Appends exactly `current[0..offset)` to the chunks, resets the offset to 0 and allocates capacity max(size, 64 KiB). The logical contents are unchanged. |
| Buffers.BufferWriter.WriteUInt8 | src/bufferWriter.ts:22-25 | The contents grow by exactly the one byte; the write is in place when it fits. |
| Buffers.BufferWriter.WriteUInt32LE | src/bufferWriter.ts:27-31 | The contents grow by exactly the four little-endian bytes of the u32; the value must be at most 0xffffffff, as Node demands. |
| Buffers.BufferWriter.WriteDoubleLE | src/bufferWriter.ts:33-37 | The contents grow by exactly the eight bytes of the double. |
| Buffers.BufferWriter.WriteBigInt64LE | src/bufferWriter.ts:39-43 | The contents grow by exactly the eight little-endian two's-complement bytes. |
| Buffers.BufferWriter.WriteString | src/bufferWriter.ts:45-48 | The contents grow by exactly the UTF-8 bytes of the string. |
| Buffers.BufferWriter.WriteBuffer | src/bufferWriter.ts:49-53 | The contents grow by exactly the given bytes; they are copied in place when they fit. |
| Buffers.BufferWriter.Concat | src/bufferWriter.ts:54-60 | Both writers are flushed. The receiver's contents become its old contents followed by the other writer's, also when the other writer is the receiver itself. A distinct other writer keeps its contents. |
| Buffers.BufferWriter.ToBuffer | src/bufferWriter.ts:61-67 | Returns every byte written, in write order. With exactly one chunk it returns that chunk. A partly filled chunk is flushed first. |
| Bytes.U32RoundTrip | src/bufferWriter.ts:27-31 | readUInt32LE of the four bytes writeUInt32LE lays out gives back the value. |
| Bytes.I64RoundTrip | src/bufferWriter.ts:39-43 | readBigInt64LE of the eight bytes writeBigInt64LE lays out gives back the value, negative values included. |
| Bytes.Utf8Length | src/serialize.ts:64 | A string's UTF-8 byte length is at least its character count and at most four times that. |
| Bytes.Utf8Ascii | src/serialize.ts:63-67 | An ASCII string's UTF-8 bytes are its character codes, one byte per character. |
| Serialize.IndexOf | src/serialize.ts:21 | Returns -1 if and only if the character is absent, otherwise its first position. |
| Serialize.GetFloatScaleInfo | src/serialize.ts:17-31 | Null if and only if the text has no '.', has an 'e' or ends at the '.'. Otherwise decimalPlaces is the count of characters after the first '.' and scale is 10^decimalPlaces. |
| Serialize.ScaleFitsIff | src/serialize.ts:61 | A scale 10^d fits a u32 if and only if d <= 9. |
| Serialize.Layout | src/serialize.ts:57-61 | The number branch: no scale info gives the double, a scale above u32 the decimal text, otherwise fixed point with that scale. No contract of its own; `FixedLayoutIff` states which texts take which branch. |
| Serialize.FixedLayoutIff | src/serialize.ts:58-79 | Fixed point is chosen if and only if the text is a plain decimal with 1 to 9 fractional digits; its scale is 10^digits. Decimal text is chosen if and only if there are 10 or more digits. |
| Serialize.LengthPrefixed | src/serialize.ts:63-67 | A tag byte, the u32 byte length and the bytes, or the range error writeUInt32LE throws; used for strings (src/serialize.ts:47-51) and decimal text. No contract of its own; `WriteBigFloat` and `SerializePrimitive` are proved to write exactly these bytes, and `RoundTrip.StringAt` and `RoundTrip.DecimalAt` to read them back. |
| Serialize.EncodeNumber | src/serialize.ts:56-86 | The bytes of the branch `Layout` picks: FIXED_POINT with u32 scale and i64 value, BIG_FLOAT_STRING with length-prefixed text, or NUMBER with the eight double bytes. No contract of its own; `SerializeNumber` is proved to write exactly these bytes and `RoundTrip.NumberAt` to read them back. |
| Serialize.EncodePrimitive | src/serialize.ts:33-97 | The bytes of one non-container node, or "Unsupported data type" with its kind. No contract of its own; `SerializePrimitive` is proved to write exactly these bytes. |
| Serialize.Encode | src/serialize.ts:99-133 | The wire layout of a whole tree. No contract of its own; `EncodeOkIff` states when it succeeds and `RoundTrip.RoundTripCorrected` what it decodes to. |
| Serialize.EncodeItems | src/serialize.ts:112-114 | The elements' encodings in index order. No contract of its own; `EncodeItemsOkIff` states when it succeeds and `RoundTrip.ItemsAt` what it decodes to. |
| Serialize.EncodeEntries | src/serialize.ts:125-130 | The entries' encodings in entry order. No contract of its own; `EncodeEntriesOkIff` states when it succeeds and `RoundTrip.EntriesAt` what it decodes to. |
| Serialize.EncodeEntry | src/serialize.ts:126-129 | The key's u32 byte length, the key bytes and the value's encoding. No contract of its own; `SerializeEntry` is proved to write exactly these bytes and `RoundTrip.EntryAt` to read them back. |
| Serialize.EncodeOkIff | src/serialize.ts:99-133 | The encoder succeeds if and only if the tree is `Encodable`: only supported kinds, and every length and count at most 0xffffffff. An unsupported kind fails with "Unsupported data type" and its kind. |
| Serialize.EncodeItemsOkIff | src/serialize.ts:112-114 | The elements encode if and only if every element is encodable. |
| Serialize.EncodeEntriesOkIff | src/serialize.ts:125-130 | The entries encode if and only if every key fits a u32 length and every value is encodable. |
| Serialize.WriteFixedPoint | src/serialize.ts:73-77 | Appends the FIXED_POINT tag, the u32 scale and the i64 scaled value. |
| Serialize.WriteSized | src/serialize.ts:50-51 | Appends a u32 byte length and then the bytes. |
| Serialize.WriteText | src/serialize.ts:64-67 | writeUInt32LE of the text's UTF-8 byte length, then writeString: appends the u32 length and then the UTF-8 bytes. |
| Serialize.WriteBigFloat | src/serialize.ts:61-68 | Appends the BIG_FLOAT_STRING tag, the u32 byte length of the decimal text and its UTF-8 bytes, or fails when the length exceeds u32. |
| Serialize.SerializeNumber | src/serialize.ts:56-86 | Appends exactly `EncodeNumber`: fixed point when the scale fits a u32, decimal text when it does not, the double when there is no scale info. |
| Serialize.SerializePrimitive | src/serialize.ts:33-97 | Appends exactly `EncodePrimitive`, or reports its error. Null and undefined are one tag byte, a boolean is a tag and 1 or 0, a string is a tag, a u32 length and its bytes. |
| Serialize.SerializeInto | src/serialize.ts:99-104 | Appends exactly `Encode(data)` or reports its error. Containers go to the array or object branch, everything else to `SerializePrimitive`. |
| Serialize.SerializeArray | src/serialize.ts:106-117 | Appends the ARRAY tag, the u32 element count and the elements' encodings in index order. |
| Serialize.SerializeItems | src/serialize.ts:112-114 | The loop appends every element's encoding in index order; the loop invariant ties what has been written to `EncodeItems`. |
| Serialize.SerializeObject | src/serialize.ts:119-124 | Appends the OBJECT tag, the u32 entry count and then the entries. |
| Serialize.SerializeEntries | src/serialize.ts:125-131 | The loop appends every entry in entry order; the loop invariant ties what has been written to `EncodeEntries`. |
| Serialize.SerializeEntry | src/serialize.ts:126-129 | Appends the key's u32 byte length, the key bytes and then the value's encoding. |
| Serialize.SerializeData | src/serialize.ts:135-140 | Returns exactly `Encode(data)`, or the error the walk throws. |
| TypeCodes.Lookup | src/deserialize.ts:66-67 | A tag byte names a kind only when it is that kind's code. There is no handler if and only if no kind has that code. |
| TypeCodes.LookupCode | src/deserialize.ts:34-64 | Every tag the encoder writes finds its own handler. |
| Deserialize.ReadLength | src/deserialize.ts:36 | A length read succeeds only when the prefix's bytes are in the buffer. |
| Deserialize.Slice | src/deserialize.ts:37 | toString's byte range: the exact bytes when the range is inside the buffer, never more than what is left after the start. |
| Deserialize.DecodeText | src/deserialize.ts:36-38 | On success the cursor is past the length prefix; the length read must start inside the buffer. |
| Deserialize.Put | src/deserialize.ts:26 | obj[key] = value: a new key is appended as the last entry. An existing key is overwritten in place: the size stays the same, every position keeps its key, and only the first entry with that key changes. The key then reads back as the value and every other key is unchanged. |
| Deserialize.DecodeAt | src/deserialize.ts:32-68 | A successful decode starts inside the buffer and moves the cursor past the tag. A start past the end is a range error, and an unregistered tag is "Unknown type code" for that byte. |
| Deserialize.Handle | src/deserialize.ts:34-64 | No handler moves the cursor backwards. |
| Deserialize.DecodeArray | src/deserialize.ts:6-15 | An array result with exactly as many elements as the u32 count read, and the cursor at least past that count. |
| Deserialize.DecodeItems | src/deserialize.ts:11-13 | On success exactly `n` values have been added to those already decoded. |
| Deserialize.DecodeObject | src/deserialize.ts:17-30 | An object result with at most as many entries as the u32 count read (a repeated key overwrites), and the cursor at least past that count. |
| Deserialize.DecodeEntries | src/deserialize.ts:22-27 | On success the cursor has not moved backwards and at most `n` entries have been added. |
| Deserialize.DecodeEntry | src/deserialize.ts:23-26 | A successful entry starts inside the buffer, moves the cursor forward and adds at most one entry. |
| Deserialize.Decode | src/deserialize.ts:32 | deserializeData with the default cursor at 0: the value `DecodeAt` reads there. No contract of its own; `DeserializeDefault` is proved to return it and `RoundTrip.RoundTripCorrected` states what it returns for an encoding. |
| Deserialize.OffsetRef.constructor | src/deserialize.ts:4 | The shared cursor starts at the given offset. |
| Deserialize.DeserializeData | src/deserialize.ts:32-68 | Reads the tag at the cursor and runs its handler. The result and the final cursor are exactly `DecodeAt`'s, errors included. |
| Deserialize.ReadText | src/deserialize.ts:36-38 | Reads the length and the bytes it covers, leaving the cursor where `DecodeText` says. |
| Deserialize.StringHandler | src/deserialize.ts:35-40 | Returns the string handler's result and leaves the cursor where `Handle` says. |
| Deserialize.NumberHandler | src/deserialize.ts:41-45 | Returns the eight double bytes and advances the cursor by 8, as `Handle` says. |
| Deserialize.BooleanHandler | src/deserialize.ts:46 | Returns byte != 0 and advances the cursor by 1, as `Handle` says. |
| Deserialize.FixedPointHandler | src/deserialize.ts:51-57 | Returns the u32 scale and the i64 raw value and advances the cursor by 12, as `Handle` says. |
| Deserialize.BigFloatHandler | src/deserialize.ts:58-63 | Returns the decimal text's bytes and leaves the cursor where `Handle` says. |
| Deserialize.DeserializeArray | src/deserialize.ts:6-15 | The loop pushes exactly `len` decoded values, threading the cursor, as `DecodeArray` says. |
| Deserialize.DeserializeObject | src/deserialize.ts:17-30 | The loop performs exactly `count` assignments `obj[key] = value`, threading the cursor, as `DecodeObject` says. |
| Deserialize.DeserializeEntry | src/deserialize.ts:23-26 | Reads a key and then a value and stores the value under the key, as `DecodeEntry` says. |
| Deserialize.DeserializeDefault | src/deserialize.ts:32 | With no cursor given, decoding starts at offset 0. |
| RoundTrip.TagAt | src/deserialize.ts:33 | A tag the encoder wrote dispatches to its own handler, which starts reading right after it. |
| RoundTrip.BoolAt | src/deserialize.ts:46 | An encoded boolean decodes back to itself and consumes two bytes. |
| RoundTrip.StringAt | src/deserialize.ts:35-40 | With four-byte lengths, an encoded string decodes back to its bytes and the cursor stops right after them. |
| RoundTrip.DoubleAt | src/deserialize.ts:41-45 | An encoded double decodes back to its eight bytes after nine bytes. |
| RoundTrip.FixedAt | src/deserialize.ts:51-57 | A fixed-point number decodes back to its scale and scaled value after 13 bytes. |
| RoundTrip.DecimalAt | src/deserialize.ts:58-63 | With four-byte lengths, decimal text decodes back to its UTF-8 bytes. |
| RoundTrip.NumberAt | src/deserialize.ts:41-63 | Every number layout decodes back to the number's meaning and stops at the end of its encoding. |
| RoundTrip.ArrayHeader | src/deserialize.ts:7-8 | An array's tag and u32 count, then exactly that many values read after them. |
| RoundTrip.ItemsAt | src/deserialize.ts:11-13 | The elements' encodings, one after another, decode to their meanings in order, and the cursor ends after the last one. |
| RoundTrip.ArrayAt | src/deserialize.ts:6-15 | An encoded array of readable values decodes back to its meaning. |
| RoundTrip.ObjectHeader | src/deserialize.ts:19-20 | An object's tag and u32 count, then exactly that many entries read after them. |
| RoundTrip.EntryAt | src/deserialize.ts:23-26 | With four-byte lengths, an encoded entry whose key is new adds exactly that entry. |
| RoundTrip.EntriesAt | src/deserialize.ts:22-27 | Entries with distinct keys decode to their meanings in order. Each key is new, so each assignment adds one entry. |
| RoundTrip.ObjectAt | src/deserialize.ts:17-30 | An encoded object with distinct keys decodes back to its meaning; with the decoder as written this lemma covers only the empty object. |
| RoundTrip.RoundTripAt | src/deserialize.ts:32-68 | Started where a value's encoding begins inside any buffer, the decoder returns the value's meaning and stops right after the encoding. |
| RoundTrip.NoLengthPrefixesDistinct | src/deserialize.ts:17-30 | A tree whose only objects are empty repeats no key, so the as-written round trip needs no separate distinct-keys condition. |
| RoundTrip.RoundTripAsWritten | src/deserialize.ts:32-68 | The decoder as written returns the meaning of every encodable tree that has no strings, decimal-text numbers or non-empty objects. This holds with any bytes after the encoding, and the cursor ends at its length. |
| RoundTrip.RoundTripCorrected | src/deserialize.ts:32-68 | With four-byte length prefixes, every tree the encoder accepts with distinct keys comes back as its meaning, and the cursor ends at the encoding's length. |
| RoundTrip.TextMisread | src/deserialize.ts:36-38 | Read with a one-byte length, a four-byte length and its bytes give a cursor at 1 + len mod 256. That is always short of the encoder's end. |
| RoundTrip.StringMisread | src/deserialize.ts:36 | An encoded string, decoded as written, never ends where its encoding ends. |
| RoundTrip.BigFloatMisread | src/deserialize.ts:59 | An encoded decimal-text number, decoded as written, never ends where its encoding ends. |
| RoundTrip.KeyMisread | src/deserialize.ts:23 | In a non-empty object the first key is read with its length's low byte, so the first value is looked for short of where the encoder put it. |
| RoundTrip.EmptyStringExample | src/deserialize.ts:36-38 | The empty string encodes as STRING, 0, 0, 0, 0. The one-byte decoder returns the empty string with the cursor at 2, so the value survives although the cursor stops short. |
| RoundTrip.ExampleMisread | src/deserialize.ts:36-38 | The one-byte decoder on STRING, 2, 0, 0, 0, and two bytes returns two zero bytes after four bytes. |
| RoundTrip.StringExample | src/deserialize.ts:35-40 | "ab" encodes to seven bytes. Decoded as written it comes back as two zero bytes, three bytes before the end; the four-byte decoder returns "ab". |

## Left out

- Floating point is not modelled:
  - `Math.round(value * scale)` is an input of each number (`JsNumber.scaled`), typed as a signed 64-bit value, so a scaled value outside that range is not modelled;
  - `Number(raw) / scale`, `parseFloat` and readDoubleLE are kept as the payload they would read (`DecodedNumber`), so the decoded forms are compared, not numbers;
  - IEEE 754 bit patterns are opaque eight-byte sequences.
- `value.toString()`, JavaScript's number-to-text rendering, is an input of each number (`JsNumber.text`).
- UTF-8 decoding by `toString('utf8', …)` and its replacement of invalid sequences are not modelled. Strings and keys stay byte sequences on the way back. String values and object keys are given as their UTF-8 bytes, so `Buffer.from` at src/serialize.ts:49 and :126 is an input, not modelled; `Bytes.Utf8` encodes only a number's decimal text (src/serialize.ts:63-67).
- `Object.entries` ordering (integer-like keys first), `__proto__` keys, cyclic graphs and call-stack depth are outside the finite value tree. An object is an ordered entry list, and an array hole is an `Undefined` element.
- The writer's contents after an encode error are left unspecified. The source throws and drops the writer.
- The cursor after a decode error is left unspecified (`Decoded` checks only the error).
- Memory sharing between `allocUnsafe` chunks and `subarray` views is not modelled: a filled chunk is a value sequence. The unused tail of a fresh chunk is whatever the array holds.
- The `getChunks` getter is only used by `Concat` and is folded into it.
- src/index.ts file I/O and gzip, the benchmarks, misc/ and the jest configuration are not part of this model.
- The numeric tag values are placeholders: typecodes.ts is not part of this model.
- The decoder as written reads one-byte lengths where the encoder writes four-byte ones; both widths are modelled (`LengthPrefix`).
- An end offset past the buffer is clamped by `toString`, and that is modelled as clamping, not as an error.
- Fixed-size reads past the end are the `OutOfRange` error.
- RoundTrip.RoundTripCorrected: requires distinct keys in every object. With a repeated key, the decoder's `obj[key] = value` overwrites the earlier value, and the tree does not come back entry for entry.

## Findings

| source | as written | input that shows it | evidently intended | confidence | as-written member | corrected member |
|---|---|---|---|---|---|---|
| src/deserialize.ts:36 | the string handler reads a one-byte length | the string "ab" encodes as STRING, 2, 0, 0, 0, "a", "b" and decodes to two zero bytes with the cursor at 4 | read the u32 length the encoder writes (src/serialize.ts:50) | not executed | RoundTrip.StringMisread | RoundTrip.RoundTripCorrected |
| src/deserialize.ts:59 | the big-float handler reads a one-byte length | the number 0.1234567891 (ten decimals) encodes as decimal text with a four-byte length, and decoding stops three bytes early | read the u32 length the encoder writes (src/serialize.ts:66) | not executed | RoundTrip.BigFloatMisread | RoundTrip.RoundTripCorrected |
| src/deserialize.ts:23 | object keys are read with a one-byte length | in the object { a: null } the key length 1 is read from one byte, the key becomes the zero byte after it, and the value is looked for at offset 7 instead of 10 | read the u32 key length the encoder writes (src/serialize.ts:127) | not executed | RoundTrip.KeyMisread | RoundTrip.RoundTripCorrected |
