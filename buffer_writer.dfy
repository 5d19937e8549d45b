/**
 * The growable output buffer: a current fixed-capacity chunk with a write
 * offset, plus the chunks already filled. A write that does not fit in the
 * current chunk flushes it and continues in a fresh chunk of at least the
 * default size, so a long write gets a chunk of its own.
 */
module Buffers {
  import opened Bytes

  const DEFAULT_CHUNK_SIZE: nat := 8192 * 8

  function Max(a: nat, b: nat): nat { if a < b then b else a }

  class BufferWriter {
    /** Everything written so far, in write order. */
    ghost var Contents: seq<byte>

    var chunks: seq<seq<byte>>
    var current: array<byte>
    var offset: nat

    /** The logical contents are the filled chunks followed by current[0..offset). */
    ghost predicate Valid()
      reads this, current
    {
      offset <= current.Length && Contents == Flatten(chunks) + current[..offset]
    }

    /**
     * A write of `n` bytes that fits in what the current chunk has left
     * happens in place, without a flush.
     */
    twostate predicate InPlace(n: nat)
      reads this
    {
      old(offset) + n <= old(current.Length) ==>
        chunks == old(chunks) && current == old(current) && offset == old(offset) + n
    }

    constructor (initialSize: nat := DEFAULT_CHUNK_SIZE)
      ensures Valid() && Contents == []
      ensures chunks == [] && offset == 0
      ensures fresh(current) && current.Length == initialSize
    {
      chunks := [];
      current := new byte[initialSize];
      offset := 0;
      Contents := [];
    }

    /** Makes room for `size` more bytes, flushing only when they do not fit. */
    method Ensure(size: nat)
      requires Valid()
      modifies this
      ensures Valid() && Contents == old(Contents)
      ensures offset + size <= current.Length
      ensures old(offset) + size <= old(current.Length) ==>
                chunks == old(chunks) && current == old(current) && offset == old(offset)
      ensures old(offset) + size > old(current.Length) ==>
                chunks == old(chunks) + [old(current[..offset])] && offset == 0
                && fresh(current) && current.Length == Max(size, DEFAULT_CHUNK_SIZE)
    {
      if offset + size > current.Length {
        Flush(size);
      }
    }

    /** Closes the current chunk and starts a new one of capacity max(size, DEFAULT_CHUNK_SIZE). */
    method Flush(size: nat := 0)
      requires Valid()
      modifies this
      ensures Valid() && Contents == old(Contents)
      ensures chunks == old(chunks) + [old(current[..offset])] && offset == 0
      ensures fresh(current) && current.Length == Max(size, DEFAULT_CHUNK_SIZE)
    {
      var filled := current[..offset];
      chunks := chunks + [filled];
      assert chunks[..|chunks| - 1] == old(chunks);
      offset := 0;
      current := new byte[Max(size, DEFAULT_CHUNK_SIZE)];
    }

    /** Copies `src` into the current chunk at the write offset (Buffer.copy). */
    method Place(src: seq<byte>)
      requires offset + |src| <= current.Length
      modifies current
      ensures current[..offset + |src|] == old(current[..offset]) + src
    {
      for i := 0 to |src|
        invariant forall j | 0 <= j < offset :: current[j] == old(current[j])
        invariant forall j | 0 <= j < i :: current[offset + j] == src[j]
      {
        current[offset + i] := src[i];
      }
    }

    /** The shared body of every primitive write: ensure room, copy, advance. */
    method Append(bytes: seq<byte>)
      requires Valid()
      modifies this, current
      ensures Valid() && Contents == old(Contents) + bytes
      ensures current == old(current) || fresh(current)
      ensures InPlace(|bytes|)
    {
      Ensure(|bytes|);
      Place(bytes);
      offset := offset + |bytes|;
      Contents := Contents + bytes;
    }

    method WriteUInt8(val: byte)
      requires Valid()
      modifies this, current
      ensures Valid() && Contents == old(Contents) + [val]
      ensures current == old(current) || fresh(current)
      ensures InPlace(1)
    {
      Append([val]);
    }

    /** Node's writeUInt32LE throws on a value outside the unsigned 32-bit range. */
    method WriteUInt32LE(val: nat)
      requires Valid() && val <= MAX_U32
      modifies this, current
      ensures Valid() && Contents == old(Contents) + U32LE(val)
      ensures current == old(current) || fresh(current)
      ensures InPlace(4)
    {
      Append(U32LE(val));
    }

    method WriteDoubleLE(val: Bits64)
      requires Valid()
      modifies this, current
      ensures Valid() && Contents == old(Contents) + val
      ensures current == old(current) || fresh(current)
      ensures InPlace(8)
    {
      Append(val);
    }

    method WriteBigInt64LE(val: Int64)
      requires Valid()
      modifies this, current
      ensures Valid() && Contents == old(Contents) + I64LE(val)
      ensures current == old(current) || fresh(current)
      ensures InPlace(8)
    {
      Append(I64LE(val));
    }

    method WriteString(str: string)
      requires Valid()
      modifies this, current
      ensures Valid() && Contents == old(Contents) + Utf8(str)
      ensures current == old(current) || fresh(current)
      ensures InPlace(|Utf8(str)|)
    {
      WriteBuffer(Utf8(str));
    }

    method WriteBuffer(buf: seq<byte>)
      requires Valid()
      modifies this, current
      ensures Valid() && Contents == old(Contents) + buf
      ensures current == old(current) || fresh(current)
      ensures InPlace(|buf|)
    {
      Append(buf);
    }

    /**
     * Flushes both writers and appends the other writer's chunks to this
     * one's. The other writer keeps its chunks; it may be this writer itself.
     */
    method Concat(other: BufferWriter)
      requires Valid() && other.Valid()
      modifies this, other
      ensures Valid() && other.Valid()
      ensures Contents == old(Contents) + old(other.Contents)
      ensures offset == 0 && fresh(current) && current.Length == DEFAULT_CHUNK_SIZE
      ensures other != this ==> other.Contents == old(other.Contents)
      ensures other != this ==>
                other.chunks == old(other.chunks) + [old(other.current[..other.offset])]
                && other.offset == 0 && fresh(other.current)
                && chunks == old(chunks) + [old(current[..offset])] + other.chunks
    {
      ghost var mine := Contents;
      ghost var theirs := other.Contents;
      other.Flush();
      Flush();
      // Each side's chunks now hold all of that side's bytes (both are this writer when aliased).
      assert current[..0] == [] && other.current[..0] == [];
      ghost var before, appended := chunks, other.chunks;
      assert Flatten(before) == mine && Flatten(appended) == theirs;
      chunks := chunks + other.chunks;
      FlattenConcat(before, appended);
      Contents := mine + theirs;
    }

    /**
     * All bytes written, in order; flushes a partly filled chunk first. With
     * a single chunk that chunk is returned as it is.
     */
    method ToBuffer() returns (r: seq<byte>)
      requires Valid()
      modifies this
      ensures Valid() && Contents == old(Contents)
      ensures r == old(Contents)
      ensures |chunks| == 1 ==> r == chunks[0]
      ensures old(offset) > 0 ==>
                chunks == old(chunks) + [old(current[..offset])] && offset == 0
                && fresh(current) && current.Length == DEFAULT_CHUNK_SIZE
      ensures old(offset) == 0 ==>
                chunks == old(chunks) && current == old(current) && offset == 0
    {
      if offset > 0 {
        Flush();
      }
      assert Flatten(chunks) == old(Contents);
      if |chunks| == 1 {
        FlattenSingle(chunks[0]);
        assert chunks == [chunks[0]];
        return chunks[0];
      }
      r := [];
      for i := 0 to |chunks|
        invariant r == Flatten(chunks[..i])
      {
        assert chunks[..i + 1][..i] == chunks[..i];
        r := r + chunks[i];
      }
      assert chunks[..|chunks|] == chunks;
    }
  }
}
