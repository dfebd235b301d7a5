/** ByteReader and ByteWriter of byte_buffer.cpp: cursors over a byte buffer. */
module ByteBuffer {
  import opened Bytes

  /** Reads from a buffer that does not change while the reader is in use. */
  class ByteReader {
    const bytes: seq<Byte>
    var start: nat

    ghost predicate Valid()
      reads this
    {
      start <= |bytes|
    }

    constructor (bytes: seq<Byte>)
      ensures Valid() && this.bytes == bytes && start == 0
    {
      this.bytes := bytes;
      start := 0;
    }

    function Left(): nat
      reads this
      requires Valid()
    {
      |bytes| - start
    }

    method ReadUInt8() returns (ok: bool, val: Byte)
      requires Valid()
      modifies this
      ensures Valid() && ok == (old(Left()) >= 1)
      ensures if ok then start == old(start) + 1 && val == bytes[old(start)] else start == old(start)
    {
      if Left() < 1 {
        return false, 0;
      }
      ok, val := true, bytes[start];
      start := start + 1;
    }

    method ReadUInt16() returns (ok: bool, val: UInt16)
      requires Valid()
      modifies this
      ensures Valid() && ok == (old(Left()) >= 2)
      ensures if ok then start == old(start) + 2 && val == LoadUInt16BE(bytes, old(start)) else start == old(start)
    {
      if Left() < 2 {
        return false, 0;
      }
      ok, val := true, LoadUInt16BE(bytes, start);
      start := start + 2;
    }

    method ReadUInt24() returns (ok: bool, val: UInt24)
      requires Valid()
      modifies this
      ensures Valid() && ok == (old(Left()) >= 3)
      ensures if ok then start == old(start) + 3 && val == LoadUInt24BE(bytes, old(start)) else start == old(start)
    {
      if Left() < 3 {
        return false, 0;
      }
      ok, val := true, LoadUInt24BE(bytes, start);
      start := start + 3;
    }

    method ReadUInt32() returns (ok: bool, val: UInt32)
      requires Valid()
      modifies this
      ensures Valid() && ok == (old(Left()) >= 4)
      ensures if ok then start == old(start) + 4 && val == LoadUInt32BE(bytes, old(start)) else start == old(start)
    {
      if Left() < 4 {
        return false, 0;
      }
      ok, val := true, LoadUInt32BE(bytes, start);
      start := start + 4;
    }

    method ReadBytes(len: nat) returns (ok: bool, val: seq<Byte>)
      requires Valid()
      modifies this
      ensures Valid() && ok == (old(Left()) >= len)
      ensures if ok then start == old(start) + len && val == bytes[old(start)..start] else start == old(start)
    {
      if Left() < len {
        return false, [];
      }
      ok, val := true, bytes[start..start + len];
      start := start + len;
    }

    method Consume(size: nat) returns (ok: bool)
      requires Valid()
      modifies this
      ensures Valid() && ok == (old(Left()) >= size)
      ensures start == if ok then old(start) + size else old(start)
    {
      if Left() < size {
        return false;
      }
      start := start + size;
      ok := true;
    }
  }

  /** Appends to the bytes already written; a write that does not fit changes nothing. */
  class ByteWriter {
    const bytes: array<Byte>
    var len: nat

    ghost predicate Valid()
      reads this
    {
      len <= bytes.Length
    }

    constructor (bytes: array<Byte>)
      ensures Valid() && this.bytes == bytes && len == 0
    {
      this.bytes := bytes;
      len := 0;
    }

    function Left(): nat
      reads this
      requires Valid()
    {
      bytes.Length - len
    }

    function Written(): seq<Byte>
      reads this, bytes
      requires Valid()
    {
      bytes[..len]
    }

    method WriteBytes(val: seq<Byte>) returns (ok: bool)
      requires Valid()
      modifies this, bytes
      ensures Valid() && ok == (old(Left()) >= |val|)
      ensures Written() == if ok then old(Written()) + val else old(Written())
    {
      if Left() < |val| {
        return false;
      }
      CopyInto(bytes, len, val);
      len := len + |val|;
      ok := true;
    }

    method WriteUInt8(val: Byte) returns (ok: bool)
      requires Valid()
      modifies this, bytes
      ensures Valid() && ok == (old(Left()) >= 1)
      ensures Written() == if ok then old(Written()) + [val] else old(Written())
    {
      if Left() < 1 {
        return false;
      }
      bytes[len] := val;
      len := len + 1;
      ok := true;
    }

    method WriteUInt16(val: UInt16) returns (ok: bool)
      requires Valid()
      modifies this, bytes
      ensures Valid() && ok == (old(Left()) >= 2)
      ensures Written() == if ok then old(Written()) + UInt16Bytes(val) else old(Written())
    {
      if Left() < 2 {
        return false;
      }
      StoreUInt16BE(bytes, len, val);
      len := len + 2;
      ok := true;
    }

    method WriteUInt32(val: UInt32) returns (ok: bool)
      requires Valid()
      modifies this, bytes
      ensures Valid() && ok == (old(Left()) >= 4)
      ensures Written() == if ok then old(Written()) + UInt32Bytes(val) else old(Written())
    {
      if Left() < 4 {
        return false;
      }
      StoreUInt32BE(bytes, len, val);
      len := len + 4;
      ok := true;
    }
  }
}
