/** Bytes, fixed-width integers and the big-endian buffer helpers of byte_buffer.cpp.

    A pointer into memory is modelled by the array (or the sequence) it points into
    and an offset. */
module Bytes {

  const TWO_TO_16: int := 0x1_0000
  const TWO_TO_32: int := 0x1_0000_0000
  const TWO_TO_64: int := 0x1_0000_0000_0000_0000

  type Byte = x: int | 0 <= x < 0x100
  type UInt16 = x: int | 0 <= x < 0x1_0000
  type UInt24 = x: int | 0 <= x < 0x100_0000
  type UInt32 = x: int | 0 <= x < 0x1_0000_0000
  type UInt64 = x: int | 0 <= x < 0x1_0000_0000_0000_0000

  datatype Option<+T> = None | Some(value: T)

  function Pow2(n: nat): nat {
    if n == 0 then 1 else 2 * Pow2(n - 1)
  }

  // ----- wrap-around -----

  lemma Remainder16(x: int, q: int, r: nat)
    requires x == TWO_TO_16 * q + r && r < TWO_TO_16
    ensures x % TWO_TO_16 == r
  {
  }

  lemma Remainder32(x: int, q: int, r: nat)
    requires x == TWO_TO_32 * q + r && r < TWO_TO_32
    ensures x % TWO_TO_32 == r
  {
  }

  lemma AddModulo16(x: nat, d: nat)
    ensures (x % TWO_TO_16 + d) % TWO_TO_16 == (x + d) % TWO_TO_16
  {
    var y := x % TWO_TO_16 + d;
    Remainder16(x + d, x / TWO_TO_16 + y / TWO_TO_16, y % TWO_TO_16);
  }

  lemma AddModulo32(x: nat, d: nat)
    ensures (x % TWO_TO_32 + d) % TWO_TO_32 == (x + d) % TWO_TO_32
  {
    var y := x % TWO_TO_32 + d;
    Remainder32(x + d, x / TWO_TO_32 + y / TWO_TO_32, y % TWO_TO_32);
  }

  /** The n-th sequence number after the given one. */
  function Next(seqnum: UInt16, n: nat): UInt16 {
    (seqnum + n) % TWO_TO_16
  }

  lemma NextNext(seqnum: UInt16, m: nat, n: nat)
    ensures Next(Next(seqnum, m), n) == Next(seqnum, m + n)
  {
    AddModulo16(seqnum + m, n);
  }

  // ----- big-endian loads and stores -----

  function LoadUInt16BE(s: seq<Byte>, at: nat): UInt16
    requires at + 2 <= |s|
  {
    s[at] as int * 0x100 + s[at + 1]
  }

  function LoadUInt24BE(s: seq<Byte>, at: nat): UInt24
    requires at + 3 <= |s|
  {
    s[at] as int * 0x1_0000 + LoadUInt16BE(s, at + 1)
  }

  function LoadUInt32BE(s: seq<Byte>, at: nat): UInt32
    requires at + 4 <= |s|
  {
    LoadUInt16BE(s, at) as int * 0x1_0000 + LoadUInt16BE(s, at + 2)
  }

  function UInt16Bytes(v: UInt16): (r: seq<Byte>)
    ensures |r| == 2 && LoadUInt16BE(r, 0) == v
  {
    [v / 0x100, v % 0x100]
  }

  function UInt24Bytes(v: UInt24): (r: seq<Byte>)
    ensures |r| == 3 && LoadUInt24BE(r, 0) == v
  {
    [v / 0x1_0000] + UInt16Bytes(v % 0x1_0000)
  }

  function UInt32Bytes(v: UInt32): (r: seq<Byte>)
    ensures |r| == 4 && LoadUInt32BE(r, 0) == v
  {
    UInt16Bytes(v / 0x1_0000) + UInt16Bytes(v % 0x1_0000)
  }

  /** Big-endian decoding is injective: the bytes are those of the value they spell. */
  lemma BytesOfLoad16(s: seq<Byte>, at: nat)
    requires at + 2 <= |s|
    ensures s[at..at + 2] == UInt16Bytes(LoadUInt16BE(s, at))
  {
  }

  lemma BytesOfLoad32(s: seq<Byte>, at: nat)
    requires at + 4 <= |s|
    ensures s[at..at + 4] == UInt32Bytes(LoadUInt32BE(s, at))
  {
    BytesOfLoad16(s, at);
    BytesOfLoad16(s, at + 2);
    assert s[at..at + 4] == s[at..at + 2] + s[at + 2..at + 4];
  }

  /** Decoding inverts encoding anywhere in a buffer. */
  lemma LoadOfBytes16(s: seq<Byte>, at: nat, v: UInt16)
    requires at + 2 <= |s| && s[at..at + 2] == UInt16Bytes(v)
    ensures LoadUInt16BE(s, at) == v
  {
    var t := s[at..at + 2];
    assert s[at] == t[0] && s[at + 1] == t[1];
  }

  lemma LoadOfBytes24(s: seq<Byte>, at: nat, v: UInt24)
    requires at + 3 <= |s| && s[at..at + 3] == UInt24Bytes(v)
    ensures LoadUInt24BE(s, at) == v
  {
    var t := s[at..at + 3];
    assert s[at] == t[0] && s[at + 1] == t[1] && s[at + 2] == t[2];
  }

  lemma LoadOfBytes32(s: seq<Byte>, at: nat, v: UInt32)
    requires at + 4 <= |s| && s[at..at + 4] == UInt32Bytes(v)
    ensures LoadUInt32BE(s, at) == v
  {
    var t := s[at..at + 4];
    assert s[at] == t[0] && s[at + 1] == t[1] && s[at + 2] == t[2] && s[at + 3] == t[3];
  }

  lemma Regroup<T>(a: seq<T>, b: seq<T>, c: seq<T>)
    ensures (a + b) + c == a + (b + c)
  {
  }

  /** The bytes t stand at offset pos of s. */
  predicate At(s: seq<Byte>, pos: nat, t: seq<Byte>) {
    pos + |t| <= |s| && s[pos..pos + |t|] == t
  }

  lemma AtBoth(s: seq<Byte>, pos: nat, t: seq<Byte>, u: seq<Byte>)
    requires At(s, pos, t + u)
    ensures At(s, pos, t) && At(s, pos + |t|, u)
  {
    var v := s[pos..pos + |t + u|];
    assert s[pos..pos + |t|] == v[..|t|] && s[pos + |t|..pos + |t| + |u|] == v[|t|..];
  }

  lemma WordAt(s: seq<Byte>, pos: nat, v: UInt32, rest: seq<Byte>)
    requires At(s, pos, UInt32Bytes(v) + rest)
    ensures pos + 4 <= |s| && LoadUInt32BE(s, pos) == v && At(s, pos + 4, rest)
  {
    AtBoth(s, pos, UInt32Bytes(v), rest);
    LoadOfBytes32(s, pos, v);
  }

  /** s with the bytes of `part` stored from offset `at` on. */
  function Overwrite(s: seq<Byte>, at: nat, part: seq<Byte>): (r: seq<Byte>)
    requires at + |part| <= |s|
    ensures |r| == |s|
    ensures forall i :: 0 <= i < |s| ==> r[i] == if at <= i < at + |part| then part[i - at] else s[i]
  {
    s[..at] + part + s[at + |part|..]
  }

  method StoreUInt16BE(data: array<Byte>, at: nat, value: UInt16)
    requires at + 2 <= data.Length
    modifies data
    ensures data[..] == Overwrite(old(data[..]), at, UInt16Bytes(value))
  {
    data[at] := value / 0x100;
    data[at + 1] := value % 0x100;
  }

  method StoreUInt32BE(data: array<Byte>, at: nat, value: UInt32)
    requires at + 4 <= data.Length
    modifies data
    ensures data[..] == Overwrite(old(data[..]), at, UInt32Bytes(value))
  {
    StoreUInt16BE(data, at, value / 0x1_0000);
    StoreUInt16BE(data, at + 2, value % 0x1_0000);
  }

  /** memcpy of `part` into `data` at offset `at`. */
  method CopyInto(data: array<Byte>, at: nat, part: seq<Byte>)
    requires at + |part| <= data.Length
    modifies data
    ensures data[..] == Overwrite(old(data[..]), at, part)
  {
    forall i | 0 <= i < |part| {
      data[at + i] := part[i];
    }
  }
}
