/** RtpStoragePacket of media_stream.cpp: a sent packet kept for retransmission, and its
    rewriting in place into the format of section 4 of RFC 4588. */
module RtxPacket {
  import opened Bytes
  import opened RtpPacketizer

  const RTX_EXTRA_SIZE: nat := 2

  /** What a storage packet amounts to: its fields and the bytes it would send now. */
  datatype Stored = Stored(
    ssrc: UInt32, sequenceNumber: UInt16, timestamp: UInt32, headerOffset: nat,
    data: seq<Byte>, isRtx: bool, resentMillis: UInt64)

  /** The header ends at byte 12 or later, and within the bytes. */
  predicate HeaderFits(headerOffset: nat, data: seq<Byte>) {
    12 <= headerOffset <= |data|
  }

  /** A generated packet whose bytes carry what its fields say. */
  predicate WellFormed(p: RtpPacket) {
    && HeaderFits(p.headerOffset, p.data)
    && LoadUInt16BE(p.data, 2) == p.sequenceNumber
    && LoadUInt32BE(p.data, 8) == p.ssrc
  }

  // ----- specification: the retransmission format -----

  /** A packet with its payload type, sequence number and SSRC replaced. */
  function WithIdentity(b: seq<Byte>, ssrc: UInt32, seqnum: UInt16, payloadType: Byte): (r: seq<Byte>)
    requires |b| >= 12
    ensures |r| == |b|
    ensures forall k :: 0 <= k < |b| ==>
      r[k] == if k == 1 then b[1] - b[1] % 0x80 + payloadType % 0x80
              else if 2 <= k < 4 then UInt16Bytes(seqnum)[k - 2]
              else if 8 <= k < 12 then UInt32Bytes(ssrc)[k - 8]
              else b[k]
  {
    Overwrite(Overwrite(Overwrite(b, 8, UInt32Bytes(ssrc)), 2, UInt16Bytes(seqnum)),
              1, [b[1] - b[1] % 0x80 + payloadType % 0x80])
  }

  /** Section 4 of RFC 4588: the header under the retransmission stream's identity, the
      original sequence number (OSN), the original payload. */
  function RtxBytes(b: seq<Byte>, h: nat, ssrc: UInt32, seqnum: UInt16, payloadType: Byte): (r: seq<Byte>)
    requires HeaderFits(h, b)
    ensures |r| == |b| + RTX_EXTRA_SIZE
  {
    WithIdentity(b[..h] + (b[2..4] + b[h..]), ssrc, seqnum, payloadType)
  }

  /** What a receiver of the retransmission stream does: the OSN becomes the sequence number. */
  function UndoRtx(b: seq<Byte>, h: nat, ssrc: UInt32, payloadType: Byte): (r: seq<Byte>)
    requires 12 <= h && h + 2 <= |b|
    ensures |r| == |b| - RTX_EXTRA_SIZE
  {
    WithIdentity(b[..h] + b[h + 2..], ssrc, LoadUInt16BE(b, h), payloadType)
  }

  function Renumbered(b: seq<Byte>, seqnum: UInt16): (r: seq<Byte>)
    requires |b| >= 4
    ensures |r| == |b|
  {
    Overwrite(b, 2, UInt16Bytes(seqnum))
  }

  lemma RestoredIdentity(b: seq<Byte>, ssrc: UInt32, seqnum: UInt16, payloadType: Byte)
    requires |b| >= 12
    ensures WithIdentity(WithIdentity(b, ssrc, seqnum, payloadType),
                         LoadUInt32BE(b, 8), LoadUInt16BE(b, 2), b[1] % 0x80) == b
  {
    hide UInt16Bytes, UInt32Bytes, LoadUInt16BE, LoadUInt32BE, Overwrite, WithIdentity;
    BytesOfLoad16(b, 2);
    BytesOfLoad32(b, 8);
    assert forall k :: 2 <= k < 4 ==> b[k] == b[2..4][k - 2];
    assert forall k :: 8 <= k < 12 ==> b[k] == b[8..12][k - 8];
    var w := WithIdentity(b, ssrc, seqnum, payloadType);
    assert w[1] - w[1] % 0x80 + b[1] % 0x80 == b[1];
  }

  /** The identity sits in the first twelve bytes. */
  lemma IdentityInFront(x: seq<Byte>, y: seq<Byte>, ssrc: UInt32, seqnum: UInt16, payloadType: Byte)
    requires |x| >= 12
    ensures WithIdentity(x + y, ssrc, seqnum, payloadType) == WithIdentity(x, ssrc, seqnum, payloadType) + y
  {
  }

  /** Taking the OSN out again leaves the original packet under the retransmission's identity. */
  lemma WithoutOsn(b: seq<Byte>, h: nat, ssrc: UInt32, seqnum: UInt16, payloadType: Byte)
    requires HeaderFits(h, b)
    ensures var r := RtxBytes(b, h, ssrc, seqnum, payloadType);
            && r[..h] + r[h + 2..] == WithIdentity(b, ssrc, seqnum, payloadType)
            && LoadUInt16BE(r, h) == LoadUInt16BE(b, 2)
  {
    var r := RtxBytes(b, h, ssrc, seqnum, payloadType);
    var front := WithIdentity(b[..h], ssrc, seqnum, payloadType);
    IdentityInFront(b[..h], b[2..4] + b[h..], ssrc, seqnum, payloadType);
    IdentityInFront(b[..h], b[h..], ssrc, seqnum, payloadType);
    assert b[..h] + b[h..] == b;
    assert r == front + (b[2..4] + b[h..]);
    assert r[..h] == front && r[h..h + 2] == b[2..4] && r[h + 2..] == b[h..];
    assert r[h] == r[h..h + 2][0] && r[h + 1] == r[h..h + 2][1];
  }

  /** Undoing the format gives back exactly the bytes first sent. */
  lemma UndoOfRtx(b: seq<Byte>, h: nat, ssrc: UInt32, seqnum: UInt16, payloadType: Byte)
    requires HeaderFits(h, b)
    ensures UndoRtx(RtxBytes(b, h, ssrc, seqnum, payloadType), h, LoadUInt32BE(b, 8), b[1] % 0x80) == b
  {
    WithoutOsn(b, h, ssrc, seqnum, payloadType);
    RestoredIdentity(b, ssrc, seqnum, payloadType);
  }

  /** A later resend only changes the sequence number, and that is the format again. */
  lemma RenumberedRtx(b: seq<Byte>, h: nat, ssrc: UInt32, seqnum: UInt16, payloadType: Byte, seqnum': UInt16)
    requires HeaderFits(h, b)
    ensures Renumbered(RtxBytes(b, h, ssrc, seqnum, payloadType), seqnum') == RtxBytes(b, h, ssrc, seqnum', payloadType)
  {
  }

  lemma LowBits(b: Byte, t: Byte)
    ensures (b - b % 0x80 + t % 0x80) % 0x80 == t % 0x80 && (b - b % 0x80 + t % 0x80) / 0x80 == b / 0x80
  {
  }

  /** The identity under which a retransmission travels. */
  lemma RtxIdentity(b: seq<Byte>, h: nat, ssrc: UInt32, seqnum: UInt16, payloadType: Byte)
    requires HeaderFits(h, b)
    ensures var r := RtxBytes(b, h, ssrc, seqnum, payloadType);
            && LoadUInt16BE(r, 2) == seqnum && LoadUInt32BE(r, 8) == ssrc && LoadUInt16BE(r, h) == LoadUInt16BE(b, 2)
            && r[1] % 0x80 == payloadType % 0x80 && r[1] / 0x80 == b[1] / 0x80
            && r[4..8] == b[4..8] && r[h + 2..] == b[h..]
  {
    var r := RtxBytes(b, h, ssrc, seqnum, payloadType);
    assert r[2..4] == UInt16Bytes(seqnum);
    assert r[8..12] == UInt32Bytes(ssrc);
    LoadOfBytes16(r, 2, seqnum);
    LoadOfBytes32(r, 8, ssrc);
    LowBits(b[1], payloadType);
    assert r[h] == b[2] && r[h + 1] == b[3];
  }

  /** MakeRtxPacket as a function: format on the first call, renumber on later ones. */
  function MadeRtx(s: Stored, ssrc: UInt32, seqnum: UInt16, payloadType: Byte): Stored
    requires HeaderFits(s.headerOffset, s.data)
  {
    if !s.isRtx then s.(data := RtxBytes(s.data, s.headerOffset, ssrc, seqnum, payloadType), isRtx := true)
    else s.(data := Renumbered(s.data, seqnum))
  }

  // ----- the stored packet -----

  class RtpStoragePacket {
    const ssrc: UInt32
    const sequenceNumber: UInt16
    const size: nat
    const data: array<Byte>
    var resentMillis: UInt64
    const timestamp: UInt32
    var isRtx: bool
    const headerOffset: nat

    ghost predicate Valid()
    {
      12 <= headerOffset <= size && data.Length == size + RTX_EXTRA_SIZE
    }

    function Size(): nat
      reads this
    {
      if isRtx then size + RTX_EXTRA_SIZE else size
    }

    ghost function View(): (s: Stored)
      reads this, data
      requires Valid()
      ensures |s.data| == Size()
    {
      Stored(ssrc, sequenceNumber, timestamp, headerOffset, data[..Size()], isRtx, resentMillis)
    }

    constructor (p: RtpPacket)
      requires HeaderFits(p.headerOffset, p.data)
      ensures Valid() && fresh(data)
      ensures View() == Stored(p.ssrc, p.sequenceNumber, p.timestamp, p.headerOffset, p.data, false, 0)
    {
      ssrc := p.ssrc;
      sequenceNumber := p.sequenceNumber;
      size := |p.data|;
      var bytes := new Byte[|p.data| + RTX_EXTRA_SIZE];
      data := bytes;
      timestamp := p.timestamp;
      headerOffset := p.headerOffset;
      resentMillis := 0;
      isRtx := false;
      new;
      CopyInto(data, 0, p.data);
    }

    method SetResendMillisecs(millisecs: UInt64)
      requires Valid()
      modifies `resentMillis
      ensures View() == old(View()).(resentMillis := millisecs)
    {
      resentMillis := millisecs;
    }

    /** The memmove that makes room for the OSN: source and destination overlap, every byte
        is read before it is overwritten. */
    method InsertOsn()
      requires Valid()
      modifies data
      ensures var b := old(data[..size]);
              data[..] == b[..headerOffset] + (b[2..4] + b[headerOffset..])
    {
      var payloadLen := size - headerOffset;
      forall i | 0 <= i < payloadLen {
        data[headerOffset + 2 + i] := data[headerOffset + i];
      }
      data[headerOffset], data[headerOffset + 1] := data[2], data[3];
    }

    method SetIdentity(rtxSsrc: UInt32, seqnum: UInt16, payloadType: Byte)
      requires Valid()
      modifies data
      ensures data[..] == WithIdentity(old(data[..]), rtxSsrc, seqnum, payloadType)
    {
      SetSSrc(data, rtxSsrc);
      SetSeqNum(data, seqnum);
      SetPayloadType(data, payloadType);
    }

    method MakeRtxPacket(rtxSsrc: UInt32, seqnum: UInt16, payloadType: Byte)
      requires Valid()
      modifies `isRtx, data
      ensures View() == MadeRtx(old(View()), rtxSsrc, seqnum, payloadType)
    {
      if !isRtx {
        InsertOsn();
        SetIdentity(rtxSsrc, seqnum, payloadType);
      } else {
        SetSeqNum(data, seqnum);
      }
      isRtx := true;
      assert data[..Size()] == data[..];
    }
  }
}
