/** Worked examples: the bytes on the wire for one small frame, its retransmission, the feedback
    about it, and a STUN request. */
module Examples {
  import opened Bytes
  import opened AnnexB
  import opened RtpPacketizer
  import opened Stun
  import opened StunProofs
  import Rtcp
  import RtxPacket

  const UNIT: Unit := Unit(false, [0x65, 0xAB])

  lemma FrameOfUnit()
    ensures ParsedUnits([0, 0, 1, 0x65, 0xAB]) == [UNIT] && FramePayloads([UNIT]) == [[0x65, 0xAB]]
  {
    assert Stream([UNIT]) == [0, 0, 1, 0x65, 0xAB] by {
      assert [UNIT][..0] == [];
    }
    ParseOfStream([UNIT]);
    assert [UNIT][..0] == [];
  }

  /** A frame of one NALU: its packet carries version 2, marker and payload type 96, number 7,
      timestamp 90000 and the SSRC, each in its place. */
  lemma FrameBytes()
    ensures FramePackets(Config(0x11223344, 96), [0, 0, 1, 0x65, 0xAB], 7, 90000)
            == [RtpPacket(0x11223344, 7, 90000, 12,
                          [0x80, 0xE0, 0, 7, 0, 1, 0x5F, 0x90, 0x11, 0x22, 0x33, 0x44, 0x65, 0xAB])]
  {
    FrameOfUnit();
    hide FramePayloads, ParsedUnits;
    var packets := Numbered(Config(0x11223344, 96), [[0x65, 0xAB]], 7, 90000, 1);
    assert packets == [packets[0]];
    assert packets[0].data == [0x80, 0xE0, 0, 7, 0, 1, 0x5F, 0x90, 0x11, 0x22, 0x33, 0x44, 0x65, 0xAB];
  }

  /** The same packet resent as packet 258 of RTX stream 5 with payload type 97: number 7 moves in
      front of the payload. */
  lemma RtxFrameBytes(s: seq<Byte>)
    requires s == [0x80, 0xE0, 0, 7, 0, 1, 0x5F, 0x90, 0x11, 0x22, 0x33, 0x44, 0x65, 0xAB]
    ensures RtxPacket.RtxBytes(s, 12, 5, 258, 97)
            == [0x80, 0xE1, 1, 2, 0, 1, 0x5F, 0x90, 0, 0, 0, 5, 0, 7, 0x65, 0xAB]
  {
    hide RtxPacket.RtxBytes, UInt16Bytes, UInt32Bytes, LoadUInt16BE, LoadUInt32BE, RtxPacket.WithIdentity;
    IdentityBytes(s);
    assert s[2..4] == [0, 7] && s[4..8] == [0, 1, 0x5F, 0x90] && s[12..] == [0x65, 0xAB];
  }

  lemma IdentityBytes(s: seq<Byte>)
    requires |s| >= 14 && s[0] == 0x80 && s[1] == 0xE0
    ensures RtxPacket.RtxBytes(s, 12, 5, 258, 97)
            == [0x80, 0xE1, 1, 2] + s[4..8] + [0, 0, 0, 5] + s[2..4] + s[12..]
  {
    hide RtxPacket.WithIdentity;
    var rest := s[2..4] + s[12..];
    IdentityInPlace(s[..12] + rest);
    assert (s[..12] + rest)[4..8] == s[4..8] && (s[..12] + rest)[12..] == rest;
  }

  lemma IdentityInPlace(b: seq<Byte>)
    requires |b| >= 12 && b[0] == 0x80 && b[1] == 0xE0
    ensures RtxPacket.WithIdentity(b, 5, 258, 97) == [0x80, 0xE1, 1, 2] + b[4..8] + [0, 0, 0, 5] + b[12..]
  {
    assert UInt16Bytes(258) == [1, 2] && UInt32Bytes(5) == [0, 0, 0, 5];
    hide UInt16Bytes, UInt32Bytes, RtxPacket.WithIdentity;
  }

  /** A NACK from 1 about 2 for packet 7 and, in its bit mask, for 8 and 10. */
  lemma NackBytes()
    ensures Rtcp.ParseAll([0x81, 205, 0, 3, 0, 0, 0, 1, 0, 0, 0, 2, 0, 7, 0, 5], 0)
            == Some([Rtcp.Nack(Rtcp.Header(1, 0, 2, 205, 3), 1, 2, [7, 8, 10])])
  {
    hide Rtcp.Expand, Rtcp.LostNumbersAt;
    var s: seq<Byte> := [0x81, 205, 0, 3, 0, 0, 0, 1, 0, 0, 0, 2, 0, 7, 0, 5];
    MaskBits();
    OneItem(s, 12);
    assert Rtcp.HeaderAt(s, 0) == Rtcp.Header(1, 0, 2, 205, 3);
    assert LoadUInt32BE(s, 4) == 1 && LoadUInt32BE(s, 8) == 2;
    assert Rtcp.LostNumbersAt(s, 12, 1) == [7, 8, 10];
    var packet := Rtcp.Nack(Rtcp.Header(1, 0, 2, 205, 3), 1, 2, [7, 8, 10]);
    assert Rtcp.ParseOne(s, 0) == Rtcp.Parsed(packet, 16);
    assert Rtcp.ParseAll(s, 16) == Some([]) && [packet] + [] == [packet];
  }

  lemma MaskBits()
    ensures Rtcp.Expand(8, 5) == [8, 10]
  {
    assert Rtcp.Expand(11, 0) == [];
    assert Rtcp.Expand(10, 1) == [10];
    assert Rtcp.Expand(9, 2) == [10];
  }

  lemma OneItem(s: seq<Byte>, pos: nat)
    requires pos + 4 <= |s|
    ensures Rtcp.LostNumbersAt(s, pos, 1) == Rtcp.ItemNumbers(LoadUInt16BE(s, pos), LoadUInt16BE(s, pos + 2))
  {
    assert Rtcp.LostNumbersAt(s, pos, 0) == [];
  }

  lemma OneBlock(s: seq<Byte>, pos: nat)
    requires pos + 24 <= |s|
    ensures Rtcp.ReportBlocksAt(s, pos, 1) == [Rtcp.ReportBlockAt(s, pos)]
  {
    assert Rtcp.ReportBlocksAt(s, pos, 0) == [];
  }

  /** A receiver report from 1 with one block about 2. */
  lemma ReportBytes(s: seq<Byte>)
    requires s == [0x81, 201, 0, 7, 0, 0, 0, 1]
                  + [0, 0, 0, 2, 3, 0, 0, 4, 0, 0, 0, 5, 0, 0, 0, 6] + [0, 0, 0, 7, 0, 0, 0, 8]
    ensures Rtcp.ParseAll(s, 0)
            == Some([Rtcp.ReceiverReport(Rtcp.Header(1, 0, 2, 201, 7), 1,
                                         [Rtcp.ReportBlock(2, 3, 4, 5, 6, 7, 8)])])
  {
    hide Rtcp.ParseAll, LoadUInt24BE, LoadUInt16BE, LoadUInt32BE;
    SmallWords(s);
    OneReport(s);
  }

  lemma SmallWords(s: seq<Byte>)
    requires |s| == 32 && s[2] == s[9] == s[10] == s[13] == s[14] == 0
    requires s[4] == s[5] == s[6] == s[8] == s[16] == s[17] == s[18] == s[20] == s[21] == s[22] == 0
    requires s[24] == s[25] == s[26] == s[28] == s[29] == s[30] == 0
    ensures LoadUInt16BE(s, 2) == s[3] && LoadUInt32BE(s, 4) == s[7] && LoadUInt32BE(s, 8) == s[11]
    ensures LoadUInt24BE(s, 13) == s[15] && LoadUInt32BE(s, 16) == s[19] && LoadUInt32BE(s, 20) == s[23]
    ensures LoadUInt32BE(s, 24) == s[27] && LoadUInt32BE(s, 28) == s[31]
  {
  }

  lemma OneReport(s: seq<Byte>)
    requires |s| == 32 && s[0] == 0x81 && s[1] == 201 && LoadUInt16BE(s, 2) == 7
    ensures Rtcp.ParseAll(s, 0) == Some([Rtcp.ReceiverReport(
              Rtcp.Header(1, 0, 2, 201, 7), LoadUInt32BE(s, 4), [Rtcp.ReportBlockAt(s, 8)])])
  {
    hide Rtcp.ReportBlocksAt, Rtcp.ReportBlockAt, LoadUInt32BE, LoadUInt16BE;
    OneBlock(s, 8);
    var packet := Rtcp.ReceiverReport(
      Rtcp.Header(1, 0, 2, 201, 7), LoadUInt32BE(s, 4), [Rtcp.ReportBlockAt(s, 8)]);
    assert Rtcp.ParseOne(s, 0) == Rtcp.Parsed(packet, 32);
    assert Rtcp.ParseAll(s, 32) == Some([]) && [packet] + [] == [packet];
  }

  /** A STUN request with nothing but USE-CANDIDATE is accepted and sets the flag. */
  lemma NominationBytes(c: Credentials, id: seq<Byte>)
    requires |id| == 12
    ensures var s := [0, 1, 0, 4, 0x21, 0x12, 0xA4, 0x42] + id + [0, 0x25, 0, 0];
            && WalkOf(c, s, false).Accepted? && FlagOf(WalkOf(c, s, false))
            && Judge(c, s, false) == Verdict(true, s)
  {
    var s := [0, 1, 0, 4, 0x21, 0x12, 0xA4, 0x42] + id + [0, 0x25, 0, 0];
    var n := StartNotes(false);
    assert s[4..8] == [0x21, 0x12, 0xA4, 0x42] && s[20..] == [0, 0x25, 0, 0];
    assert s[20] == s[20..][0] && s[21] == s[20..][1] && s[22] == s[20..][2] && s[23] == s[20..][3];
    assert Attribute(c, s, 20, n) == Accepted(n.(useCandidate := true));
    assert Attributes(c, s, 24, n.(useCandidate := true)) == Accepted(n.(useCandidate := true));
  }
}
