/** What the RTCP parsers return: NACK decoding, the framing of compound packets, and
    what a successful parse has consumed. */
module RtcpFraming {
  import opened Bytes
  import opened Rtcp

  // ----- NACK items -----

  predicate Bit(mask: nat, i: nat)
    decreases i
  {
    if i == 0 then mask % 2 == 1 else Bit(mask / 2, i - 1)
  }

  /** The positions of the set bits, counted from `at`. */
  function SetBits(mask: nat, at: nat): seq<nat>
    decreases mask
  {
    if mask == 0 then []
    else (if mask % 2 == 1 then [at] else []) + SetBits(mask / 2, at + 1)
  }

  ghost predicate Increasing(s: seq<nat>) {
    forall k, l :: 0 <= k < l < |s| ==> s[k] < s[l]
  }

  lemma IncreasingCons(x: nat, s: seq<nat>)
    requires Increasing(s) && forall i :: i in s ==> x < i
    ensures Increasing([x] + s)
  {
    assert forall k :: 0 <= k < |s| ==> s[k] in s;
  }

  /** Exactly the set bits, each once, lowest first. */
  lemma {:induction false} SetBitsAreBits(mask: nat, at: nat, n: nat)
    requires mask < Pow2(n)
    ensures Increasing(SetBits(mask, at))
    ensures forall i :: i in SetBits(mask, at) <==> at <= i < at + n && Bit(mask, i - at)
    decreases n
  {
    if n > 0 {
      SetBitsAreBits(mask / 2, at + 1, n - 1);
      var rest := SetBits(mask / 2, at + 1);
      IncreasingCons(at, rest);
      forall i
        ensures i in SetBits(mask, at) <==> at <= i < at + n && Bit(mask, i - at)
      {
        assert i in SetBits(mask, at) <==> (mask % 2 == 1 && i == at) || i in rest;
      }
    }
  }

  lemma {:induction false} ExpandAtBits(pid: UInt16, mask: UInt16, at: nat)
    ensures var r, bits := Expand(Next(pid, at), mask), SetBits(mask, at);
            |r| == |bits| && forall k :: 0 <= k < |bits| ==> r[k] == Next(pid, bits[k])
    decreases mask
  {
    if mask != 0 {
      AddModulo16(pid + at, 1);
      ExpandAtBits(pid, mask / 2, at + 1);
    }
  }

  lemma NextInjective(pid: UInt16, a: nat, b: nat)
    requires a < b < a + TWO_TO_16
    ensures Next(pid, a) != Next(pid, b)
  {
  }

  lemma DistinctNumbers(pid: UInt16, bits: seq<nat>, r: seq<UInt16>)
    requires Increasing(bits) && forall i :: i in bits ==> 1 <= i <= 16
    requires |r| == 1 + |bits| && r[0] == pid && forall k :: 0 <= k < |bits| ==> r[k + 1] == Next(pid, bits[k])
    ensures forall k, l :: 0 <= k < l < |r| ==> r[k] != r[l]
  {
    forall k, l | 0 <= k < l < |r|
      ensures r[k] != r[l]
    {
      var a, b := if k == 0 then 0 else bits[k - 1], bits[l - 1];
      assert bits[l - 1] in bits && r[l] == r[l - 1 + 1];
      assert k > 0 ==> bits[k - 1] < bits[l - 1] && r[k] == r[k - 1 + 1];
      NextInjective(pid, a, b);
    }
  }

  lemma Pow2Of16()
    ensures Pow2(16) == TWO_TO_16
  {
    assert Pow2(4) == 16;
    assert Pow2(8) == 256;
    assert Pow2(12) == 4096;
  }

  /** Section 6.2.1 of RFC 4585: an item asks for PID, and then for PID + i modulo 2^16 for
      exactly the bits i of the BLP, counted from 1, in ascending order; all these numbers
      are distinct. */
  lemma ItemMeaning(pid: UInt16, blp: UInt16)
    ensures var r, bits := ItemNumbers(pid, blp), SetBits(blp, 1);
            && |r| == 1 + |bits| && r[0] == pid
            && (forall k :: 0 <= k < |bits| ==> r[k + 1] == Next(pid, bits[k]))
            && Increasing(bits)
            && (forall i :: i in bits <==> 1 <= i <= 16 && Bit(blp, i - 1))
            && (forall k, l :: 0 <= k < l < |r| ==> r[k] != r[l])
  {
    hide SetBits, Expand, Pow2, Bit;
    Pow2Of16();
    SetBitsAreBits(blp, 1, 16);
    ExpandAtBits(pid, blp, 1);
    DistinctNumbers(pid, SetBits(blp, 1), ItemNumbers(pid, blp));
  }

  // ----- what a successful parse has consumed -----

  /** A NACK parses if and only if its length field covers the two SSRCs and lies within the
      buffer; then exactly 4 * (length + 1) bytes are consumed. A shorter length makes the
      item count underflow, and the loop runs into the end of the buffer, whose size is an int. */
  lemma NackConsumes(s: seq<Byte>, pos: nat)
    requires pos + 4 <= |s| < 0x8000_0000
    ensures var length := HeaderAt(s, pos).length;
            && (ParseNack(s, pos).Parsed? <==> length >= 2 && pos + 4 * (length + 1) <= |s|)
            && (ParseNack(s, pos).Parsed? ==> ParseNack(s, pos).next == pos + 4 * (length + 1))
  {
  }

  /** A receiver report parses if and only if its blocks lie within the buffer; the length field
      plays no part, so what is consumed is what the header announces only for 1 + 6 * count. */
  lemma ReportConsumes(s: seq<Byte>, pos: nat)
    requires pos + 4 <= |s|
    ensures var h, r := HeaderAt(s, pos), ParseReceiverReport(s, pos);
            && (r.Parsed? <==> pos + 8 + 24 * h.countOrFormat <= |s|)
            && (r.Parsed? ==> |r.packet.blocks| == h.countOrFormat)
            && (r.Parsed? ==> (r.next == pos + 4 * (h.length + 1) <==> h.length == 1 + 6 * h.countOrFormat))
  {
    if pos + 8 + 24 * HeaderAt(s, pos).countOrFormat <= |s| {
      BlockCount(s, pos + 8, HeaderAt(s, pos).countOrFormat);
    }
  }

  /** A report without blocks whose header announces 24 bytes: 8 are consumed. */
  lemma ReportLengthIgnored()
    ensures var s := [0x80, 201, 0, 5, 0, 0, 0, 7];
            && HeaderAt(s, 0).length == 5
            && ParseReceiverReport(s, 0) == Parsed(ReceiverReport(HeaderAt(s, 0), 7, []), 8)
  {
  }

  lemma {:induction false} BlockCount(s: seq<Byte>, pos: nat, n: nat)
    requires pos + 24 * n <= |s|
    ensures |ReportBlocksAt(s, pos, n)| == n
  {
    if n > 0 {
      BlockCount(s, pos, n - 1);
    }
  }

  /** The bytes a parsed packet occupied. */
  function WireSize(p: RtcpPacket): (n: nat)
    ensures n % 4 == 0
  {
    if p.ReceiverReport? then 8 + 24 * p.header.countOrFormat else 4 * (p.header.length + 1)
  }

  function TotalWireSize(ps: seq<RtcpPacket>): (n: nat)
    ensures n % 4 == 0
  {
    if ps == [] then 0 else WireSize(ps[0]) + TotalWireSize(ps[1..])
  }

  lemma OneConsumes(s: seq<Byte>, pos: nat)
    requires pos + 2 <= |s| < 0x8000_0000
    ensures var r := ParseOne(s, pos);
            r.Parsed? ==> r.next == pos + WireSize(r.packet)
  {
    if pos + 4 <= |s| {
      NackConsumes(s, pos);
    }
  }

  lemma TotalOfCons(p: RtcpPacket, rest: seq<RtcpPacket>)
    ensures TotalWireSize([p] + rest) == WireSize(p) + TotalWireSize(rest)
  {
    assert ([p] + rest)[1..] == rest;
  }

  /** On any input: the packets of a successful compound parse account for every byte but at
      most one, in multiples of four. */
  lemma {:induction false} AllConsumed(s: seq<Byte>, pos: nat)
    requires pos <= |s| < 0x8000_0000
    ensures ParseAll(s, pos).Some? ==>
              0 <= |s| - pos - TotalWireSize(ParseAll(s, pos).value) <= 1
    decreases |s| - pos
  {
    if |s| - pos >= 2 {
      var p := ParseOne(s, pos);
      if p.Parsed? && ParseAll(s, p.next).Some? {
        OneConsumes(s, pos);
        AllConsumed(s, p.next);
        TotalOfCons(p.packet, ParseAll(s, p.next).value);
      }
    }
  }

  // ----- compound framing -----

  /** Well-formed packets as a peer writes them; `top` are the version and padding bits. */
  datatype Wire =
    | WireNack(top: Byte, senderSsrc: UInt32, mediaSsrc: UInt32, items: seq<Item>)
    | WireReport(top: Byte, senderSsrc: UInt32, blocks: seq<ReportBlock>)
    | WirePlain(top: Byte, countOrFormat: Byte, packetType: Byte, payload: seq<Byte>)

  datatype Item = Item(pid: UInt16, blp: UInt16)

  predicate Fits(w: Wire) {
    w.top < 8 &&
    match w
    case WireNack(_, _, _, items) => 2 + |items| < TWO_TO_16
    case WireReport(_, _, blocks) => |blocks| < 32
    case WirePlain(_, countOrFormat, packetType, payload) =>
      && countOrFormat < 32 && |payload| % 4 == 0 && |payload| / 4 < TWO_TO_16
      && packetType != 201 && !(packetType == 205 && countOrFormat == 1)
  }

  /** The header the wire form announces; a report's length is 1 + 6 * count. */
  function HeaderOf(w: Wire): Header
    requires Fits(w)
  {
    match w
    case WireNack(top, _, _, items) => Header(1, top % 2, top / 2, 205, 2 + |items|)
    case WireReport(top, _, blocks) => Header(|blocks|, top % 2, top / 2, 201, 1 + 6 * |blocks|)
    case WirePlain(top, c, t, payload) => Header(c, top % 2, top / 2, t, |payload| / 4)
  }

  function EncodeHeader(h: Header): (r: seq<Byte>)
    requires h.countOrFormat < 0x20 && h.padding < 2 && h.version < 4
    ensures |r| == 4
  {
    [h.version * 0x40 + h.padding * 0x20 + h.countOrFormat, h.packetType] + UInt16Bytes(h.length)
  }

  function EncodeItems(items: seq<Item>): (r: seq<Byte>)
    ensures |r| == 4 * |items|
  {
    if items == [] then []
    else
      var last := |items| - 1;
      EncodeItems(items[..last]) + (UInt16Bytes(items[last].pid) + UInt16Bytes(items[last].blp))
  }

  function EncodeBlock(b: ReportBlock): (r: seq<Byte>)
    ensures |r| == 24
  {
    UInt32Bytes(b.sourceSsrc) + ([b.fractionLost] + UInt24Bytes(b.cumulativeLost))
    + (UInt32Bytes(b.extendedHighSeqNum) + UInt32Bytes(b.jitter))
    + (UInt32Bytes(b.lastSr) + UInt32Bytes(b.delaySinceLastSr))
  }

  function EncodeBlocks(blocks: seq<ReportBlock>): (r: seq<Byte>)
    ensures |r| == 24 * |blocks|
  {
    if blocks == [] then []
    else
      var last := |blocks| - 1;
      EncodeBlocks(blocks[..last]) + EncodeBlock(blocks[last])
  }

  function Body(w: Wire): seq<Byte>
    requires Fits(w)
  {
    match w
    case WireNack(_, sender, media, items) => UInt32Bytes(sender) + (UInt32Bytes(media) + EncodeItems(items))
    case WireReport(_, sender, blocks) => UInt32Bytes(sender) + EncodeBlocks(blocks)
    case WirePlain(_, _, _, payload) => payload
  }

  function Encode(w: Wire): (r: seq<Byte>)
    requires Fits(w)
    ensures |r| == 4 + |Body(w)|
  {
    EncodeHeader(HeaderOf(w)) + Body(w)
  }

  function Requested(items: seq<Item>): seq<UInt16> {
    if items == [] then []
    else
      var last := |items| - 1;
      Requested(items[..last]) + ItemNumbers(items[last].pid, items[last].blp)
  }

  /** What a parser should make of a wire packet. */
  function Meaning(w: Wire): RtcpPacket
    requires Fits(w)
  {
    match w
    case WireNack(_, sender, media, items) => Nack(HeaderOf(w), sender, media, Requested(items))
    case WireReport(_, sender, blocks) => ReceiverReport(HeaderOf(w), sender, blocks)
    case WirePlain(_, _, _, _) => Plain(HeaderOf(w))
  }

  /** A NACK asks for the numbers of all its items, item by item. */
  lemma {:induction false} RequestedInOrder(items: seq<Item>, k: nat)
    requires k < |items|
    ensures Requested([]) == []
    ensures Requested(items)
            == Requested(items[..k]) + ItemNumbers(items[k].pid, items[k].blp) + Requested(items[k + 1..])
    decreases |items|
  {
    hide ItemNumbers;
    var front := items[..|items| - 1];
    if k < |front| {
      RequestedInOrder(front, k);
      assert front[..k] == items[..k];
      assert front[k + 1..] == items[k + 1..][..|items[k + 1..]| - 1];
    } else {
      assert front == items[..k];
    }
  }

  lemma HeaderDecoded(s: seq<Byte>, pos: nat, h: Header)
    requires h.countOrFormat < 0x20 && h.padding < 2 && h.version < 4
    requires At(s, pos, EncodeHeader(h))
    ensures HeaderAt(s, pos) == h
  {
    AtBoth(s, pos, [h.version * 0x40 + h.padding * 0x20 + h.countOrFormat, h.packetType], UInt16Bytes(h.length));
    var first := s[pos..pos + 2];
    assert s[pos] == first[0] && s[pos + 1] == first[1];
    LoadOfBytes16(s, pos + 2, h.length);
  }

  lemma {:induction false} ItemsDecoded(s: seq<Byte>, pos: nat, items: seq<Item>)
    requires At(s, pos, EncodeItems(items))
    ensures LostNumbersAt(s, pos, |items|) == Requested(items)
    decreases |items|
  {
    if items != [] {
      var last := |items| - 1;
      var at := pos + 4 * last;
      AtBoth(s, pos, EncodeItems(items[..last]), UInt16Bytes(items[last].pid) + UInt16Bytes(items[last].blp));
      AtBoth(s, at, UInt16Bytes(items[last].pid), UInt16Bytes(items[last].blp));
      LoadOfBytes16(s, at, items[last].pid);
      LoadOfBytes16(s, at + 2, items[last].blp);
      ItemsDecoded(s, pos, items[..last]);
    }
  }

  lemma BlockDecoded(s: seq<Byte>, pos: nat, b: ReportBlock)
    requires At(s, pos, EncodeBlock(b))
    ensures ReportBlockAt(s, pos) == b
  {
    var x := UInt32Bytes(b.sourceSsrc) + ([b.fractionLost] + UInt24Bytes(b.cumulativeLost));
    var y := UInt32Bytes(b.extendedHighSeqNum) + UInt32Bytes(b.jitter);
    var z := UInt32Bytes(b.lastSr) + UInt32Bytes(b.delaySinceLastSr);
    AtBoth(s, pos, x + y, z);
    AtBoth(s, pos, x, y);
    AtBoth(s, pos, UInt32Bytes(b.sourceSsrc), [b.fractionLost] + UInt24Bytes(b.cumulativeLost));
    AtBoth(s, pos + 4, [b.fractionLost], UInt24Bytes(b.cumulativeLost));
    AtBoth(s, pos + 8, UInt32Bytes(b.extendedHighSeqNum), UInt32Bytes(b.jitter));
    AtBoth(s, pos + 16, UInt32Bytes(b.lastSr), UInt32Bytes(b.delaySinceLastSr));
    LoadOfBytes32(s, pos, b.sourceSsrc);
    assert s[pos + 4] == s[pos + 4..pos + 5][0];
    LoadOfBytes24(s, pos + 5, b.cumulativeLost);
    LoadOfBytes32(s, pos + 8, b.extendedHighSeqNum);
    LoadOfBytes32(s, pos + 12, b.jitter);
    LoadOfBytes32(s, pos + 16, b.lastSr);
    LoadOfBytes32(s, pos + 20, b.delaySinceLastSr);
  }

  lemma FrontAndLast<T>(s: seq<T>)
    requires s != []
    ensures s == s[..|s| - 1] + [s[|s| - 1]]
  {
  }

  lemma LastBlockDecoded(s: seq<Byte>, pos: nat, front: seq<Byte>, b: ReportBlock)
    requires At(s, pos, front + EncodeBlock(b))
    ensures At(s, pos, front) && ReportBlockAt(s, pos + |front|) == b
  {
    hide EncodeBlock, ReportBlockAt;
    AtBoth(s, pos, front, EncodeBlock(b));
    BlockDecoded(s, pos + |front|, b);
  }

  lemma {:induction false} BlocksDecoded(s: seq<Byte>, pos: nat, blocks: seq<ReportBlock>)
    requires At(s, pos, EncodeBlocks(blocks))
    ensures ReportBlocksAt(s, pos, |blocks|) == blocks
    decreases |blocks|
  {
    hide EncodeBlock, ReportBlockAt;
    if blocks != [] {
      var last := |blocks| - 1;
      LastBlockDecoded(s, pos, EncodeBlocks(blocks[..last]), blocks[last]);
      BlocksDecoded(s, pos, blocks[..last]);
      FrontAndLast(blocks);
    }
  }

  lemma NackDecoded(s: seq<Byte>, pos: nat, sender: UInt32, media: UInt32, items: seq<Item>)
    requires pos + 12 + 4 * |items| <= |s| && HeaderAt(s, pos).length == 2 + |items|
    requires LoadUInt32BE(s, pos + 4) == sender && LoadUInt32BE(s, pos + 8) == media
    requires At(s, pos + 12, EncodeItems(items))
    ensures ParseNack(s, pos) == Parsed(Nack(HeaderAt(s, pos), sender, media, Requested(items)), pos + 12 + 4 * |items|)
  {
    hide LostNumbersAt, EncodeItems, Requested;
    ItemsDecoded(s, pos + 12, items);
  }

  lemma ReportDecoded(s: seq<Byte>, pos: nat, sender: UInt32, blocks: seq<ReportBlock>)
    requires pos + 8 + 24 * |blocks| <= |s| && HeaderAt(s, pos).countOrFormat == |blocks|
    requires LoadUInt32BE(s, pos + 4) == sender
    requires At(s, pos + 8, EncodeBlocks(blocks))
    ensures ParseReceiverReport(s, pos)
            == Parsed(ReceiverReport(HeaderAt(s, pos), sender, blocks), pos + 8 + 24 * |blocks|)
  {
    hide ReportBlocksAt, EncodeBlocks;
    BlocksDecoded(s, pos + 8, blocks);
  }

  lemma HeaderAndBody(s: seq<Byte>, pos: nat, h: Header, body: seq<Byte>)
    requires h.countOrFormat < 0x20 && h.padding < 2 && h.version < 4
    requires At(s, pos, EncodeHeader(h) + body)
    ensures pos + 4 <= |s| && HeaderAt(s, pos) == h && At(s, pos + 4, body)
  {
    AtBoth(s, pos, EncodeHeader(h), body);
    HeaderDecoded(s, pos, h);
  }

  /** One well-formed packet anywhere in a buffer parses to its meaning, and the cursor
      ends right behind it. */
  lemma OneDecoded(s: seq<Byte>, pos: nat, w: Wire)
    requires Fits(w) && At(s, pos, Encode(w))
    ensures ParseOne(s, pos) == Parsed(Meaning(w), pos + 4 + |Body(w)|)
  {
    hide ParseNack, ParseReceiverReport, EncodeHeader, EncodeItems, EncodeBlocks, Requested;
    HeaderAndBody(s, pos, HeaderOf(w), Body(w));
    match w
    case WireNack(_, sender, media, items) =>
      WordAt(s, pos + 4, sender, UInt32Bytes(media) + EncodeItems(items));
      WordAt(s, pos + 8, media, EncodeItems(items));
      NackDecoded(s, pos, sender, media, items);
    case WireReport(_, sender, blocks) =>
      WordAt(s, pos + 4, sender, EncodeBlocks(blocks));
      ReportDecoded(s, pos, sender, blocks);
    case WirePlain(_, _, _, payload) =>
      assert ParsePlain(s, pos) == Parsed(Plain(HeaderOf(w)), pos + 4 + |payload|);
  }

  predicate AllFit(ws: seq<Wire>) {
    forall k :: 0 <= k < |ws| ==> Fits(ws[k])
  }

  function EncodeAll(ws: seq<Wire>): seq<Byte>
    requires AllFit(ws)
  {
    if ws == [] then [] else Encode(ws[0]) + EncodeAll(ws[1..])
  }

  function Meanings(ws: seq<Wire>): seq<RtcpPacket>
    requires AllFit(ws)
  {
    if ws == [] then [] else [Meaning(ws[0])] + Meanings(ws[1..])
  }

  lemma RestOf(s: seq<Byte>, pos: nat, e: seq<Byte>, rest: seq<Byte>)
    requires pos <= |s| && s[pos..] == e + rest
    ensures At(s, pos, e) && s[pos + |e|..] == rest
  {
    var t := s[pos..];
    assert t[..|e|] == e && t[|e|..] == rest;
    assert s[pos..pos + |e|] == t[..|e|] && s[pos + |e|..] == t[|e|..];
  }

  lemma FirstDecoded(s: seq<Byte>, pos: nat, w: Wire, rest: seq<Byte>)
    requires Fits(w) && pos <= |s| && s[pos..] == Encode(w) + rest
    ensures var next := pos + |Encode(w)|;
            next <= |s| && s[next..] == rest && ParseAll(s, pos) == Prepend([Meaning(w)], ParseAll(s, next))
  {
    hide ParseOne, Encode, Body, Meaning;
    RestOf(s, pos, Encode(w), rest);
    OneDecoded(s, pos, w);
  }

  lemma {:induction false} AllDecoded(s: seq<Byte>, pos: nat, ws: seq<Wire>)
    requires AllFit(ws) && pos <= |s| && s[pos..] == EncodeAll(ws)
    ensures ParseAll(s, pos) == Some(Meanings(ws))
    decreases |ws|
  {
    hide ParseOne, Encode, Body, Meaning;
    if ws != [] {
      FirstDecoded(s, pos, ws[0], EncodeAll(ws[1..]));
      AllDecoded(s, pos + |Encode(ws[0])|, ws[1..]);
    }
  }

  /** Parsing a compound of any well-formed packets returns exactly those packets. */
  lemma CompoundRoundTrip(ws: seq<Wire>)
    requires AllFit(ws)
    ensures ParseAll(EncodeAll(ws), 0) == Some(Meanings(ws))
    ensures |Meanings(ws)| == |ws| && forall k :: 0 <= k < |ws| ==> Meanings(ws)[k] == Meaning(ws[k])
  {
    hide Meaning, ParseAll, Encode;
    var s := EncodeAll(ws);
    assert s[0..] == s;
    AllDecoded(s, 0, ws);
    forall k | 0 <= k < |ws|
      ensures Meanings(ws)[k] == Meaning(ws[k])
    {
      MeaningAt(ws, k);
    }
    MeaningsAreAll(ws);
  }

  lemma {:induction false} MeaningsAreAll(ws: seq<Wire>)
    requires AllFit(ws)
    ensures |Meanings(ws)| == |ws|
    decreases |ws|
  {
    hide Meaning;
    if ws != [] {
      MeaningsAreAll(ws[1..]);
    }
  }

  lemma {:induction false} MeaningAt(ws: seq<Wire>, k: nat)
    requires AllFit(ws) && k < |ws|
    ensures |Meanings(ws)| == |ws| && Meanings(ws)[k] == Meaning(ws[k])
    decreases |ws|
  {
    hide Meaning;
    MeaningsAreAll(ws);
    if k > 0 {
      MeaningAt(ws[1..], k - 1);
    }
  }
}
