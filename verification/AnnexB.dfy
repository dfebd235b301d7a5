/** H264RtpPacketizer::ParseNaluPositions: splitting an Annex B byte stream into NALUs. */
module AnnexB {
  import opened Bytes

  /** Where a NALU starts in the buffer, and its length. */
  datatype NaluPosition = NaluPosition(start: nat, length: nat)

  /** A start code 00 00 01 at i that the scan can see: it never reports one that is
      the last three bytes of the buffer. */
  predicate CodeAt(b: seq<Byte>, i: int) {
    0 <= i && i + 3 < |b| && b[i] == 0 && b[i + 1] == 0 && b[i + 2] == 1
  }

  /** Where the delimiter of the start code at c begins: one zero before it belongs to it. */
  function DelimiterStart(b: seq<Byte>, c: nat): nat
    requires c < |b|
  {
    if c > 0 && b[c - 1] == 0 then c - 1 else c
  }

  /** An open NALU: it starts right after a start code, at or before offset i. */
  predicate OpenBefore(b: seq<Byte>, open: Option<nat>, i: nat) {
    open.Some? ==> 0 < open.value <= i && open.value <= |b| && b[open.value - 1] == 1
  }

  /** What the naive scan reports from offset i on, testing every offset, when the NALU
      starting at `open` is not closed yet. */
  function Scan(b: seq<Byte>, open: Option<nat>, i: nat): (r: seq<NaluPosition>)
    requires OpenBefore(b, open, i)
    decreases |b| - i
  {
    if i + 3 >= |b| then Close(open, |b|)
    else if CodeAt(b, i) then
      Close(open, DelimiterStart(b, i)) + Scan(b, Some(i + 3), i + 3)
    else Scan(b, open, i + 1)
  }

  function Close(open: Option<nat>, end: nat): seq<NaluPosition>
    requires open.Some? ==> open.value <= end
  {
    if open.None? then [] else [NaluPosition(open.value, end - open.value)]
  }

  function NaluPositions(b: seq<Byte>): seq<NaluPosition> {
    Scan(b, None, 0)
  }

  lemma {:induction false} SkipScan(b: seq<Byte>, open: Option<nat>, i: nat, j: nat)
    requires OpenBefore(b, open, i)
    requires i <= j && forall k :: i <= k < j ==> !CodeAt(b, k)
    ensures OpenBefore(b, open, j)
    ensures Scan(b, open, i) == Scan(b, open, j)
    decreases j - i
  {
    if i < j {
      SkipScan(b, open, i + 1, j);
    }
  }

  /** The scan of the source: it moves by three whenever the third byte rules out a
      start code at the next two offsets. */
  method ParseNaluPositions(buffer: seq<Byte>) returns (sequences: seq<NaluPosition>)
    ensures sequences == NaluPositions(buffer)
  {
    sequences := [];
    if |buffer| < 3 {
      return;
    }
    var end := |buffer| - 3;
    var i := 0;
    ghost var closed: seq<NaluPosition>, open: Option<nat> := [], None;
    while i < end
      invariant 0 <= i && OpenBefore(buffer, open, i)
      invariant open.None? ==> closed == []
      invariant sequences == closed + (if open.Some? then [NaluPosition(open.value, 0)] else [])
      invariant closed + Scan(buffer, open, i) == NaluPositions(buffer)
    {
      if buffer[i + 2] > 1 {
        SkipScan(buffer, open, i, i + 3);
        i := i + 3;
      } else if buffer[i + 2] == 1 {
        if buffer[i + 1] == 0 && buffer[i] == 0 {
          var index := NaluPosition(i + 3, 0);
          var startOffset := i;
          if startOffset > 0 && buffer[startOffset - 1] == 0 {
            startOffset := startOffset - 1;
          }
          var last := |sequences| - 1;
          if last >= 0 {
            sequences := sequences[last := sequences[last].(length := startOffset - sequences[last].start)];
          }
          sequences := sequences + [index];
          closed, open := closed + Close(open, DelimiterStart(buffer, i)), Some(i + 3);
        } else {
          SkipScan(buffer, open, i, i + 3);
        }
        i := i + 3;
      } else {
        i := i + 1;
      }
    }
    var last := |sequences| - 1;
    if last >= 0 {
      sequences := sequences[last := sequences[last].(length := |buffer| - sequences[last].start)];
    }
  }

  // ----- the byte stream format: start codes and NALUs -----

  /** A NALU and the start code in front of it: 00 00 00 01 if `long`, else 00 00 01. */
  datatype Unit = Unit(long: bool, nalu: seq<Byte>)

  function StartCode(long: bool): seq<Byte> {
    if long then [0, 0, 0, 1] else [0, 0, 1]
  }

  /** Annex B of ITU-T H.264: every NALU after its start code. */
  function Stream(units: seq<Unit>): seq<Byte> {
    if units == [] then [] else StartCode(units[0].long) + (units[0].nalu + Stream(units[1..]))
  }

  /** The units the naive scan finds from offset i on, when the NALU at s is open and
      `long` tells the length of the start code in front of it. */
  function ScanUnits(b: seq<Byte>, long: bool, s: nat, i: nat): (r: seq<Unit>)
    requires OpenBefore(b, Some(s), i)
    ensures r != []
    decreases |b| - i
  {
    if i + 3 >= |b| then [Unit(long, b[s..])]
    else if CodeAt(b, i) then
      var d := DelimiterStart(b, i);
      [Unit(long, b[s..d])] + ScanUnits(b, d < i, i + 3, i + 3)
    else ScanUnits(b, long, s, i + 1)
  }

  /** The first start code at i or later; |b| if there is none. */
  function FirstCode(b: seq<Byte>, i: nat): (c: nat)
    requires i <= |b|
    ensures i <= c <= |b| && (c < |b| ==> CodeAt(b, c))
    ensures forall k :: i <= k < c ==> !CodeAt(b, k)
    decreases |b| - i
  {
    if i == |b| || CodeAt(b, i) then i else FirstCode(b, i + 1)
  }

  /** The units found in a buffer, and the bytes in front of the first of them. */
  function ParsedUnits(b: seq<Byte>): seq<Unit> {
    var c := FirstCode(b, 0);
    if c == |b| then [] else ScanUnits(b, DelimiterStart(b, c) < c, c + 3, c + 3)
  }

  function Prefix(b: seq<Byte>): seq<Byte> {
    var c := FirstCode(b, 0);
    if c == |b| then b else b[..DelimiterStart(b, c)]
  }

  /** The positions are, one by one, those of the units' NALUs. */
  predicate Locate(b: seq<Byte>, ps: seq<NaluPosition>, units: seq<Unit>) {
    |ps| == |units| && forall k :: 0 <= k < |ps| ==> NaluAt(b, ps[k], units[k].nalu)
  }

  predicate NaluAt(b: seq<Byte>, p: NaluPosition, nalu: seq<Byte>) {
    p.start + p.length <= |b| && b[p.start..p.start + p.length] == nalu
  }

  lemma LocateCons(b: seq<Byte>, p: NaluPosition, u: Unit, ps: seq<NaluPosition>, units: seq<Unit>)
    requires NaluAt(b, p, u.nalu) && Locate(b, ps, units)
    ensures Locate(b, [p] + ps, [u] + units)
  {
  }

  lemma LocateOne(b: seq<Byte>, p: NaluPosition, u: Unit)
    requires NaluAt(b, p, u.nalu)
    ensures Locate(b, [p], [u])
  {
  }

  lemma {:induction false} ScanFindsUnits(b: seq<Byte>, long: bool, s: nat, i: nat)
    requires OpenBefore(b, Some(s), i)
    ensures Locate(b, Scan(b, Some(s), i), ScanUnits(b, long, s, i))
    decreases |b| - i
  {
    hide Locate;
    if i + 3 >= |b| {
      assert b[s..|b|] == b[s..];
      LocateOne(b, NaluPosition(s, |b| - s), Unit(long, b[s..]));
    } else if CodeAt(b, i) {
      var d := DelimiterStart(b, i);
      ScanFindsUnits(b, d < i, i + 3, i + 3);
      LocateCons(b, NaluPosition(s, d - s), Unit(long, b[s..d]),
                 Scan(b, Some(i + 3), i + 3), ScanUnits(b, d < i, i + 3, i + 3));
    } else {
      ScanFindsUnits(b, long, s, i + 1);
    }
  }

  /** The positions the source reports are those of the parsed units' NALUs. */
  lemma PositionsOfUnits(b: seq<Byte>)
    ensures Locate(b, NaluPositions(b), ParsedUnits(b))
  {
    var c := FirstCode(b, 0);
    SkipScan(b, None, 0, c);
    if c < |b| {
      ScanFindsUnits(b, DelimiterStart(b, c) < c, c + 3, c + 3);
      assert NaluPositions(b) == Scan(b, Some(c + 3), c + 3);
    }
  }

  /** The reported NALUs start exactly behind the start codes a naive scan sees. */
  lemma {:induction false} StartsAreCodes(b: seq<Byte>, open: Option<nat>, i: nat, x: nat)
    requires OpenBefore(b, open, i)
    ensures (exists p :: p in Scan(b, open, i) && p.start == x)
            <==> open == Some(x) || (i + 3 <= x && CodeAt(b, x - 3))
    decreases |b| - i
  {
    if i + 3 >= |b| {
      assert open == Some(x) ==> NaluPosition(x, |b| - x) in Scan(b, open, i);
    } else if CodeAt(b, i) {
      StartsAreCodes(b, Some(i + 3), i + 3, x);
      var head, tail := Close(open, DelimiterStart(b, i)), Scan(b, Some(i + 3), i + 3);
      assert Scan(b, open, i) == head + tail;
      assert open == Some(x) ==> head[0] in head + tail;
      assert forall p :: p in head + tail <==> p in head || p in tail;
      assert i + 3 <= x && CodeAt(b, x - 3) ==> x == i + 3 || i + 6 <= x;
    } else {
      StartsAreCodes(b, open, i + 1, x);
    }
  }

  /** A NALU is reported at x exactly if x is three bytes behind a start code that the scan sees. */
  lemma ReportedStarts(b: seq<Byte>, x: nat)
    ensures (exists p :: p in NaluPositions(b) && p.start == x) <==> 3 <= x < |b| && b[x - 3..x] == [0, 0, 1]
  {
    StartsAreCodes(b, None, 0, x);
    if 3 <= x < |b| {
      var code := b[x - 3..x];
      assert code[0] == b[x - 3] && code[1] == b[x - 2] && code[2] == b[x - 1];
    }
  }

  lemma DelimiterBytes(b: seq<Byte>, s: nat, i: nat)
    requires CodeAt(b, i) && s <= DelimiterStart(b, i)
    ensures var d := DelimiterStart(b, i);
            b[s..] == b[s..d] + (StartCode(d < i) + b[i + 3..])
  {
    var d := DelimiterStart(b, i);
    assert b[d..i + 3] == StartCode(d < i);
    CutTwice(b, s, d, i + 3);
  }

  lemma CutTwice<T>(b: seq<T>, s: nat, d: nat, e: nat)
    requires s <= d <= e <= |b|
    ensures b[s..] == b[s..d] + (b[d..e] + b[e..])
  {
  }

  lemma StreamOfNone()
    ensures Stream([]) == []
  {
  }

  lemma StreamOfNonempty(units: seq<Unit>)
    requires units != []
    ensures Stream(units) == StartCode(units[0].long) + (units[0].nalu + Stream(units[1..]))
  {
  }

  /** Nothing is lost or invented: from the open NALU on, the found NALUs and the
      delimiters between them spell the buffer. */
  lemma {:induction false} ScanReassembles(b: seq<Byte>, long: bool, s: nat, i: nat)
    requires OpenBefore(b, Some(s), i)
    ensures var units := ScanUnits(b, long, s, i);
            units[0].long == long && b[s..] == units[0].nalu + Stream(units[1..])
    decreases |b| - i
  {
    hide Stream;
    if i + 3 >= |b| {
      StreamOfNone();
      assert ScanUnits(b, long, s, i)[1..] == [] && b[s..] + [] == b[s..];
    } else if CodeAt(b, i) {
      var d := DelimiterStart(b, i);
      var rest := ScanUnits(b, d < i, i + 3, i + 3);
      ScanReassembles(b, d < i, i + 3, i + 3);
      StreamOfNonempty(rest);
      DelimiterBytes(b, s, i);
      assert ([Unit(long, b[s..d])] + rest)[1..] == rest;
    } else {
      ScanReassembles(b, long, s, i + 1);
    }
  }

  /** The prefix, the delimiters and the NALUs concatenate back to the whole buffer. */
  lemma ParseReassembles(b: seq<Byte>)
    ensures b == Prefix(b) + Stream(ParsedUnits(b))
  {
    var c := FirstCode(b, 0);
    if c < |b| {
      var d := DelimiterStart(b, c);
      ScanReassembles(b, d < c, c + 3, c + 3);
      StreamOfNonempty(ParsedUnits(b));
      DelimiterBytes(b, 0, c);
      assert b[0..] == b;
    }
  }

  // ----- which unit lists survive the round trip -----

  predicate HasCode(n: seq<Byte>, i: int) {
    0 <= i && i + 3 <= |n| && n[i] == 0 && n[i + 1] == 0 && n[i + 2] == 1
  }

  /** A NALU that is the last of its stream: not empty, and with no start code except
      possibly as its last three bytes. */
  ghost predicate GoodLast(n: seq<Byte>) {
    n != [] && forall i :: HasCode(n, i) ==> i + 3 == |n|
  }

  /** A NALU in front of a start code: free of start codes, and not ending in the zero
      that a 3-byte start code behind it would take over. */
  ghost predicate GoodBefore(n: seq<Byte>, long: bool) {
    && (forall i :: !HasCode(n, i))
    && (!long && n != [] ==> n[|n| - 1] != 0)
  }

  ghost predicate Canonical(units: seq<Unit>)
    decreases |units|
  {
    if units == [] then true
    else if |units| == 1 then GoodLast(units[0].nalu)
    else GoodBefore(units[0].nalu, units[1].long) && Canonical(units[1..])
  }

  lemma NoCodeInside(b: seq<Byte>, s: nat, e: nat, i: nat)
    requires s <= e <= |b| && forall k :: s <= k < i ==> !CodeAt(b, k)
    requires e <= i + 1 || e == |b| <= i + 3
    ensures forall k :: HasCode(b[s..e], k) ==> e == |b| && k + 3 == e - s
  {
    forall k | HasCode(b[s..e], k)
      ensures e == |b| && k + 3 == e - s
    {
      assert s + k + 3 < |b| ==> CodeAt(b, s + k);
    }
  }

  lemma CanonicalCons(u: Unit, rest: seq<Unit>)
    requires rest != [] && GoodBefore(u.nalu, rest[0].long) && Canonical(rest)
    ensures Canonical([u] + rest)
  {
    assert ([u] + rest)[1..] == rest;
  }

  lemma ClosedIsGood(b: seq<Byte>, s: nat, i: nat)
    requires OpenBefore(b, Some(s), i) && CodeAt(b, i) && forall k :: s <= k < i ==> !CodeAt(b, k)
    ensures GoodBefore(b[s..DelimiterStart(b, i)], DelimiterStart(b, i) < i)
  {
    NoCodeInside(b, s, DelimiterStart(b, i), i);
  }

  lemma {:induction false} ScanIsCanonical(b: seq<Byte>, long: bool, s: nat, i: nat)
    requires s < |b| && OpenBefore(b, Some(s), i)
    requires forall k :: s <= k < i ==> !CodeAt(b, k)
    ensures Canonical(ScanUnits(b, long, s, i)) && ScanUnits(b, long, s, i)[0].long == long
    decreases |b| - i
  {
    if i + 3 >= |b| {
      assert b[s..|b|] == b[s..];
      NoCodeInside(b, s, |b|, i);
    } else if CodeAt(b, i) {
      var d := DelimiterStart(b, i);
      ScanIsCanonical(b, d < i, i + 3, i + 3);
      ClosedIsGood(b, s, i);
      CanonicalCons(Unit(long, b[s..d]), ScanUnits(b, d < i, i + 3, i + 3));
    } else {
      ScanIsCanonical(b, long, s, i + 1);
    }
  }

  /** No found NALU holds a start code, except the last one as its last three bytes. */
  lemma ParseIsCanonical(b: seq<Byte>)
    ensures Canonical(ParsedUnits(b))
  {
    var c := FirstCode(b, 0);
    if c < |b| {
      ScanIsCanonical(b, DelimiterStart(b, c) < c, c + 3, c + 3);
    }
  }

  /** The pieces of a stream that fills the buffer from offset e on. */
  lemma StreamParts(b: seq<Byte>, e: nat, units: seq<Unit>)
    requires e <= |b| && units != [] && b[e..] == Stream(units)
    ensures var s := e + |StartCode(units[0].long)|;
            var e' := s + |units[0].nalu|;
            && e' <= |b| && b[e..s] == StartCode(units[0].long)
            && b[s..e'] == units[0].nalu && b[e'..] == Stream(units[1..])
  {
    var code, n, rest := StartCode(units[0].long), units[0].nalu, Stream(units[1..]);
    StreamOfNonempty(units);
    SplitThree(b, e, code, n, rest);
  }

  lemma SplitThree(b: seq<Byte>, e: nat, x: seq<Byte>, y: seq<Byte>, z: seq<Byte>)
    requires e <= |b| && b[e..] == x + (y + z)
    ensures e + |x| + |y| <= |b|
    ensures b[e..e + |x|] == x && b[e + |x|..e + |x| + |y|] == y && b[e + |x| + |y|..] == z
  {
    var t := b[e..];
    assert t[..|x|] == x && t[|x|..|x| + |y|] == y && t[|x| + |y|..] == z;
    assert b[e..e + |x|] == t[..|x|];
    assert b[e + |x|..e + |x| + |y|] == t[|x|..|x| + |y|];
    assert b[e + |x| + |y|..] == t[|x| + |y|..];
  }

  /** The start code of a unit with something behind it is one the scan sees. */
  lemma CodeOfUnit(b: seq<Byte>, e: nat, units: seq<Unit>)
    requires e <= |b| && units != [] && b[e..] == Stream(units) && Canonical(units)
    ensures var s := e + |StartCode(units[0].long)|;
            s < |b| && CodeAt(b, s - 3) && b[e] == 0
  {
    StreamParts(b, e, units);
    var s := e + |StartCode(units[0].long)|;
    var code := b[e..s];
    assert code[|code| - 3] == b[s - 3] && code[|code| - 2] == b[s - 2] && code[|code| - 1] == b[s - 1];
    assert code[0] == b[e];
    if units[0].nalu == [] {
      StreamParts(b, s, units[1..]);
    }
  }

  /** Between a good NALU and the unit behind it the scan sees that unit's code only. */
  lemma NextCode(b: seq<Byte>, s: nat, e: nat, units: seq<Unit>)
    requires 0 < s <= e <= |b| && b[s - 1] == 1
    requires units != [] && b[e..] == Stream(units) && Canonical(units)
    requires GoodBefore(b[s..e], units[0].long)
    ensures var c := e + |StartCode(units[0].long)| - 3;
            && c + 3 < |b| && CodeAt(b, c) && DelimiterStart(b, c) == e && (e < c <==> units[0].long)
            && (forall k :: s <= k < c ==> !CodeAt(b, k))
  {
    CodeOfUnit(b, e, units);
    NoCodeBefore(b, s, e, e + |StartCode(units[0].long)| - 3);
    assert e > s ==> b[e - 1] == b[s..e][e - s - 1];
  }

  lemma NoCodeBefore(b: seq<Byte>, s: nat, e: nat, c: nat)
    requires s <= e <= c <= e + 1 && CodeAt(b, c) && b[e] == 0
    requires forall i :: !HasCode(b[s..e], i)
    ensures forall k :: s <= k < c ==> !CodeAt(b, k)
  {
    forall k | s <= k < c
      ensures !CodeAt(b, k)
    {
      if k + 3 <= e {
        assert !HasCode(b[s..e], k - s);
      }
    }
  }

  lemma {:induction false} SkipUnits(b: seq<Byte>, long: bool, s: nat, i: nat, j: nat)
    requires OpenBefore(b, Some(s), i)
    requires i <= j && forall k :: i <= k < j ==> !CodeAt(b, k)
    ensures OpenBefore(b, Some(s), j) && ScanUnits(b, long, s, i) == ScanUnits(b, long, s, j)
    decreases j - i
  {
    if i < j {
      SkipUnits(b, long, s, i + 1, j);
    }
  }

  lemma ScanOfLast(b: seq<Byte>, long: bool, s: nat)
    requires 0 < s < |b| && b[s - 1] == 1 && GoodLast(b[s..])
    ensures ScanUnits(b, long, s, s) == [Unit(long, b[s..])]
  {
    forall k | s <= k < |b|
      ensures !CodeAt(b, k)
    {
      assert k + 3 < |b| ==> !HasCode(b[s..], k - s);
    }
    SkipUnits(b, long, s, s, |b|);
  }

  lemma HeadAndTail<T>(s: seq<T>)
    requires s != []
    ensures s == [s[0]] + s[1..]
  {
  }

  /** The first unit's NALU fills the buffer from s up to e; the rest of the stream follows. */
  ghost predicate StreamAt(b: seq<Byte>, s: nat, e: nat, units: seq<Unit>) {
    && 0 < s <= e <= |b| && b[s - 1] == 1
    && units != [] && Canonical(units)
    && b[s..e] == units[0].nalu && b[e..] == Stream(units[1..])
  }

  lemma ScanToNext(b: seq<Byte>, s: nat, e: nat, units: seq<Unit>)
    requires StreamAt(b, s, e, units) && |units| > 1
    ensures var s' := e + |StartCode(units[1].long)|;
            && StreamAt(b, s', s' + |units[1].nalu|, units[1..])
            && ScanUnits(b, units[0].long, s, s) == [units[0]] + ScanUnits(b, units[1].long, s', s')
  {
    hide CodeAt, DelimiterStart, GoodBefore, Stream;
    var u, rest := units[0], units[1..];
    NextCode(b, s, e, rest);
    StreamParts(b, e, rest);
    SkipUnits(b, u.long, s, s, e + |StartCode(rest[0].long)| - 3);
    assert Unit(u.long, b[s..e]) == u;
  }

  lemma ScanAtLast(b: seq<Byte>, s: nat, e: nat, units: seq<Unit>)
    requires StreamAt(b, s, e, units) && |units| == 1
    ensures ScanUnits(b, units[0].long, s, s) == units
  {
    assert e == |b| && b[s..] == b[s..e];
    ScanOfLast(b, units[0].long, s);
    assert units == [units[0]];
  }

  lemma {:induction false} ScanOfStream(b: seq<Byte>, s: nat, e: nat, units: seq<Unit>)
    requires StreamAt(b, s, e, units)
    ensures ScanUnits(b, units[0].long, s, s) == units
    decreases |units|
  {
    hide Stream, Canonical, CodeAt, DelimiterStart, StartCode;
    if |units| == 1 {
      ScanAtLast(b, s, e, units);
    } else {
      var s' := e + |StartCode(units[1].long)|;
      ScanToNext(b, s, e, units);
      ScanOfStream(b, s', s' + |units[1].nalu|, units[1..]);
      HeadAndTail(units);
    }
  }

  lemma ParseOfCanonical(b: seq<Byte>, units: seq<Unit>)
    requires Canonical(units) && b[0..] == Stream(units)
    ensures ParsedUnits(b) == units
  {
    if units != [] {
      StreamParts(b, 0, units);
      CodeOfUnit(b, 0, units);
      var s := |StartCode(units[0].long)|;
      assert FirstCode(b, 0) == s - 3;
      ScanOfStream(b, s, s + |units[0].nalu|, units);
    }
  }

  /** Annex B round trip, with its exact condition: parsing the stream of a unit list
      gives the list back, start code lengths included, if and only if it is canonical. */
  lemma ParseOfStream(units: seq<Unit>)
    ensures ParsedUnits(Stream(units)) == units <==> Canonical(units)
  {
    var b := Stream(units);
    ParseIsCanonical(b);
    if Canonical(units) {
      assert b[0..] == b;
      ParseOfCanonical(b, units);
    }
  }
}
