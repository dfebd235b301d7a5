/** What STUN messages guarantee: the built response is accepted, its address decodes, the
    parser gives the buffer back, and the fingerprint detects bursts. */
module StunProofs {
  import opened Bytes
  import opened Stun
  import Crc32

  // ----- the response is accepted -----

  lemma FieldAt(s: seq<Byte>, pos: nat, v: UInt16, rest: seq<Byte>)
    requires At(s, pos, UInt16Bytes(v) + rest)
    ensures pos + 2 <= |s| && LoadUInt16BE(s, pos) == v && At(s, pos + 2, rest)
  {
    AtBoth(s, pos, UInt16Bytes(v), rest);
    LoadOfBytes16(s, pos, v);
  }

  /** The four parts of a response. */
  lemma ResponseParts(c: Credentials, id: seq<Byte>, e: Endpoint)
    requires |id| == TRANSACTION_ID_LENGTH
    ensures var s := Response(c, id, e);
            && |s| == 64 && s[..56] == Signed(c, id, e)
            && At(s, 0, ResponseHead(44, id)) && At(s, 20, XorMappedAddress(e))
            && At(s, 32, MessageIntegrity(c.hmac(c.localPassword, Covered(id, e))))
            && At(s, 56, FingerprintAttribute(Fingerprint(Signed(c, id, e))))
  {
    hide XorMappedAddress, MessageIntegrity, FingerprintAttribute, Fingerprint, UInt32Bytes, UInt16Bytes;
    var s := Response(c, id, e);
    var mac := MessageIntegrity(c.hmac(c.localPassword, Covered(id, e)));
    var signed := Signed(c, id, e);
    assert s[0..|s|] == s;
    AtBoth(s, 0, signed, FingerprintAttribute(Fingerprint(signed)));
    AtBoth(s, 0, ResponseHead(44, id), XorMappedAddress(e) + mac);
    AtBoth(s, 20, XorMappedAddress(e), mac);
    assert s[..56] == s[0..56];
  }

  lemma ResponseFields(c: Credentials, id: seq<Byte>, e: Endpoint)
    requires |id| == TRANSACTION_ID_LENGTH
    ensures var s := Response(c, id, e);
            && |s| == 64 && LoadUInt16BE(s, 0) == 0x0101 && LoadUInt16BE(s, 2) == 44
            && LoadUInt32BE(s, 4) == 0x2112A442 && s[8..20] == id
            && LoadUInt16BE(s, 20) == 0x0020 && LoadUInt16BE(s, 22) == 8
            && LoadUInt16BE(s, 32) == 0x0008 && LoadUInt16BE(s, 34) == 20
            && s[36..56] == c.hmac(c.localPassword, Covered(id, e))
            && LoadUInt16BE(s, 56) == 0x8028 && LoadUInt16BE(s, 58) == 4
            && LoadUInt32BE(s, 60) == Fingerprint(s[..56])
  {
    hide Response, Signed, Covered, Fingerprint, UInt16Bytes, UInt32Bytes, XorPort, XorAddress;
    hide LoadUInt16BE, LoadUInt32BE;
    var s := Response(c, id, e);
    var digest := c.hmac(c.localPassword, Covered(id, e));
    ResponseParts(c, id, e);
    FieldAt(s, 0, BINDING_RESPONSE, UInt16Bytes(44) + (UInt32Bytes(MAGIC_COOKIE) + id));
    FieldAt(s, 2, 44, UInt32Bytes(MAGIC_COOKIE) + id);
    WordAt(s, 4, MAGIC_COOKIE, id);
    var address := [0] + ([1] + (UInt16Bytes(XorPort(e.port)) + UInt32Bytes(XorAddress(e.address))));
    FieldAt(s, 20, ATTR_XOR_MAPPED_ADDRESS, UInt16Bytes(8) + address);
    FieldAt(s, 22, 8, address);
    FieldAt(s, 32, ATTR_MESSAGE_INTEGRITY, UInt16Bytes(20) + digest);
    FieldAt(s, 34, 20, digest);
    var f := Fingerprint(Signed(c, id, e));
    FieldAt(s, 56, ATTR_FINGERPRINT, UInt16Bytes(4) + UInt32Bytes(f));
    FieldAt(s, 58, 4, UInt32Bytes(f));
    LoadOfBytes32(s, 60, f);
  }

  /** Every parser with the same password and digest takes the response: it notes the
      integrity attribute at 32 and the fingerprint. */
  lemma ResponseWalk(c: Credentials, other: Credentials, id: seq<Byte>, e: Endpoint, useCandidate: bool)
    requires |id| == TRANSACTION_ID_LENGTH
    ensures WalkOf(other, Response(c, id, e), useCandidate) == Accepted(Notes(Some(32), true, useCandidate))
  {
    ResponseFields(c, id, e);
    hide Response, Fingerprint, LoadUInt16BE, LoadUInt32BE;
    var s := Response(c, id, e);
    var n0 := StartNotes(useCandidate);
    var n1 := n0.(integrity := Some(32));
    var n2 := n1.(hasFingerprint := true);
    assert Attributes(other, s, 64, n2) == Accepted(n2);
    assert Attribute(other, s, 56, n1) == Accepted(n2);
    assert Attributes(other, s, 56, n1) == Accepted(n2);
    assert Attribute(other, s, 32, n0) == Accepted(n1);
    assert Attributes(other, s, 32, n0) == Accepted(n2);
    assert Attribute(other, s, 20, n0) == Accepted(n0);
    assert Attributes(other, s, 20, n0) == Accepted(n2);
  }

  /** With the length field cut back, the front of the response is what its digest covers. */
  lemma CoveredPart(c: Credentials, id: seq<Byte>, e: Endpoint)
    requires |id| == TRANSACTION_ID_LENGTH
    ensures |Response(c, id, e)| == 64 && WithLength(Response(c, id, e), 36)[..32] == Covered(id, e)
  {
    ResponseParts(c, id, e);
    hide XorMappedAddress, MessageIntegrity, FingerprintAttribute, Fingerprint, UInt32Bytes, UInt16Bytes;
    var mac := MessageIntegrity(c.hmac(c.localPassword, Covered(id, e)));
    var last := FingerprintAttribute(Fingerprint(Signed(c, id, e)));
    Regroup(ResponseHead(44, id), XorMappedAddress(e) + mac, last);
    Regroup(XorMappedAddress(e), mac, last);
    HeadWithLength(44, 36, id, XorMappedAddress(e) + (mac + last));
    Regroup(ResponseHead(36, id), XorMappedAddress(e), mac + last);
  }

  lemma IntegrityHolds(c: Credentials, s: seq<Byte>, useCandidate: bool)
    requires |s| == 64 && LoadUInt16BE(s, 2) == 44
    requires WithLength(s, 36)[36..56] == c.hmac(c.localPassword, WithLength(s, 36)[..32])
    ensures Integrity(c, s, Notes(Some(32), true, useCandidate)) == Verdict(true, s)
  {
    hide WithLength, LoadUInt16BE;
    LengthTwice(s, 36, 44);
    LengthField(s, 44);
  }

  /** The digest is checked over the bytes it was computed from, and the buffer ends as it was. */
  lemma ResponseIntegrity(c: Credentials, id: seq<Byte>, e: Endpoint, useCandidate: bool)
    requires |id| == TRANSACTION_ID_LENGTH
    ensures Integrity(c, Response(c, id, e), Notes(Some(32), true, useCandidate)) == Verdict(true, Response(c, id, e))
  {
    ResponseFields(c, id, e);
    CoveredPart(c, id, e);
    hide Response, Covered, Fingerprint, LoadUInt16BE, LoadUInt32BE;
    var s := Response(c, id, e);
    assert WithLength(s, 36)[36..56] == s[36..56];
    IntegrityHolds(c, s, useCandidate);
  }

  /** STUN response round trip: for any transaction, password and IPv4 endpoint the built
      response is accepted by a parser with the same password, whatever its user fragments,
      and the parser's two rewrites of the length field leave the buffer as it was. */
  lemma ResponseAccepted(c: Credentials, localUfrag: seq<Byte>, remoteUfrag: seq<Byte>,
                         id: seq<Byte>, e: Endpoint, useCandidate: bool)
    requires |id| == TRANSACTION_ID_LENGTH
    ensures var peer := c.(localUfrag := localUfrag, remoteUfrag := remoteUfrag);
            var s := Response(c, id, e);
            && WalkOf(peer, s, useCandidate).Accepted?
            && Judge(peer, s, useCandidate) == Verdict(true, s)
            && s[8..20] == id
  {
    hide Response, Attributes;
    var peer := c.(localUfrag := localUfrag, remoteUfrag := remoteUfrag);
    ResponseFields(c, id, e);
    ResponseWalk(c, peer, id, e, useCandidate);
    SameResponse(c, peer, id, e);
    ResponseIntegrity(peer, id, e, useCandidate);
  }

  /** The user fragments do not enter the response. */
  lemma SameResponse(c: Credentials, d: Credentials, id: seq<Byte>, e: Endpoint)
    requires c.localPassword == d.localPassword && c.hmac == d.hmac
    ensures Response(c, id, e) == Response(d, id, e)
  {
  }

  // ----- the mapped address -----

  /** The receiver's side of section 15.2 of RFC 5389, for an attribute value at pos. */
  function DecodeXorMapped(s: seq<Byte>, pos: nat): Option<Endpoint>
    requires pos + 8 <= |s|
  {
    if s[pos + 1] != 1 then None
    else Some(Endpoint((LoadUInt16BE(s, pos + 2) as bv16) ^ 0x2112, (LoadUInt32BE(s, pos + 4) as bv32) ^ 0x2112A442))
  }

  lemma MaskTwice(p: bv16, a: bv32)
    ensures MaskPort(p) ^ 0x2112 == p && MaskAddress(a) ^ 0x2112A442 == a
  {
  }

  lemma SameWord(p: bv16, a: bv32)
    ensures (p as int) as bv16 == p && (a as int) as bv32 == a
  {
  }

  lemma EndpointUndone(e: Endpoint)
    ensures (XorPort(e.port) as bv16) ^ 0x2112 == e.port && (XorAddress(e.address) as bv32) ^ 0x2112A442 == e.address
  {
    hide MaskPort, MaskAddress;
    MaskTwice(e.port, e.address);
    SameWord(MaskPort(e.port), MaskAddress(e.address));
  }

  lemma AddressDecodes(c: Credentials, id: seq<Byte>, e: Endpoint)
    requires |id| == TRANSACTION_ID_LENGTH
    ensures |Response(c, id, e)| == 64 && DecodeXorMapped(Response(c, id, e), 24) == Some(e)
  {
    hide Response, Fingerprint, UInt16Bytes, UInt32Bytes, XorPort, XorAddress, MaskPort, MaskAddress;
    hide LoadUInt16BE, LoadUInt32BE;
    var s := Response(c, id, e);
    ResponseParts(c, id, e);
    var port, address := UInt16Bytes(XorPort(e.port)), UInt32Bytes(XorAddress(e.address));
    FieldAt(s, 20, ATTR_XOR_MAPPED_ADDRESS, UInt16Bytes(8) + ([0] + ([1] + (port + address))));
    FieldAt(s, 22, 8, [0] + ([1] + (port + address)));
    AtBoth(s, 24, [0], [1] + (port + address));
    AtBoth(s, 25, [1], port + address);
    assert s[25] == s[25..26][0];
    FieldAt(s, 26, XorPort(e.port), address);
    LoadOfBytes32(s, 28, XorAddress(e.address));
    EndpointUndone(e);
  }

  // ----- what the parser leaves in the buffer -----

  lemma LengthField(s: seq<Byte>, length: int)
    requires |s| >= 4
    ensures LoadUInt16BE(WithLength(s, length), 2) == length % TWO_TO_16
    ensures WithLength(s, length) == s <==> LoadUInt16BE(s, 2) == length % TWO_TO_16
  {
    var b := WithLength(s, length);
    assert b[2..4] == UInt16Bytes(length % TWO_TO_16);
    LoadOfBytes16(b, 2, length % TWO_TO_16);
    BytesOfLoad16(s, 2);
    if LoadUInt16BE(s, 2) == length % TWO_TO_16 {
      assert b == s[..2] + s[2..4] + s[4..];
    }
  }

  lemma LengthTwice(s: seq<Byte>, a: int, b: int)
    requires |s| >= 4
    ensures WithLength(WithLength(s, a), b) == WithLength(s, b)
  {
  }

  // ----- the fingerprint -----

  /** Section 15.5 of RFC 5389, for a fingerprint attribute at pos. */
  predicate FingerprintMatches(s: seq<Byte>, pos: nat)
    requires pos + 8 <= |s|
  {
    LoadUInt32BE(s, pos + 4) == (Crc32.BitwiseCrc(s[..pos]) ^ 0x5354554E) as int
  }

  lemma MatchesFingerprint(s: seq<Byte>, pos: nat)
    requires pos + 8 <= |s|
    ensures FingerprintMatches(s, pos) <==> LoadUInt32BE(s, pos + 4) == Fingerprint(s[..pos])
  {
    hide LoadUInt32BE, Crc32.BitwiseCrc;
  }

  lemma FingerprintInjective(a: seq<Byte>, b: seq<Byte>)
    requires Fingerprint(a) == Fingerprint(b)
    ensures Crc32.BitwiseCrc(a) == Crc32.BitwiseCrc(b)
  {
    hide Crc32.BitwiseCrc, Crc32.Xor;
    var x, y := Crc32.BitwiseCrc(a), Crc32.BitwiseCrc(b);
    WordAsInt(Crc32.Xor(x, 0x5354554e), Crc32.Xor(y, 0x5354554e));
    Crc32.XorSwap(x, 0x5354554e);
    Crc32.XorSwap(y, 0x5354554e);
    Crc32.XorCancel(0x5354554e, x, y);
  }

  lemma WordAsInt(x: bv32, y: bv32)
    requires x as int == y as int
    ensures x == y
  {
    assert (x as int) as bv32 == x;
  }

  /** Any burst of up to 32 bits in the bytes a fingerprint attribute covers makes the
      comparison fail, and the parser that reaches the attribute rejects the message. */
  lemma BurstBreaksFingerprint(s: seq<Byte>, t: seq<Byte>, pos: nat, i: nat, c: Credentials, n: Notes)
    requires pos + 8 <= |s| == |t| && LoadUInt16BE(s, pos) == 0x8028 && FingerprintMatches(s, pos)
    requires s[pos..] == t[pos..] && s != t
    requires Crc32.AgreeOutside(Crc32.MessageBits(s[..pos]), Crc32.MessageBits(t[..pos]), i)
    ensures !FingerprintMatches(t, pos)
    ensures Attribute(c, s, pos, n).Accepted? && Attribute(c, t, pos, n).Rejected?
  {
    hide Fingerprint, FingerprintMatches, Crc32.BitwiseCrc, Crc32.MessageBits;
    MatchesFingerprint(s, pos);
    MatchesFingerprint(t, pos);
    assert s == s[..pos] + s[pos..] && t == t[..pos] + t[pos..];
    Crc32.BurstDetected(s[..pos], t[..pos], i);
    assert forall k :: pos <= k < |s| ==> s[k] == s[pos..][k - pos] && t[k] == t[pos..][k - pos];
    assert LoadUInt32BE(s, pos + 4) == LoadUInt32BE(t, pos + 4);
    if FingerprintMatches(t, pos) {
      FingerprintInjective(s[..pos], t[..pos]);
    }
  }

  // ----- which messages are accepted -----

  function TypeAt(s: seq<Byte>, pos: nat): UInt16
    requires pos + 4 <= |s|
  {
    LoadUInt16BE(s, pos)
  }

  predicate Inside(s: seq<Byte>, ps: seq<nat>) {
    forall k :: 0 <= k < |ps| ==> ps[k] + 4 <= |s|
  }

  /** Where the attributes from pos on start; None if they do not fill the message exactly. */
  function Positions(s: seq<Byte>, pos: nat): (r: Option<seq<nat>>)
    requires pos <= |s|
    ensures r.Some? ==> Inside(s, r.value)
    decreases |s| - pos
  {
    if pos == |s| then Some([])
    else if pos + 4 > |s| then None
    else
      var next := pos + 4 + (LoadUInt16BE(s, pos + 2) + 3) / 4 * 4 % TWO_TO_16;
      if next > |s| then None
      else
        var rest := Positions(s, next);
        if rest.None? then None else Some([pos] + rest.value)
  }

  /** What an attribute must satisfy by itself: a user name made of the local fragment in front
      and the remote one at the end, a fingerprint that matches, and no ICE-CONTROLLED. */
  predicate Acceptable(c: Credentials, s: seq<Byte>, pos: nat)
    requires pos + 4 <= |s|
  {
    var length, value := LoadUInt16BE(s, pos + 2), pos + 4;
    && (TypeAt(s, pos) == 0x0006 ==>
          && value + length <= |s|
          && c.localUfrag <= s[value..value + length]
          && |c.remoteUfrag| <= length && s[value + length - |c.remoteUfrag|..value + length] == c.remoteUfrag)
    && (TypeAt(s, pos) == 0x8028 ==> pos + 8 <= |s| && FingerprintMatches(s, pos))
    && TypeAt(s, pos) != 0x8029
  }

  /** Section 6 of RFC 5389: the header and its magic cookie. */
  predicate HasCookie(s: seq<Byte>) {
    |s| >= 20 && LoadUInt32BE(s, 4) == 0x2112A442
  }

  predicate AllAcceptable(c: Credentials, s: seq<Byte>, ps: seq<nat>)
    requires Inside(s, ps)
  {
    forall k :: 0 <= k < |ps| ==> Acceptable(c, s, ps[k])
  }

  predicate HasType(s: seq<Byte>, ps: seq<nat>, t: UInt16)
    requires Inside(s, ps)
  {
    exists k :: 0 <= k < |ps| && TypeAt(s, ps[k]) == t
  }

  /** The last attribute of a type. */
  function LastOfType(s: seq<Byte>, ps: seq<nat>, t: UInt16): Option<nat>
    requires Inside(s, ps)
  {
    if ps == [] then None
    else if TypeAt(s, ps[|ps| - 1]) == t then Some(ps[|ps| - 1])
    else LastOfType(s, ps[..|ps| - 1], t)
  }

  lemma {:induction false} LastOfCons(s: seq<Byte>, pos: nat, ps: seq<nat>, t: UInt16)
    requires pos + 4 <= |s| && Inside(s, ps)
    ensures Inside(s, [pos] + ps)
    ensures var last := LastOfType(s, ps, t);
            LastOfType(s, [pos] + ps, t) ==
              if last.Some? then last else if TypeAt(s, pos) == t then Some(pos) else None
    decreases |ps|
  {
    hide TypeAt;
    if ps == [] {
      assert [pos][..0] == [];
      assert [pos] + ps == [pos];
    } else {
      assert ([pos] + ps)[..|ps|] == [pos] + ps[..|ps| - 1];
      LastOfCons(s, pos, ps[..|ps| - 1], t);
    }
  }

  lemma TypesOfCons(c: Credentials, s: seq<Byte>, pos: nat, ps: seq<nat>, t: UInt16)
    requires pos + 4 <= |s| && Inside(s, ps)
    ensures Inside(s, [pos] + ps)
    ensures HasType(s, [pos] + ps, t) <==> TypeAt(s, pos) == t || HasType(s, ps, t)
    ensures AllAcceptable(c, s, [pos] + ps) <==> Acceptable(c, s, pos) && AllAcceptable(c, s, ps)
  {
    hide TypeAt, Acceptable;
    var all := [pos] + ps;
    assert forall k :: 0 <= k < |ps| ==> all[k + 1] == ps[k];
    assert all[0] == pos;
    assert forall k :: 0 < k < |all| ==> all[k] == ps[k - 1];
  }

  /** The notes after attributes at the given places. */
  function NotesAfter(s: seq<Byte>, ps: seq<nat>, n: Notes): Notes
    requires Inside(s, ps)
  {
    var last := LastOfType(s, ps, 0x0008);
    Notes(if last.Some? then last else n.integrity,
          n.hasFingerprint || HasType(s, ps, 0x8028),
          n.useCandidate || HasType(s, ps, 0x0025))
  }

  lemma OneAttribute(c: Credentials, s: seq<Byte>, pos: nat, n: Notes)
    requires pos + 4 <= |s| && !Attribute(c, s, pos, n).Beyond?
    ensures Attribute(c, s, pos, n).Accepted? <==> Acceptable(c, s, pos)
    ensures var t, w := TypeAt(s, pos), Attribute(c, s, pos, n);
            var integrity := if t == 0x0008 then Some(pos) else n.integrity;
            w.Accepted? ==>
              w.notes == Notes(integrity, n.hasFingerprint || t == 0x8028,
                               n.useCandidate || t == 0x0025)
  {
  }

  lemma RoundedUp(length: UInt16)
    ensures Padded(length) == (length + 3) / 4 * 4 % TWO_TO_16
  {
  }

  /** The loop accepts exactly the attribute lists that fill the message and are acceptable one
      by one, and notes the last integrity attribute and which types it met. */
  lemma {:induction false} WalkMeans(c: Credentials, s: seq<Byte>, pos: nat, n: Notes)
    requires pos <= |s| && !Attributes(c, s, pos, n).Beyond?
    ensures var w, ps := Attributes(c, s, pos, n), Positions(s, pos);
            && (w.Accepted? <==> ps.Some? && AllAcceptable(c, s, ps.value))
            && (w.Accepted? ==> w.notes == NotesAfter(s, ps.value, n))
    decreases |s| - pos
  {
    hide Attribute, Acceptable, TypeAt, Padded, AllAcceptable, HasType, LastOfType;
    if pos == |s| {
      NothingInNone(c, s);
    } else if pos + 4 <= |s| {
      var w := Attribute(c, s, pos, n);
      var next := pos + 4 + Padded(LoadUInt16BE(s, pos + 2));
      OneAttribute(c, s, pos, n);
      RoundedUp(LoadUInt16BE(s, pos + 2));
      if next <= |s| && Positions(s, next).Some? {
        var rest := Positions(s, next).value;
        TypesOfCons(c, s, pos, rest, 0x8028);
        TypesOfCons(c, s, pos, rest, 0x0025);
        LastOfCons(s, pos, rest, 0x0008);
      }
      if w.Accepted? && next <= |s| {
        WalkMeans(c, s, next, w.notes);
      }
    }
  }

  // ----- the use-candidate flag -----

  /** The acceptable attributes from pos on, up to the first that is not, or that is cut short. */
  function Reached(c: Credentials, s: seq<Byte>, pos: nat): (ps: seq<nat>)
    ensures Inside(s, ps)
    decreases if pos <= |s| then |s| - pos else 0
  {
    if pos + 4 > |s| || !Acceptable(c, s, pos) then []
    else [pos] + Reached(c, s, pos + 4 + (LoadUInt16BE(s, pos + 2) + 3) / 4 * 4 % TWO_TO_16)
  }

  lemma {:induction false} FlagOfReached(c: Credentials, s: seq<Byte>, pos: nat, n: Notes)
    requires pos <= |s| && !Attributes(c, s, pos, n).Beyond?
    ensures FlagOf(Attributes(c, s, pos, n)) <==> n.useCandidate || HasType(s, Reached(c, s, pos), 0x0025)
    decreases |s| - pos
  {
    hide Attribute, Acceptable, TypeAt, Padded, AllAcceptable, HasType;
    NothingInNone(c, s);
    if pos + 4 <= |s| {
      var w := Attribute(c, s, pos, n);
      var next := pos + 4 + Padded(LoadUInt16BE(s, pos + 2));
      OneAttribute(c, s, pos, n);
      RejectedKeeps(c, s, pos, n);
      RoundedUp(LoadUInt16BE(s, pos + 2));
      if w.Accepted? {
        TypesOfCons(c, s, pos, Reached(c, s, next), 0x0025);
        if next <= |s| {
          FlagOfReached(c, s, next, w.notes);
        } else {
          assert Reached(c, s, next) == [];
        }
      }
    }
  }

  /** Where the parser stops: at the first attribute that is not acceptable, or at the end. */
  function StopAt(c: Credentials, s: seq<Byte>, pos: nat): nat
    decreases if pos <= |s| then |s| - pos else 0
  {
    if pos + 4 > |s| || !Acceptable(c, s, pos) then pos
    else StopAt(c, s, pos + 4 + (LoadUInt16BE(s, pos + 2) + 3) / 4 * 4 % TWO_TO_16)
  }

  /** A user name or fingerprint that the message ends in the middle of. */
  predicate CutShort(s: seq<Byte>, pos: nat)
    requires pos + 4 <= |s|
  {
    || (TypeAt(s, pos) == 0x0006 && pos + 4 + LoadUInt16BE(s, pos + 2) > |s|)
    || (TypeAt(s, pos) == 0x8028 && pos + 8 > |s|)
  }

  lemma OneCutShort(c: Credentials, s: seq<Byte>, pos: nat, n: Notes)
    requires pos + 4 <= |s|
    ensures Attribute(c, s, pos, n).Beyond? <==> CutShort(s, pos)
    ensures CutShort(s, pos) ==> !Acceptable(c, s, pos)
  {
  }

  lemma {:induction false} BeyondAtStop(c: Credentials, s: seq<Byte>, pos: nat, n: Notes)
    requires pos <= |s|
    ensures var stop := StopAt(c, s, pos);
            Attributes(c, s, pos, n).Beyond? <==> stop + 4 <= |s| && CutShort(s, stop)
    decreases |s| - pos
  {
    hide Attribute, Acceptable, TypeAt, Padded, CutShort;
    if pos + 4 <= |s| {
      var w := Attribute(c, s, pos, n);
      var next := pos + 4 + Padded(LoadUInt16BE(s, pos + 2));
      OneCutShort(c, s, pos, n);
      RoundedUp(LoadUInt16BE(s, pos + 2));
      if !w.Beyond? {
        OneAttribute(c, s, pos, n);
      }
      if w.Accepted? && next <= |s| {
        BeyondAtStop(c, s, next, w.notes);
      }
    }
  }

  /** Which messages the model leaves open, because the source reads behind their end: exactly
      those that stop in the middle of a user name or fingerprint the parser gets to, and those
      with acceptable attributes whose last integrity attribute is cut short. */
  lemma BeyondExactly(c: Credentials, s: seq<Byte>, useCandidate: bool)
    ensures WalkOf(c, s, useCandidate).Beyond? <==>
              && HasCookie(s)
              && (|| (StopAt(c, s, 20) + 4 <= |s| && CutShort(s, StopAt(c, s, 20)))
                  || (&& Positions(s, 20).Some? && AllAcceptable(c, s, Positions(s, 20).value)
                      && LastOfType(s, Positions(s, 20).value, 0x0008).Some?
                      && LastOfType(s, Positions(s, 20).value, 0x0008).value + 24 > |s|))
  {
    hide Attributes, Positions, AllAcceptable, LastOfType, HasType, StopAt, CutShort;
    if HasCookie(s) {
      BeyondAtStop(c, s, 20, StartNotes(useCandidate));
      if !Attributes(c, s, 20, StartNotes(useCandidate)).Beyond? {
        WalkMeans(c, s, 20, StartNotes(useCandidate));
      } else {
        CutShortStops(c, s, 20);
      }
    }
  }

  /** A message that is cut short is not acceptable throughout. */
  lemma {:induction false} CutShortStops(c: Credentials, s: seq<Byte>, pos: nat)
    requires pos <= |s|
    requires StopAt(c, s, pos) + 4 <= |s| && CutShort(s, StopAt(c, s, pos))
    ensures Positions(s, pos).Some? ==> !AllAcceptable(c, s, Positions(s, pos).value)
    decreases |s| - pos
  {
    hide Acceptable, TypeAt, CutShort, HasType, AllAcceptable;
    OneCutShort(c, s, StopAt(c, s, pos), StartNotes(false));
    if pos + 4 <= |s| && Positions(s, pos).Some? {
      var next := pos + 4 + (LoadUInt16BE(s, pos + 2) + 3) / 4 * 4 % TWO_TO_16;
      var rest := Positions(s, next).value;
      TypesOfCons(c, s, pos, rest, 0x0008);
      if Acceptable(c, s, pos) {
        CutShortStops(c, s, next);
      }
    }
  }

  lemma RejectedKeeps(c: Credentials, s: seq<Byte>, pos: nat, n: Notes)
    requires pos + 4 <= |s|
    ensures var w := Attribute(c, s, pos, n);
            w.Rejected? ==> w.useCandidate == n.useCandidate
  {
  }

  /** The flag the parser ends with, accepted or not: it was set before, or a USE-CANDIDATE
      attribute is among the acceptable ones it reached. */
  lemma UseCandidateFlag(c: Credentials, s: seq<Byte>, useCandidate: bool)
    requires !WalkOf(c, s, useCandidate).Beyond?
    ensures FlagOf(WalkOf(c, s, useCandidate)) <==>
              useCandidate || (HasCookie(s) && HasType(s, Reached(c, s, 20), 0x0025))
  {
    hide Attributes, Reached, HasType;
    if HasCookie(s) {
      FlagOfReached(c, s, 20, StartNotes(useCandidate));
    }
  }

  /** What the parser has noted of a message whose attributes it accepts: all of them. */
  lemma AcceptedNotes(c: Credentials, s: seq<Byte>, useCandidate: bool)
    requires WalkOf(c, s, useCandidate).Accepted?
    ensures HasCookie(s) && Positions(s, 20).Some?
    ensures var w, ps := WalkOf(c, s, useCandidate), Positions(s, 20).value;
            && w.notes == NotesAfter(s, ps, Notes(None, false, useCandidate))
            && (FlagOf(w) <==> useCandidate || HasType(s, ps, 0x0025))
  {
    hide Attributes, Positions, HasType, LastOfType;
    WalkMeans(c, s, 20, StartNotes(useCandidate));
  }

  lemma NothingInNone(c: Credentials, s: seq<Byte>)
    ensures AllAcceptable(c, s, []) && LastOfType(s, [], 0x0008) == None
    ensures !HasType(s, [], 0x8028) && !HasType(s, [], 0x0025)
  {
  }

  /** The digest in the integrity attribute at `at` is right, with the length field set as if
      the message ended before the fingerprint if there is one. */
  predicate DigestHolds(c: Credentials, s: seq<Byte>, at: nat, hasFingerprint: bool)
    requires |s| >= HEADER_SIZE && at + 24 <= |s|
  {
    var b := if hasFingerprint then WithLength(s, |s| - 28) else s;
    b[at + 4..at + 24] == c.hmac(c.localPassword, b[..at])
  }

  /** Which messages are accepted, exactly: the magic cookie is there, the attributes fill the
      message and are acceptable one by one, and the digest of the last integrity attribute
      holds. A message without an integrity attribute needs no digest. */
  lemma AcceptedExactly(c: Credentials, s: seq<Byte>, useCandidate: bool)
    requires !WalkOf(c, s, useCandidate).Beyond?
    ensures Judge(c, s, useCandidate).ok <==>
              && HasCookie(s)
              && var ps := Positions(s, 20);
                 && ps.Some? && AllAcceptable(c, s, ps.value)
                 && var last := LastOfType(s, ps.value, 0x0008);
                    last.Some? ==>
                      && last.value + 24 <= |s|
                      && DigestHolds(c, s, last.value, HasType(s, ps.value, 0x8028))
  {
    hide Attributes, Positions, AllAcceptable, LastOfType, HasType, WithLength;
    if HeaderOk(s) {
      WalkMeans(c, s, HEADER_SIZE, StartNotes(useCandidate));
    }
  }

  // ----- which buffers are changed -----

  /** The length field of a message is rewritten: its attributes are all acceptable, and there
      are an integrity attribute and a fingerprint among them. */
  predicate LengthRewritten(c: Credentials, s: seq<Byte>) {
    HasCookie(s) &&
    var ps := Positions(s, 20);
    && ps.Some? && AllAcceptable(c, s, ps.value) && HasType(s, ps.value, 0x8028)
    && LastOfType(s, ps.value, 0x0008).Some?
    && LastOfType(s, ps.value, 0x0008).value + 24 <= |s|
  }

  /** The value left in a rewritten length field: the size without the header if the digest
      holds, and 8 less, which is not set back, if it does not. */
  function LengthLeft(c: Credentials, s: seq<Byte>): UInt16
    requires LengthRewritten(c, s)
  {
    var at := LastOfType(s, Positions(s, 20).value, 0x0008).value;
    (if DigestHolds(c, s, at, true) then |s| - 20 else |s| - 28) % TWO_TO_16
  }

  /** What a received message is turned into, in terms of the message: exactly the length field
      of one that is rewritten changes. So the buffer is unchanged if and only if nothing is
      rewritten or the field already held the value left there. */
  lemma BufferUnchanged(c: Credentials, s: seq<Byte>, useCandidate: bool)
    requires !WalkOf(c, s, useCandidate).Beyond?
    ensures Judge(c, s, useCandidate).buffer == if LengthRewritten(c, s) then WithLength(s, LengthLeft(c, s)) else s
    ensures Judge(c, s, useCandidate).buffer == s <==>
              (LengthRewritten(c, s) ==> LoadUInt16BE(s, 2) == LengthLeft(c, s))
  {
    hide Attributes, Positions, AllAcceptable, LastOfType, HasType, WithLength, LoadUInt16BE;
    if HeaderOk(s) {
      WalkMeans(c, s, HEADER_SIZE, StartNotes(useCandidate));
      LengthTwice(s, |s| - 28, |s| - 20);
      LengthModulo(s, |s| - 20);
      LengthModulo(s, |s| - 28);
      LengthField(s, |s| - 20);
      LengthField(s, |s| - 28);
    }
  }

  lemma LengthModulo(s: seq<Byte>, length: int)
    requires |s| >= 4
    ensures WithLength(s, length) == WithLength(s, length % TWO_TO_16)
  {
    assert length % TWO_TO_16 % TWO_TO_16 == length % TWO_TO_16;
  }

  lemma IntegrityFails(c: Credentials, s: seq<Byte>, useCandidate: bool)
    requires |s| == 64 && WithLength(s, 36)[36..56] != c.hmac(c.localPassword, WithLength(s, 36)[..32])
    ensures Integrity(c, s, Notes(Some(32), true, useCandidate)) == Verdict(false, WithLength(s, 36))
  {
    hide WithLength;
  }

  /** A parser that computes another digest rejects the response and leaves 36 in its length
      field, where 44 stood. */
  lemma WrongDigestStays(c: Credentials, other: Credentials, id: seq<Byte>, e: Endpoint, useCandidate: bool)
    requires |id| == TRANSACTION_ID_LENGTH
    requires other.hmac(other.localPassword, Covered(id, e)) != c.hmac(c.localPassword, Covered(id, e))
    ensures var s := Response(c, id, e);
            && !WalkOf(other, s, useCandidate).Beyond?
            && Judge(other, s, useCandidate) == Verdict(false, WithLength(s, 36))
            && LoadUInt16BE(s, 2) == 44 && LoadUInt16BE(WithLength(s, 36), 2) == 36
  {
    hide Response, Covered, Fingerprint, LoadUInt16BE, LoadUInt32BE, Attributes, Integrity, UInt16Bytes;
    ResponseFields(c, id, e);
    ResponseWalk(c, other, id, e, useCandidate);
    CoveredPart(c, id, e);
    var s := Response(c, id, e);
    LengthField(s, 36);
    assert WithLength(s, 36)[36..56] == s[36..56];
    IntegrityFails(other, s, useCandidate);
  }

  /** Two peers whose digests differ: all zeros and all ones. */
  lemma WrongDigestExists(password: seq<Byte>, id: seq<Byte>, e: Endpoint)
    requires |id| == TRANSACTION_ID_LENGTH
    ensures var s := Response(Constant(password, 0), id, e);
            && !WalkOf(Constant(password, 1), s, false).Beyond?
            && Judge(Constant(password, 1), s, false).buffer != s
  {
    var zeros, ones := Constant(password, 0), Constant(password, 1);
    assert zeros.hmac(password, Covered(id, e))[0] != ones.hmac(password, Covered(id, e))[0];
    WrongDigestStays(zeros, ones, id, e, false);
  }

  /** A peer whose digest is the same byte twenty times. */
  function Constant(password: seq<Byte>, b: Byte): Credentials {
    Credentials([], password, [], (key, message) => [b, b, b, b, b, b, b, b, b, b, b, b, b, b, b, b, b, b, b, b])
  }

  // ----- bursts in whole messages -----

  /** A message damaged by a burst of up to 32 bits in front of a fingerprint is not accepted,
      as long as its attributes still lead to that fingerprint. */
  lemma BurstRejectsMessage(s: seq<Byte>, t: seq<Byte>, pos: nat, i: nat, c: Credentials, useCandidate: bool)
    requires pos + 8 <= |s| == |t| && LoadUInt16BE(s, pos) == 0x8028 && FingerprintMatches(s, pos)
    requires s[pos..] == t[pos..] && s != t
    requires Crc32.AgreeOutside(Crc32.MessageBits(s[..pos]), Crc32.MessageBits(t[..pos]), i)
    requires 20 <= |t| && Positions(t, 20).Some? && pos in Positions(t, 20).value
    requires !WalkOf(c, t, useCandidate).Beyond?
    ensures !Judge(c, t, useCandidate).ok
  {
    hide Judge, WalkOf, Positions, Attribute, Fingerprint, LoadUInt16BE, LoadUInt32BE, Crc32.MessageBits;
    BurstBreaksFingerprint(s, t, pos, i, c, StartNotes(useCandidate));
    AcceptedExactly(c, t, useCandidate);
    SameType(s, t, pos);
    assert !Acceptable(c, t, pos);
  }

  lemma SameType(s: seq<Byte>, t: seq<Byte>, pos: nat)
    requires pos + 4 <= |s| == |t| && s[pos..] == t[pos..]
    ensures LoadUInt16BE(s, pos) == LoadUInt16BE(t, pos)
  {
    assert s[pos] == s[pos..][0] && s[pos + 1] == s[pos..][1];
    assert t[pos] == t[pos..][0] && t[pos + 1] == t[pos..][1];
  }

  /** The fields of a response that lie outside its address value. */
  lemma FieldsOfDamaged(c: Credentials, id: seq<Byte>, e: Endpoint, t: seq<Byte>)
    requires |id| == TRANSACTION_ID_LENGTH
    requires |t| == 64 && t[..24] == Response(c, id, e)[..24] && t[32..] == Response(c, id, e)[32..]
    ensures var s := Response(c, id, e);
            && LoadUInt32BE(t, 4) == 0x2112A442
            && LoadUInt16BE(t, 20) == 0x0020 && LoadUInt16BE(t, 22) == 8
            && LoadUInt16BE(t, 32) == 0x0008 && LoadUInt16BE(t, 34) == 20
            && LoadUInt16BE(t, 56) == 0x8028 && LoadUInt16BE(t, 58) == 4
            && LoadUInt32BE(t, 60) == Fingerprint(s[..56])
  {
    ResponseFields(c, id, e);
    hide Response, Fingerprint;
    var s := Response(c, id, e);
    assert forall q :: 0 <= q < 24 ==> t[q] == t[..24][q] && s[q] == s[..24][q];
    assert forall q :: 32 <= q < 64 ==> t[q] == t[32..][q - 32] && s[q] == s[32..][q - 32];
  }

  /** A response whose address was changed within four consecutive bytes is not accepted by any
      parser, whatever its password and digest. */
  lemma DamagedAddressRejected(c: Credentials, other: Credentials, id: seq<Byte>, e: Endpoint,
                               t: seq<Byte>, k: nat, useCandidate: bool)
    requires |id| == TRANSACTION_ID_LENGTH && |t| == 64 && t != Response(c, id, e) && 24 <= k <= 28
    requires |Response(c, id, e)| == 64
    requires t[..k] == Response(c, id, e)[..k] && t[k + 4..] == Response(c, id, e)[k + 4..]
    ensures WalkOf(other, t, useCandidate).Rejected? && !Judge(other, t, useCandidate).ok
  {
    hide Response, Fingerprint, LoadUInt16BE, LoadUInt32BE;
    var s := Response(c, id, e);
    assert t[..24] == t[..k][..24] && s[..24] == s[..k][..24];
    assert t[32..] == t[k + 4..][28 - k..] && s[32..] == s[k + 4..][28 - k..];
    FieldsOfDamaged(c, id, e, t);
    DifferentFingerprints(s, t, k);
    var n0 := StartNotes(useCandidate);
    var n1 := n0.(integrity := Some(32));
    assert Attribute(other, t, 56, n1) == Rejected(useCandidate);
    assert Attributes(other, t, 56, n1) == Rejected(useCandidate);
    assert Attribute(other, t, 32, n0) == Accepted(n1);
    assert Attributes(other, t, 32, n0) == Rejected(useCandidate);
    assert Attribute(other, t, 20, n0) == Accepted(n0);
    assert Attributes(other, t, 20, n0) == Rejected(useCandidate);
  }

  lemma DifferentFingerprints(s: seq<Byte>, t: seq<Byte>, k: nat)
    requires |s| == |t| == 64 && s != t && k <= 28 && t[..k] == s[..k] && t[k + 4..] == s[k + 4..]
    ensures Fingerprint(t[..56]) != Fingerprint(s[..56])
  {
    hide Fingerprint, Crc32.BitwiseCrc;
    var a, b := s[..56], t[..56];
    forall q | 0 <= q < 64 && (q < k || q >= k + 4)
      ensures s[q] == t[q]
    {
      assert if q < k then s[q] == s[..k][q] && t[q] == t[..k][q]
             else s[q] == s[k + 4..][q - k - 4] && t[q] == t[k + 4..][q - k - 4];
    }
    var q :| 0 <= q < 64 && s[q] != t[q];
    assert a[q] != b[q];
    Crc32.ByteBurstDetected(a, b, k);
    if Fingerprint(b) == Fingerprint(a) {
      FingerprintInjective(a, b);
    }
  }
}
