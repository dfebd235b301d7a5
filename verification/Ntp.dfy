/** NtpTime of utils.cpp: 32.32 and 16.16 fixed-point time. The double arithmetic of the
    source is stated as the integer arithmetic it amounts to. */
module Ntp {
  import opened Bytes

  const MILLIS: int := 1000

  datatype NtpTime = NtpTime(seconds: UInt32, fractions: UInt32) {

    /** Milliseconds, the fraction rounded to the nearest one (half up). */
    function ToMillis(): nat {
      MILLIS * seconds + (fractions * MILLIS + TWO_TO_32 / 2) / TWO_TO_32
    }

    /** The middle 32 bits: (seconds << 16) | (fractions >> 16). */
    function ToCompactNtp(): UInt32 {
      seconds * TWO_TO_16 % TWO_TO_32 + fractions / TWO_TO_16
    }
  }

  function CreateFromMillis(millis: UInt64): NtpTime {
    NtpTime(millis / MILLIS % TWO_TO_32, millis % MILLIS * TWO_TO_32 / MILLIS)
  }

  function CreateFromCompactNtp(compact: UInt32): NtpTime {
    NtpTime(compact / TWO_TO_16, compact * TWO_TO_16 % TWO_TO_32)
  }

  /** A span of milliseconds in units of 1/65536 s, rounded down. */
  function Units(millis: nat): nat {
    millis * TWO_TO_16 / MILLIS
  }

  /** The round-trip time of a report block, all subtractions modulo 2^32. */
  function RoundTrip(now: UInt64, lastSr: UInt32, delay: UInt32): (r: UInt64) {
    CreateFromCompactNtp((CreateFromMillis(now).ToCompactNtp() - delay - lastSr) % TWO_TO_32).ToMillis()
  }

  // ----- properties -----

  lemma UnitsOfParts(s: nat, m: nat)
    ensures Units(s * MILLIS + m) == s * TWO_TO_16 + Units(m)
  {
  }

  lemma FloorTwice(m: nat)
    ensures m * TWO_TO_32 / MILLIS / TWO_TO_16 == Units(m)
  {
    var q := m * TWO_TO_32 / MILLIS;
    assert m * TWO_TO_32 - MILLIS < q * MILLIS <= m * TWO_TO_32;
  }

  lemma HighHalf(s: nat, u: nat)
    requires u < TWO_TO_16
    ensures s % TWO_TO_32 * TWO_TO_16 % TWO_TO_32 + u == (s * TWO_TO_16 + u) % TWO_TO_32
  {
    var b := s % TWO_TO_32;
    var r := b % TWO_TO_16;
    Remainder32(b * TWO_TO_16, b / TWO_TO_16, r * TWO_TO_16);
    Remainder32(s * TWO_TO_16 + u, s / TWO_TO_32 * TWO_TO_16 + b / TWO_TO_16, r * TWO_TO_16 + u);
  }

  /** The compact form counts whole units of 1/65536 s modulo 2^32: neither flooring twice
      nor cutting the seconds loses anything more. */
  lemma CompactCountsUnits(t: UInt64)
    ensures CreateFromMillis(t).ToCompactNtp() == t * 65536 / 1000 % TWO_TO_32
  {
    var s, m := t / MILLIS, t % MILLIS;
    UnitsOfParts(s, m);
    FloorTwice(m);
    HighHalf(s, Units(m));
  }

  /** ToMillis inverts CreateFromMillis exactly as long as the seconds fit 32 bits. */
  lemma MillisRoundTrip(t: UInt64)
    ensures CreateFromMillis(t).ToMillis() == t <==> t < 4294967296000
  {
    var m := t % MILLIS;
    var f := m * TWO_TO_32 / MILLIS;
    assert m * TWO_TO_32 - MILLIS < f * MILLIS <= m * TWO_TO_32;
    assert (f * MILLIS + TWO_TO_32 / 2) / TWO_TO_32 == m;
  }

  /** Compact time converts to the nearest millisecond. */
  lemma CompactToMillis(c: UInt32)
    ensures CreateFromCompactNtp(c).ToMillis() == (c * 1000 + 32768) / 65536
  {
    var s, f := c / TWO_TO_16, c % TWO_TO_16;
    assert c == s * TWO_TO_16 + f;
    assert c * TWO_TO_16 % TWO_TO_32 == f * TWO_TO_16;
    assert (f * TWO_TO_16 * MILLIS + TWO_TO_32 / 2) / TWO_TO_32 == (f * MILLIS + TWO_TO_16 / 2) / TWO_TO_16;
  }

  /** Flooring three spans separately costs less than three units, not enough to miss a millisecond. */
  lemma UnitsOfSum(t0: nat, d: nat, e: nat)
    ensures Units(e) <= Units(t0 + d + e) - Units(t0) - Units(d) <= Units(e) + 2
  {
  }

  lemma NearestMillisecond(e: nat, c: nat)
    requires Units(e) <= c <= Units(e) + 2
    ensures (c * MILLIS + TWO_TO_16 / 2) / TWO_TO_16 == e
  {
  }

  lemma ModOfDifference(x: int, y: int, z: int)
    ensures (x % TWO_TO_32 - y % TWO_TO_32 - z % TWO_TO_32) % TWO_TO_32 == (x - y - z) % TWO_TO_32
  {
    var d := x % TWO_TO_32 - y % TWO_TO_32 - z % TWO_TO_32;
    Remainder32(x - y - z, x / TWO_TO_32 - y / TWO_TO_32 - z / TWO_TO_32 + d / TWO_TO_32, d % TWO_TO_32);
  }

  /** From 65536 s on the difference wraps and too few milliseconds are computed. */
  lemma NearestOrShort(e: nat, c: nat)
    requires Units(e) <= c <= Units(e) + 2
    ensures (c % TWO_TO_32 * MILLIS + TWO_TO_16 / 2) / TWO_TO_16 == e <==> e < TWO_TO_16 * MILLIS
  {
    if e < TWO_TO_16 * MILLIS {
      assert c < TWO_TO_32;
      NearestMillisecond(e, c);
    } else if e == TWO_TO_16 * MILLIS {
      assert c % TWO_TO_32 <= 2;
    }
  }

  /** A sender report stamped at t0, held by the peer for d ms, answered so that the answer
      arrives at t0 + d + e: the computed round-trip time is exactly e, despite all flooring
      and wrap-around, if and only if e is below 65536 s. */
  lemma RoundTripExact(t0: nat, d: nat, e: nat)
    requires t0 + d + e < TWO_TO_64
    ensures RoundTrip(t0 + d + e, CreateFromMillis(t0).ToCompactNtp(), d * 65536 / 1000 % TWO_TO_32) == e
            <==> e < 65536000
  {
    CompactCountsUnits(t0);
    CompactCountsUnits(t0 + d + e);
    var x, y, z := Units(t0 + d + e), Units(d), Units(t0);
    UnitsOfSum(t0, d, e);
    RoundTripOfUnits(t0 + d + e, x, y, z);
    NearestOrShort(e, x - y - z);
  }

  lemma RoundTripOfUnits(now: UInt64, x: nat, y: nat, z: nat)
    requires CreateFromMillis(now).ToCompactNtp() == x % TWO_TO_32
    ensures RoundTrip(now, z % TWO_TO_32, y % TWO_TO_32)
            == ((x - y - z) % TWO_TO_32 * MILLIS + TWO_TO_16 / 2) / TWO_TO_16
  {
    ModOfDifference(x, y, z);
    CompactToMillis((x - y - z) % TWO_TO_32);
  }
}
