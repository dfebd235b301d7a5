/** crc32.cpp: the table-driven CRC-32 of RFC 1952. */
module Crc32 {
  import opened Bytes

  const POLYNOMIAL: bv32 := 0xEDB88320
  const ALL_ONES: bv32 := 0xFFFFFFFF

  function Xor(a: bv32, b: bv32): bv32 {
    a ^ b
  }

  /** One bit of division by the reversed polynomial. */
  function BitStep(c: bv32): bv32 {
    if Odd(c) then Xor(POLYNOMIAL, Half(c)) else Half(c)
  }

  predicate Odd(c: bv32) {
    c & 1 == 1
  }

  function Half(c: bv32): bv32 {
    c >> 1
  }

  function BitSteps(c: bv32, n: nat): bv32
    decreases n
  {
    if n == 0 then c else BitSteps(BitStep(c), n - 1)
  }

  // ----- reference: division bit by bit -----

  /** The message bits are divided in one at a time. */
  function Feed(c: bv32, bits: seq<bool>): bv32
    decreases |bits|
  {
    if bits == [] then c else Feed(BitStep(Xor(c, BitValue(bits[0]))), bits[1..])
  }

  function BitValue(b: bool): bv32 {
    if b then 1 else 0
  }

  /** The n lowest bits, least significant first. */
  function LowBits(d: nat, n: nat): (r: seq<bool>)
    ensures |r| == n
    decreases n
  {
    if n == 0 then [] else [d % 2 == 1] + LowBits(d / 2, n - 1)
  }

  function BitsOf(d: Byte): (r: seq<bool>)
    ensures |r| == 8
  {
    LowBits(d, 8)
  }

  function MessageBits(data: seq<Byte>): (r: seq<bool>)
    ensures |r| == 8 * |data|
  {
    if data == [] then []
    else
      var last := |data| - 1;
      MessageBits(data[..last]) + BitsOf(data[last])
  }

  /** Section 8 of RFC 1952, straight from the division: start from all ones, end with the complement. */
  function BitwiseCrc(data: seq<Byte>): bv32 {
    Feed(ALL_ONES, MessageBits(data)) ^ ALL_ONES
  }

  // ----- the step is linear and invertible -----

  lemma HalfXor(a: bv32, b: bv32)
    ensures Half(Xor(a, b)) == Xor(Half(a), Half(b))
  {
  }

  lemma OddXor(a: bv32, b: bv32)
    ensures Odd(Xor(a, b)) <==> Odd(a) != Odd(b)
  {
  }

  lemma XorAssociates(a: bv32, b: bv32, c: bv32)
    ensures Xor(a, Xor(b, c)) == Xor(Xor(a, b), c)
  {
  }

  lemma XorSlides(p: bv32, a: bv32, b: bv32)
    ensures Xor(a, Xor(p, b)) == Xor(p, Xor(a, b))
  {
  }

  lemma XorUndoes(p: bv32, x: bv32)
    ensures Xor(p, Xor(p, x)) == x
  {
  }

  lemma XorTwice(p: bv32, a: bv32, b: bv32)
    ensures Xor(Xor(p, a), Xor(p, b)) == Xor(a, b)
  {
    hide Xor;
    XorSlides(p, Xor(p, a), b);
    XorAssociates(p, a, b);
    XorUndoes(p, Xor(a, b));
  }

  lemma XorSwap(a: bv32, b: bv32)
    ensures Xor(a, b) == Xor(b, a) && Xor(a, 0) == a
  {
  }

  lemma XorCancel(a: bv32, b: bv32, c: bv32)
    requires Xor(a, b) == Xor(a, c)
    ensures b == c
  {
  }

  lemma BitStepLinear(a: bv32, b: bv32)
    ensures BitStep(Xor(a, b)) == Xor(BitStep(a), BitStep(b))
  {
    hide Xor, Odd, Half;
    HalfXor(a, b);
    OddXor(a, b);
    XorTwice(POLYNOMIAL, Half(a), Half(b));
    XorSlides(POLYNOMIAL, Half(a), Half(b));
    XorAssociates(POLYNOMIAL, Half(a), Half(b));
  }

  lemma BitStepInjective(a: bv32, b: bv32)
    requires BitStep(a) == BitStep(b)
    ensures a == b
  {
  }

  lemma {:induction false} BitStepsLinear(a: bv32, b: bv32, n: nat)
    ensures BitSteps(Xor(a, b), n) == Xor(BitSteps(a, n), BitSteps(b, n))
    decreases n
  {
    hide BitStep, Xor;
    if n > 0 {
      BitStepLinear(a, b);
      BitStepsLinear(BitStep(a), BitStep(b), n - 1);
    }
  }

  lemma {:induction false} BitStepsInjective(a: bv32, b: bv32, n: nat)
    requires BitSteps(a, n) == BitSteps(b, n)
    ensures a == b
    decreases n
  {
    hide BitStep;
    if n > 0 {
      BitStepsInjective(BitStep(a), BitStep(b), n - 1);
      BitStepInjective(a, b);
    }
  }

  lemma {:induction false} FeedInjective(a: bv32, b: bv32, bits: seq<bool>)
    requires Feed(a, bits) == Feed(b, bits)
    ensures a == b
    decreases |bits|
  {
    hide BitStep, Xor, BitValue;
    if bits != [] {
      var v := BitValue(bits[0]);
      FeedInjective(BitStep(Xor(a, v)), BitStep(Xor(b, v)), bits[1..]);
      BitStepInjective(Xor(a, v), Xor(b, v));
      XorSwap(a, v);
      XorSwap(b, v);
      XorCancel(v, a, b);
    }
  }

  lemma {:induction false} FeedInParts(c: bv32, p: seq<bool>, q: seq<bool>)
    ensures Feed(c, p + q) == Feed(Feed(c, p), q)
    decreases |p|
  {
    hide BitStep, Xor, BitValue;
    if p == [] {
      assert p + q == q;
    } else {
      assert (p + q)[1..] == p[1..] + q;
      FeedInParts(BitStep(Xor(c, BitValue(p[0]))), p[1..], q);
    }
  }

  // ----- up to 32 bits as one word -----

  function Double(w: bv32): bv32 {
    w << 1
  }

  /** No bit is set in both. */
  predicate Disjoint(w: bv32, m: bv32) {
    w & m == 0
  }

  /** The bits as a number, the first one least significant. */
  function WordOf(bits: seq<bool>): bv32 {
    if bits == [] then 0 else Xor(BitValue(bits[0]), Double(WordOf(bits[1..])))
  }

  /** The bits from position n up. */
  function Above(n: nat): bv32 {
    if n == 0 then ALL_ONES else Double(Above(n - 1))
  }

  lemma DisjointDouble(b: bool, w: bv32, m: bv32)
    requires Disjoint(w, m)
    ensures Disjoint(Xor(BitValue(b), Double(w)), Double(m))
  {
  }

  lemma {:induction false} WordFits(bits: seq<bool>)
    ensures Disjoint(WordOf(bits), Above(|bits|))
    decreases |bits|
  {
    if bits == [] {
      assert WordOf(bits) == 0;
    } else {
      hide Disjoint, Xor, BitValue, Double;
      WordFits(bits[1..]);
      DisjointDouble(bits[0], WordOf(bits[1..]), Above(|bits| - 1));
    }
  }

  predicate SubMask(m: bv32, p: bv32) {
    m & p == m
  }

  lemma SubMaskDouble(m: bv32, p: bv32)
    ensures SubMask(m, p) ==> SubMask(Double(m), Double(p))
    ensures SubMask(m, ALL_ONES)
  {
  }

  lemma SubMaskDisjoint(w: bv32, m: bv32, p: bv32)
    requires SubMask(m, p) && Disjoint(w, p)
    ensures Disjoint(w, m)
  {
  }

  lemma {:induction false} AboveShrinks(n: nat)
    ensures SubMask(Above(n + 1), Above(n))
    decreases n
  {
    hide SubMask, Double;
    if n == 0 {
      SubMaskDouble(Above(1), 0);
    } else {
      AboveShrinks(n - 1);
      SubMaskDouble(Above(n), Above(n - 1));
    }
  }

  lemma {:induction false} DisjointAbove(w: bv32, n: nat, k: nat)
    requires n <= k && Disjoint(w, Above(n))
    ensures Disjoint(w, Above(k))
    decreases k - n
  {
    hide Disjoint, SubMask, Above;
    if n < k {
      AboveShrinks(n);
      SubMaskDisjoint(w, Above(n + 1), Above(n));
      DisjointAbove(w, n + 1, k);
    }
  }

  const TOP_BIT: bv32 := 0x80000000

  lemma AboveAllBut31()
    ensures Above(31) == TOP_BIT
  {
    assert Above(4) == 0xFFFFFFF0;
    assert Above(8) == 0xFFFFFF00;
    assert Above(12) == 0xFFFFF000;
    assert Above(16) == 0xFFFF0000;
    assert Above(20) == 0xFFF00000;
    assert Above(24) == 0xFF000000;
    assert Above(28) == 0xF0000000;
  }

  /** Fewer than 32 bits leave the top bit clear. */
  lemma TopClear(bits: seq<bool>)
    requires |bits| < 32
    ensures Disjoint(WordOf(bits), TOP_BIT)
  {
    hide *;
    WordFits(bits);
    DisjointAbove(WordOf(bits), |bits|, 31);
    AboveAllBut31();
  }

  lemma StepOfDouble(w: bv32)
    requires Disjoint(w, TOP_BIT)
    ensures BitStep(Double(w)) == w
  {
  }

  lemma FeedWordStep(c: bv32, b: bool, rest: seq<bool>)
    requires |rest| < 32
    ensures BitStep(Xor(c, Xor(BitValue(b), Double(WordOf(rest))))) == Xor(BitStep(Xor(c, BitValue(b))), WordOf(rest))
  {
    hide *;
    var v, w := BitValue(b), WordOf(rest);
    TopClear(rest);
    XorAssociates(c, v, Double(w));
    BitStepLinear(Xor(c, v), Double(w));
    StepOfDouble(w);
  }

  /** Feeding up to 32 bits is adding them as one word and stepping. */
  lemma {:induction false} FeedWord(c: bv32, bits: seq<bool>)
    requires |bits| <= 32
    ensures Feed(c, bits) == BitSteps(Xor(c, WordOf(bits)), |bits|)
    decreases |bits|
  {
    hide Xor, BitStep, Double, BitValue;
    if bits == [] {
      XorSwap(c, 0);
    } else {
      FeedWordStep(c, bits[0], bits[1..]);
      FeedWord(BitStep(Xor(c, BitValue(bits[0]))), bits[1..]);
    }
  }

  lemma LowBitOfWord(a: bool, v: bv32, b: bool, w: bv32)
    requires Disjoint(v, TOP_BIT) && Disjoint(w, TOP_BIT)
    requires Xor(BitValue(a), Double(v)) == Xor(BitValue(b), Double(w))
    ensures a == b && v == w
  {
  }

  lemma {:induction false} WordInjective(a: seq<bool>, b: seq<bool>)
    requires |a| == |b| <= 32 && WordOf(a) == WordOf(b)
    ensures a == b
    decreases |a|
  {
    hide Xor, Double, BitValue, Disjoint;
    if a != [] {
      TopClear(a[1..]);
      TopClear(b[1..]);
      LowBitOfWord(a[0], WordOf(a[1..]), b[0], WordOf(b[1..]));
      WordInjective(a[1..], b[1..]);
      assert a == [a[0]] + a[1..] && b == [b[0]] + b[1..];
    }
  }

  // ----- burst detection -----

  /** From the same state, different runs of up to 32 bits lead to different states. */
  lemma DifferentWords(c: bv32, a: seq<bool>, b: seq<bool>)
    requires |a| == |b| <= 32 && Feed(c, a) == Feed(c, b)
    ensures a == b
  {
    hide *;
    FeedWord(c, a);
    FeedWord(c, b);
    BitStepsInjective(Xor(c, WordOf(a)), Xor(c, WordOf(b)), |a|);
    XorCancel(c, WordOf(a), WordOf(b));
    WordInjective(a, b);
  }

  /** Any burst: messages that differ, but only within a window of 32 consecutive bits,
      have different remainders. */
  lemma BurstChangesRemainder(c: bv32, front: seq<bool>, a: seq<bool>, b: seq<bool>, back: seq<bool>)
    requires |a| == |b| <= 32 && a != b
    ensures Feed(c, front + a + back) != Feed(c, front + b + back)
  {
    hide *;
    var s := Feed(c, front);
    FeedInParts(c, front, a);
    FeedInParts(c, front, b);
    FeedInParts(c, front + a, back);
    FeedInParts(c, front + b, back);
    if Feed(c, front + a + back) == Feed(c, front + b + back) {
      FeedInjective(Feed(s, a), Feed(s, b), back);
      DifferentWords(s, a, b);
    }
  }

  // ----- the table-driven form -----

  /** A byte as a 32-bit word. */
  function Widen(d: Byte): bv32 {
    (d as bv8) as bv32
  }

  function LowByte(x: bv32): bv32 {
    x & 0xFF
  }

  function DropByte(x: bv32): bv32 {
    x >> 8
  }

  function ClearByte(x: bv32): bv32 {
    x & 0xFFFFFF00
  }

  lemma SplitByte(x: bv32)
    ensures Xor(LowByte(x), ClearByte(x)) == x && DropByte(ClearByte(x)) == DropByte(x)
    ensures LowByte(ClearByte(x)) == 0
  {
  }

  lemma EightSteps(h: bv32)
    requires LowByte(h) == 0
    ensures BitStep(BitStep(BitStep(BitStep(BitStep(BitStep(BitStep(BitStep(h)))))))) == DropByte(h)
  {
  }

  lemma UnrollEight(h: bv32)
    ensures BitSteps(h, 8) == BitStep(BitStep(BitStep(BitStep(BitStep(BitStep(BitStep(BitStep(h))))))))
  {
    hide BitStep;
    var h4 := BitStep(BitStep(BitStep(BitStep(h))));
    assert BitSteps(h, 8) == BitSteps(BitStep(BitStep(h)), 6);
    assert BitSteps(BitStep(BitStep(h)), 6) == BitSteps(h4, 4);
    assert BitSteps(h4, 4) == BitSteps(BitStep(BitStep(h4)), 2);
  }

  lemma HighBytesOnly(c: bv32, w: bv32)
    requires Disjoint(w, 0xFFFFFF00)
    ensures DropByte(Xor(c, w)) == DropByte(c)
  {
  }

  /** What the table entry of the low byte adds is exactly eight bits of division. */
  lemma TableStep(c: bv32, d: Byte)
    ensures Feed(c, BitsOf(d)) == Xor(BitSteps(LowByte(Xor(c, Widen(d))), 8), DropByte(c))
  {
    assert Above(8) == 0xFFFFFF00;
    hide *;
    var w := WordOf(BitsOf(d));
    var x := Xor(c, w);
    assert w == Widen(d) by { TableWord(d); }
    FeedWord(c, BitsOf(d));
    WordFits(BitsOf(d));
    HighBytesOnly(c, w);
    SplitByte(x);
    BitStepsLinear(LowByte(x), ClearByte(x), 8);
    UnrollEight(ClearByte(x));
    EightSteps(ClearByte(x));
  }

  lemma HalfOfByte(x: bv8)
    ensures x as int / 2 == (x >> 1) as int && (x as int % 2 == 1 <==> x & 1 == 1)
  {
  }

  lemma WordOfHalf(x: bv8)
    ensures x as bv32 == Xor(BitValue(x & 1 == 1), Double((x >> 1) as bv32))
  {
  }

  lemma {:induction false} WordOfLowBits(x: bv8, n: nat)
    requires x as int < Pow2(n)
    ensures WordOf(LowBits(x as int, n)) == x as bv32
    decreases n
  {
    hide Xor, Double, BitValue;
    if n == 0 {
      assert x == 0;
    } else {
      HalfOfByte(x);
      WordOfHalf(x);
      WordOfLowBits(x >> 1, n - 1);
    }
  }

  lemma Successor(x: bv8)
    requires x != 0xFF
    ensures (x + 1) as int == x as int + 1
  {
  }

  lemma SameByte(x: bv8)
    ensures (x as int) as bv8 == x
  {
  }

  /** Every byte is a word of eight bits. */
  lemma {:induction false} ByteAsWord(d: Byte) returns (x: bv8)
    ensures x as int == d
    decreases d
  {
    if d == 0 {
      x := 0;
    } else {
      x := ByteAsWord(d - 1);
      Successor(x);
      x := x + 1;
    }
  }

  /** A byte's bits spell the byte. */
  lemma TableWord(d: Byte)
    ensures WordOf(BitsOf(d)) == Widen(d)
  {
    hide WordOf, LowBits;
    assert Pow2(8) == 0x100 by { assert Pow2(4) == 16; }
    var x := ByteAsWord(d);
    SameByte(x);
    WordOfLowBits(x, 8);
  }

  /** The table of the source: entry i is i divided by eight bits. */
  ghost predicate IsTable(t: seq<bv32>) {
    |t| == 256 && forall i :: 0 <= i < 256 ==> t[i] == BitSteps(i as bv32, 8)
  }

  lemma {:induction false} StepAfter(c: bv32, n: nat)
    ensures BitSteps(c, n + 1) == BitStep(BitSteps(c, n))
    decreases n
  {
    hide BitStep;
    if n > 0 {
      StepAfter(BitStep(c), n - 1);
    }
  }

  method LoadCrc32Table() returns (table: array<bv32>)
    ensures fresh(table) && IsTable(table[..])
  {
    hide BitSteps;
    table := new bv32[256];
    for i := 0 to 256
      invariant forall k :: 0 <= k < i ==> table[k] == BitSteps(k as bv32, 8)
    {
      table[i] := DivideByte(i as bv32);
    }
  }

  /** The inner loop: eight bits of division. */
  method DivideByte(i: bv32) returns (c: bv32)
    ensures c == BitSteps(i, 8)
  {
    hide BitStep;
    c := i;
    for j := 0 to 8
      invariant c == BitSteps(i, j)
    {
      StepAfter(i, j);
      c := DivideBit(c);
    }
  }

  method DivideBit(c: bv32) returns (r: bv32)
    ensures r == BitStep(c)
  {
    if c & 1 == 1 {
      r := POLYNOMIAL ^ (c >> 1);
    } else {
      r := c >> 1;
    }
  }

  lemma FeedNothing(c: bv32, data: seq<Byte>)
    ensures Feed(c, MessageBits(data[..0])) == c
  {
  }

  lemma FeedByte(c: bv32, data: seq<Byte>, i: nat)
    requires i < |data|
    ensures Feed(c, MessageBits(data[..i + 1])) == Feed(Feed(c, MessageBits(data[..i])), BitsOf(data[i]))
  {
    hide Feed, BitsOf;
    assert data[..i + 1][..i] == data[..i];
    FeedInParts(c, MessageBits(data[..i]), BitsOf(data[i]));
  }

  lemma IndexOfByte(x: bv32)
    ensures 0 <= LowByte(x) as int < 256 && (LowByte(x) as int) as bv32 == LowByte(x)
  {
  }

  method Calculate(table: array<bv32>, data: seq<Byte>) returns (crc: bv32)
    requires IsTable(table[..])
    ensures crc == BitwiseCrc(data)
  {
    hide BitStep, BitSteps, Feed, Xor, Widen, LowByte, DropByte;
    var c := ALL_ONES;
    FeedNothing(c, data);
    for i := 0 to |data|
      invariant c == Feed(ALL_ONES, MessageBits(data[..i]))
    {
      FeedByte(ALL_ONES, data, i);
      TableStep(c, data[i]);
      var x := Xor(c, Widen(data[i]));
      IndexOfByte(x);
      c := Xor(table[LowByte(x) as int], DropByte(c));
    }
    assert data[..|data|] == data;
    crc := c ^ 0xFFFFFFFF;
  }

  // ----- what the checksum detects -----

  lemma {:induction false} LowBitsInjective(d: nat, e: nat, n: nat)
    requires d < Pow2(n) && e < Pow2(n) && LowBits(d, n) == LowBits(e, n)
    ensures d == e
    decreases n
  {
    if n > 0 {
      var x, y := LowBits(d, n), LowBits(e, n);
      assert x[0] == y[0] && x[1..] == y[1..];
      LowBitsInjective(d / 2, e / 2, n - 1);
    }
  }

  lemma BitsInjective(d: Byte, e: Byte)
    requires BitsOf(d) == BitsOf(e)
    ensures d == e
  {
    hide LowBits;
    assert Pow2(8) == 0x100 by { assert Pow2(4) == 16; }
    LowBitsInjective(d, e, 8);
  }

  lemma {:induction false} MessageBitAt(data: seq<Byte>, p: nat, q: nat)
    requires p < |data| && q < 8
    ensures MessageBits(data)[8 * p + q] == BitsOf(data[p])[q]
    decreases |data|
  {
    hide BitsOf;
    var last := |data| - 1;
    if p < last {
      MessageBitAt(data[..last], p, q);
    }
  }

  lemma MessageBitsInjective(a: seq<Byte>, b: seq<Byte>)
    requires MessageBits(a) == MessageBits(b)
    ensures a == b
  {
    hide BitsOf, MessageBits;
    forall p | 0 <= p < |a|
      ensures a[p] == b[p]
    {
      forall q | 0 <= q < 8
        ensures BitsOf(a[p])[q] == BitsOf(b[p])[q]
      {
        MessageBitAt(a, p, q);
        MessageBitAt(b, p, q);
      }
      BitsInjective(a[p], b[p]);
    }
  }

  /** Equal outside the 32 positions from i on. */
  ghost predicate AgreeOutside(a: seq<bool>, b: seq<bool>, i: nat) {
    |a| == |b| && forall j :: 0 <= j < |a| && (j < i || j >= i + 32) ==> a[j] == b[j]
  }

  lemma BurstInBits(c: bv32, a: seq<bool>, b: seq<bool>, i: nat)
    requires AgreeOutside(a, b, i) && a != b
    ensures Feed(c, a) != Feed(c, b)
  {
    hide Feed;
    var lo := if i <= |a| then i else |a|;
    var hi := if i + 32 <= |a| then i + 32 else |a|;
    assert a == a[..lo] + a[lo..hi] + a[hi..];
    assert b == b[..lo] + b[lo..hi] + b[hi..];
    assert a[..lo] == b[..lo] && a[hi..] == b[hi..];
    BurstChangesRemainder(c, a[..lo], a[lo..hi], b[lo..hi], a[hi..]);
  }

  /** Burst detection: messages of equal length whose bits differ only within 32 consecutive
      positions, byte-aligned or not, never have the same CRC. */
  lemma BurstDetected(a: seq<Byte>, b: seq<Byte>, i: nat)
    requires AgreeOutside(MessageBits(a), MessageBits(b), i) && a != b
    ensures BitwiseCrc(a) != BitwiseCrc(b)
  {
    hide Feed, MessageBits;
    if MessageBits(a) == MessageBits(b) {
      MessageBitsInjective(a, b);
    }
    BurstInBits(ALL_ONES, MessageBits(a), MessageBits(b), i);
  }

  /** In particular for a window of four consecutive bytes. */
  lemma ByteBurstDetected(a: seq<Byte>, b: seq<Byte>, k: nat)
    requires |a| == |b| && a != b
    requires forall p :: 0 <= p < |a| && (p < k || p >= k + 4) ==> a[p] == b[p]
    ensures BitwiseCrc(a) != BitwiseCrc(b)
  {
    hide BitsOf, MessageBits, BitwiseCrc;
    forall j | 0 <= j < 8 * |a| && (j < 8 * k || j >= 8 * k + 32)
      ensures MessageBits(a)[j] == MessageBits(b)[j]
    {
      MessageBitAt(a, j / 8, j % 8);
      MessageBitAt(b, j / 8, j % 8);
    }
    BurstDetected(a, b, 8 * k);
  }

  // ----- the check value -----

  /** One byte of a message, its division given. */
  lemma ByteDivided(c: bv32, data: seq<Byte>, i: nat, x: bv32, y: bv32)
    requires i < |data| && Feed(ALL_ONES, MessageBits(data[..i])) == c
    requires Xor(c, Widen(data[i])) == x && BitSteps(x, 8) == y
    ensures Feed(ALL_ONES, MessageBits(data[..i + 1])) == y
  {
    hide Feed, Xor, MessageBits, BitsOf, Widen, BitSteps;
    FeedByte(ALL_ONES, data, i);
    FeedWord(c, BitsOf(data[i]));
    TableWord(data[i]);
  }

  lemma Divisions()
    ensures BitSteps(0xFFFFFFCE, 8) == 0x7C231048
    ensures BitSteps(0x7C23107A, 8) == 0xB0ACBB32
    ensures BitSteps(0xB0ACBB01, 8) == 0x77B79C2D
    ensures BitSteps(0x77B79C19, 8) == 0x641C1F5C
    ensures BitSteps(0x641C1F69, 8) == 0x340AC5E3
    ensures BitSteps(0x340AC5D5, 8) == 0xF68D2C9E
    ensures BitSteps(0xF68D2CA9, 8) == 0xAFFC9660
    ensures BitSteps(0xAFFC9658, 8) == 0x651F2550
    ensures BitSteps(0x651F2569, 8) == 0x340BC6D9
  {
    hide BitSteps;
    UnrollEight(0xFFFFFFCE);
    UnrollEight(0x7C23107A);
    UnrollEight(0xB0ACBB01);
    UnrollEight(0x77B79C19);
    UnrollEight(0x641C1F69);
    UnrollEight(0x340AC5D5);
    UnrollEight(0xF68D2CA9);
    UnrollEight(0xAFFC9658);
    UnrollEight(0x651F2569);
  }

  /** The check value of CRC-32: the one of the ASCII digits 1 to 9. */
  lemma CheckValue(data: seq<Byte>)
    requires data == [0x31, 0x32, 0x33, 0x34, 0x35, 0x36, 0x37, 0x38, 0x39]
    ensures BitwiseCrc(data) == 0xCBF43926
  {
    hide Feed, MessageBits, BitSteps;
    Divisions();
    FeedNothing(ALL_ONES, data);
    ByteDivided(0xFFFFFFFF, data, 0, 0xFFFFFFCE, 0x7C231048);
    ByteDivided(0x7C231048, data, 1, 0x7C23107A, 0xB0ACBB32);
    ByteDivided(0xB0ACBB32, data, 2, 0xB0ACBB01, 0x77B79C2D);
    ByteDivided(0x77B79C2D, data, 3, 0x77B79C19, 0x641C1F5C);
    ByteDivided(0x641C1F5C, data, 4, 0x641C1F69, 0x340AC5E3);
    ByteDivided(0x340AC5E3, data, 5, 0x340AC5D5, 0xF68D2C9E);
    ByteDivided(0xF68D2C9E, data, 6, 0xF68D2CA9, 0xAFFC9660);
    ByteDivided(0xAFFC9660, data, 7, 0xAFFC9658, 0x651F2550);
    ByteDivided(0x651F2550, data, 8, 0x651F2569, 0x340BC6D9);
    assert data[..9] == data;
  }
}
