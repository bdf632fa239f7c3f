/**
 What the checksum detects. Whether flipped bits of an accepted packet go
 unnoticed does not depend on the packet; the flips alone decide.
 */
module RubicsonErrors {
  import opened Rubicson
  import opened RubicsonCrc

  // ---------- the register is linear ----------

  function Mix(a: bits8, b: bits8): bits8 {
    a ^ b
  }

  lemma TopBits(a: bits8, b: bits8)
    ensures (a ^ b) & 0x80 != 0 <==> (a & 0x80 != 0) != (b & 0x80 != 0)
  {}

  lemma ShiftsLeft(a: bits8, b: bits8, p: bits8)
    ensures (a ^ b) << 1 == (a << 1) ^ (b << 1)
    ensures (a ^ p) ^ b == (a ^ b) ^ p && a ^ (b ^ p) == (a ^ b) ^ p && (a ^ p) ^ (b ^ p) == a ^ b
  {}

  lemma ShiftLinear(a: bits8, b: bits8)
    ensures Shift(Mix(a, b), POLY) == Mix(Shift(a, POLY), Shift(b, POLY))
  {
    TopBits(a, b);
    ShiftsLeft(a, b, POLY);
    ShiftsLeft(a << 1, b << 1, POLY);
  }

  lemma {:induction false} ShiftsLinear(a: bits8, b: bits8, n: nat)
    ensures Shifts(Mix(a, b), POLY, n) == Mix(Shifts(a, POLY, n), Shifts(b, POLY, n))
    decreases n
  {
    hide Mix, Shift;
    if n > 0 {
      ShiftLinear(a, b);
      ShiftsLinear(Shift(a, POLY), Shift(b, POLY), n - 1);
    }
  }

  lemma MixLaws(a: bits8, b: bits8, c: bits8)
    ensures Mix(a, b) == Mix(b, a) && Mix(Mix(a, b), c) == Mix(a, Mix(b, c))
  {}

  lemma MixPairs(a: bits8, b: bits8, x: bits8, y: bits8)
    ensures Mix(Mix(a, b), Mix(x, y)) == Mix(Mix(a, x), Mix(b, y))
  {
    hide Mix;
    MixLaws(Mix(a, b), x, y);
    MixLaws(a, b, x);
    MixLaws(b, x, y);
    MixLaws(a, x, b);
    MixLaws(Mix(a, x), b, y);
  }

  lemma CrcFirst(data: seq<bits8>, crc: bits8)
    requires data != []
    ensures Crc8(data, POLY, crc) == Crc8(data[1..], POLY, Shifts(Mix(crc, data[0]), POLY, 8))
  {}

  lemma CrcOfNothing(data: seq<bits8>, crc: bits8)
    requires data == []
    ensures Crc8(data, POLY, crc) == crc
  {}

  lemma MixedFirst(s: seq<bits8>, t: seq<bits8>)
    requires |s| == |t| && s != []
    ensures XorOf(s, t) != [] && XorOf(s, t)[0] == Mix(s[0], t[0]) && XorOf(s, t)[1..] == XorOf(s[1..], t[1..])
  {}

  lemma {:induction false} CrcLinear(s: seq<bits8>, t: seq<bits8>, a: bits8, b: bits8)
    requires |s| == |t|
    ensures Crc8(XorOf(s, t), POLY, Mix(a, b)) == Mix(Crc8(s, POLY, a), Crc8(t, POLY, b))
  {
    hide Shifts, Crc8, XorOf, Mix;
    if s == [] {
      CrcOfNothing(s, a);
      CrcOfNothing(t, b);
      CrcOfNothing(XorOf(s, t), Mix(a, b));
    } else {
      MixPairs(a, b, s[0], t[0]);
      ShiftsLinear(Mix(a, s[0]), Mix(b, t[0]), 8);
      MixedFirst(s, t);
      CrcFirst(XorOf(s, t), Mix(a, b));
      CrcFirst(s, a);
      CrcFirst(t, b);
      CrcLinear(s[1..], t[1..], Shifts(Mix(a, s[0]), POLY, 8), Shifts(Mix(b, t[0]), POLY, 8));
    }
  }

  /** The five bytes the checksum runs over. */
  function Covered(b: Packet): (c: Packet) {
    Payload(b) + [ReceivedCrc(b)]
  }

  lemma {:induction false} XorOfAt(s: seq<bits8>, t: seq<bits8>, i: nat)
    requires i < |s| == |t|
    ensures XorOf(s, t)[i] == Mix(s[i], t[i])
  {
    hide Mix;
    MixedFirst(s, t);
    if i > 0 {
      XorOfAt(s[1..], t[1..], i - 1);
    }
  }

  lemma MixedFive(s: Packet, t: Packet)
    ensures XorOf(s, t) == [Mix(s[0], t[0]), Mix(s[1], t[1]), Mix(s[2], t[2]), Mix(s[3], t[3]), Mix(s[4], t[4])]
  {
    hide Mix, XorOf;
    XorOfAt(s, t, 0);
    XorOfAt(s, t, 1);
    XorOfAt(s, t, 2);
    XorOfAt(s, t, 3);
    XorOfAt(s, t, 4);
  }

  /** The received checksum from the two bytes it is spread over. */
  function Nibbles(x: bits8, y: bits8): bits8 {
    ((x & 0x0f) << 4) | ((y & 0xf0) >> 4)
  }

  function HighNibble(x: bits8): bits8 {
    x & 0xf0
  }

  lemma NibblesLinear(x: bits8, y: bits8, x': bits8, y': bits8)
    ensures Nibbles(Mix(x, x'), Mix(y, y')) == Mix(Nibbles(x, y), Nibbles(x', y'))
    ensures HighNibble(Mix(x, x')) == Mix(HighNibble(x), HighNibble(x'))
  {}

  lemma CoveredIs(b: Packet)
    ensures Covered(b) == [b[0], b[1], b[2], HighNibble(b[3]), Nibbles(b[3], b[4])]
  {}

  lemma CoveredLinear(b: Packet, flips: Packet)
    ensures Covered(Flipped(b, flips)) == XorOf(Covered(b), Covered(flips))
  {
    hide XorOf, Mix, Nibbles, HighNibble, Covered;
    MixedFive(b, flips);
    CoveredIs(b);
    CoveredIs(flips);
    CoveredIs(Flipped(b, flips));
    MixedFive(Covered(b), Covered(flips));
    NibblesLinear(b[3], b[4], flips[3], flips[4]);
  }

  function Syndrome(flips: Packet): bits8 {
    Crc8(Covered(flips), POLY, 0)
  }

  lemma MixZero(a: bits8, b: bits8)
    ensures Mix(a, 0) == a && (a == 0 ==> Mix(a, b) == b)
  {}

  lemma ValidIs(b: Packet)
    ensures PacketValid(b) <==> Crc8(Covered(b), POLY, INIT) == 0
  {}

  /** The flips alone decide whether an accepted packet is still accepted. */
  lemma FlipsAcceptedIff(b: Packet, flips: Packet)
    requires PacketValid(b)
    ensures PacketValid(Flipped(b, flips)) <==> Syndrome(flips) == 0
  {
    hide Crc8, XorOf, Mix, Covered, PacketValid, Flipped;
    ValidIs(b);
    ValidIs(Flipped(b, flips));
    CoveredLinear(b, flips);
    CrcLinear(Covered(b), Covered(flips), INIT, 0);
    MixZero(INIT, 0);
    MixZero(Crc8(Covered(b), POLY, INIT), Syndrome(flips));
  }

  // ---------- the syndrome as a formula ----------

  /** Eight shifts at once. */
  function Turn(x: bits8): bits8 {
    Shift(Shift(Shift(Shift(Shift(Shift(Shift(Shift(x, POLY), POLY), POLY), POLY), POLY), POLY), POLY), POLY)
  }

  lemma TurnIsShifts(x: bits8)
    ensures Shifts(x, POLY, 8) == Turn(x)
  {
    hide Shift;
    var x4 := Shift(Shift(Shift(Shift(x, POLY), POLY), POLY), POLY);
    assert Shifts(x, POLY, 8) == Shifts(x4, POLY, 4);
    assert Shifts(x4, POLY, 4) == Shifts(Turn(x), POLY, 0);
  }

  lemma TurnZero(x: bits8)
    ensures Turn(x) == 0 <==> x == 0
  {
    hide Turn;
    TurnIsShifts(x);
    ShiftsZero(x, 8);
  }

  /** What the last byte under the checksum has to be for the flips to go unnoticed. */
  function Carry(c: Packet): bits8 {
    Turn(Mix(Turn(Mix(Turn(Mix(Turn(c[0]), c[1])), c[2])), c[3]))
  }

  lemma CrcStep(data: seq<bits8>, i: nat, crc: bits8)
    requires i < |data|
    ensures Crc8(data[i..], POLY, crc) == Crc8(data[i + 1..], POLY, Turn(Mix(crc, data[i])))
  {
    hide Turn, Crc8, Mix;
    assert data[i..][1..] == data[i + 1..];
    CrcFirst(data[i..], crc);
    TurnIsShifts(Mix(crc, data[i]));
  }

  lemma MixFacts(a: bits8, b: bits8)
    ensures Mix(0, a) == a && (Mix(a, b) == 0 <==> a == b)
  {}

  lemma SyndromeIff(flips: Packet)
    ensures Syndrome(flips) == 0 <==> Carry(Covered(flips)) == Covered(flips)[4]
  {
    hide Turn, Covered, Crc8, Mix;
    var c := Covered(flips);
    assert c[0..] == c && c[5..] == [];
    MixFacts(c[0], 0);
    var x1 := Turn(c[0]);
    CrcStep(c, 0, 0);
    var x2 := Turn(Mix(x1, c[1]));
    CrcStep(c, 1, x1);
    var x3 := Turn(Mix(x2, c[2]));
    CrcStep(c, 2, x2);
    var x4 := Turn(Mix(x3, c[3]));
    CrcStep(c, 3, x3);
    CrcStep(c, 4, x4);
    CrcOfNothing(c[5..], Turn(Mix(x4, c[4])));
    TurnZero(Mix(x4, c[4]));
    MixFacts(x4, c[4]);
  }

  // ---------- one, two and three flipped bits ----------

  predicate OneHot(x: bits8) {
    x != 0 && x & (x - 1) == 0
  }

  lemma WeightIsSmall(x: bits8)
    ensures (Weight(x) == 0 <==> x == 0) && (Weight(x) == 1 <==> OneHot(x))
  {}

  function Turns(x: bits8, d: nat): bits8 {
    if d == 0 then x else Turn(Turns(x, d - 1))
  }

  lemma OneTurn(x: bits8)
    requires OneHot(x)
    ensures !OneHot(Turn(x))
  {}

  lemma TwoTurns(x: bits8)
    requires OneHot(x)
    ensures !OneHot(Turn(Turn(x)))
  {}

  lemma ThreeTurns(x: bits8)
    requires OneHot(x)
    ensures !OneHot(Turn(Turn(Turn(x))))
  {}

  lemma FourTurns(x: bits8)
    requires OneHot(x)
    ensures !OneHot(Turn(Turn(Turn(Turn(x)))))
  {}

  /** A single bit never turns into a single bit within the length of a packet. */
  lemma NeverOneHot(x: bits8, d: nat)
    requires OneHot(x) && 1 <= d <= 4
    ensures !OneHot(Turns(x, d))
  {
    hide OneHot, Turn;
    assert Turns(x, 1) == Turn(Turns(x, 0)) == Turn(x);
    OneTurn(x);
    TwoTurns(x);
    ThreeTurns(x);
    FourTurns(x);
    assert Turns(x, 2) == Turn(Turn(x));
    assert Turns(x, 3) == Turn(Turn(Turn(x)));
    assert Turns(x, 4) == Turn(Turn(Turn(Turn(x))));
  }

  lemma CrcTurn(data: seq<bits8>, crc: bits8)
    requires data != []
    ensures Crc8(data, POLY, crc) == Crc8(data[1..], POLY, Turn(Mix(crc, data[0])))
  {
    hide Turn, Crc8, Mix;
    CrcFirst(data, crc);
    TurnIsShifts(Mix(crc, data[0]));
  }

  lemma MixNothing(a: bits8)
    ensures Mix(a, 0) == a && Mix(0, a) == a
  {}

  /** Without further flips a register that is not zero stays so. */
  lemma {:induction false} NothingMore(data: seq<bits8>, crc: bits8)
    requires WeightOf(data) == 0 && crc != 0
    ensures Crc8(data, POLY, crc) != 0
  {
    hide Turn, Crc8, Mix, Weight;
    if data == [] {
      CrcOfNothing(data, crc);
    } else {
      WeightIsSmall(data[0]);
      MixNothing(crc);
      TurnZero(crc);
      CrcTurn(data, crc);
      NothingMore(data[1..], Turn(crc));
    }
  }

  /** One flip behind another: the register is never the second one when it comes. */
  lemma {:induction false} SecondFlip(data: seq<bits8>, first: bits8, d: nat)
    requires WeightOf(data) == 1 && OneHot(first) && 1 <= d && d + |data| <= 5
    ensures Crc8(data, POLY, Turns(first, d)) != 0
  {
    hide Turn, Crc8, Mix, Weight, OneHot;
    var crc := Turns(first, d);
    WeightIsSmall(data[0]);
    CrcTurn(data, crc);
    if data[0] == 0 {
      MixNothing(crc);
      SecondFlip(data[1..], first, d + 1);
    } else {
      NeverOneHot(first, d);
      MixFacts(crc, data[0]);
      TurnZero(Mix(crc, data[0]));
      NothingMore(data[1..], Turn(Mix(crc, data[0])));
    }
  }

  lemma {:induction false} TwoFlips(data: seq<bits8>)
    requires WeightOf(data) == 2 && |data| <= 5
    ensures Crc8(data, POLY, 0) != 0
  {
    hide Turn, Crc8, Mix, Weight, OneHot;
    var c := data[0];
    WeightIsSmall(c);
    MixNothing(c);
    CrcTurn(data, 0);
    TurnZero(c);
    if c == 0 {
      TwoFlips(data[1..]);
    } else if Weight(c) == 1 {
      assert Turns(c, 1) == Turn(Turns(c, 0)) == Turn(c);
      SecondFlip(data[1..], c, 1);
    } else {
      NothingMore(data[1..], Turn(c));
    }
  }

  lemma MovedBits(x: bits8, y: bits8)
    ensures var n := Nibbles(x, y);
            && (n & 0x80 != 0 <==> x & 0x08 != 0) && (n & 0x40 != 0 <==> x & 0x04 != 0)
            && (n & 0x20 != 0 <==> x & 0x02 != 0) && (n & 0x10 != 0 <==> x & 0x01 != 0)
            && (n & 0x08 != 0 <==> y & 0x80 != 0) && (n & 0x04 != 0 <==> y & 0x40 != 0)
            && (n & 0x02 != 0 <==> y & 0x20 != 0) && (n & 0x01 != 0 <==> y & 0x10 != 0)
  {}

  lemma KeptBits(x: bits8)
    ensures var h := HighNibble(x);
            && (h & 0x80 != 0 <==> x & 0x80 != 0) && (h & 0x40 != 0 <==> x & 0x40 != 0)
            && (h & 0x20 != 0 <==> x & 0x20 != 0) && (h & 0x10 != 0 <==> x & 0x10 != 0)
            && h & 0x08 == 0 && h & 0x04 == 0 && h & 0x02 == 0 && h & 0x01 == 0
  {}

  lemma NibblesWeight(x: bits8, y: bits8)
    ensures Weight(x) + Weight(HighNibble(y)) == Weight(HighNibble(x)) + Weight(Nibbles(x, y))
  {
    hide Nibbles, HighNibble;
    var n := Nibbles(x, y);
    MovedBits(x, y);
    KeptBits(x);
    KeptBits(y);
    assert Weight(HighNibble(y)) == Bit(n, 0x08) + Bit(n, 0x04) + Bit(n, 0x02) + Bit(n, 0x01);
  }

  lemma WeightOfFive(c: Packet)
    ensures WeightOf(c) == Weight(c[0]) + Weight(c[1]) + Weight(c[2]) + Weight(c[3]) + Weight(c[4])
  {
    hide Weight;
    assert c[1..][1..] == c[2..] && c[2..][1..] == c[3..] && c[3..][1..] == c[4..] && c[4..][1..] == [];
    assert WeightOf(c[4..]) == Weight(c[4]);
    assert WeightOf(c[3..]) == Weight(c[3]) + WeightOf(c[4..]);
    assert WeightOf(c[2..]) == Weight(c[2]) + WeightOf(c[3..]);
  }

  lemma UsedIs(b: Packet)
    ensures Used(b) == [b[0], b[1], b[2], b[3], HighNibble(b[4])]
  {}

  lemma CoveredWeight(b: Packet)
    ensures WeightOf(Covered(b)) == WeightOf(Used(b))
  {
    hide Weight, WeightOf, Used, Covered, HighNibble, Nibbles;
    UsedIs(b);
    CoveredIs(b);
    WeightOfFive(Used(b));
    WeightOfFive(Covered(b));
    NibblesWeight(b[3], b[4]);
  }

  /** One, two or three flipped bits among the 36 are always noticed. */
  lemma FewFlipsRejected(b: Packet, flips: Packet)
    requires PacketValid(b) && 1 <= WeightOf(Used(flips)) <= 3
    ensures !PacketValid(Flipped(b, flips))
  {
    hide Crc8, WeightOf, Used, Covered, PacketValid, Flipped;
    if WeightOf(Used(flips)) == 2 {
      CoveredWeight(flips);
      TwoFlips(Covered(flips));
      FlipsAcceptedIff(b, flips);
    } else {
      OddFlipsAreRejected(b, flips);
    }
  }

  lemma PolynomialTurns()
    ensures Turn(0x98) == 0x80
  {}

  /** Four are not: these are the terms of the polynomial itself. */
  lemma FourFlipsMissed(b: Packet)
    requires PacketValid(b)
    ensures PacketValid(Flipped(b, [0x98, 0x80, 0, 0, 0]))
  {
    hide Crc8, Turn, PacketValid, Flipped, Mix, HighNibble, Nibbles;
    var flips: Packet := [0x98, 0x80, 0, 0, 0];
    FlipsAcceptedIff(b, flips);
    SyndromeIff(flips);
    CoveredIs(flips);
    NothingNibbles();
    PolynomialTurns();
    MixFacts(0x80, 0x80);
    MixNothing(0);
    TurnZero(0);
  }

  lemma NothingNibbles()
    ensures HighNibble(0) == 0 && Nibbles(0, 0) == 0
  {}

  // ---------- bursts ----------

  /** Up to eight neighbouring bits flipped in the pattern `p`, the first of them bit `r` of byte `k`. */
  function Burst(p: bits8, k: nat, r: nat): (flips: Packet)
    requires k < 4 && r < 8
  {
    [0, 0, 0, 0, 0][k := p >> r][k + 1 := p << (8 - r)]
  }

  lemma PayloadBurst(p: bits8, r: nat)
    requires p != 0 && r < 8
    ensures Turn(p >> r) != p << (8 - r)
  {}

  lemma BoundaryBurst(p: bits8, r: nat)
    requires p != 0 && r < 8
    ensures Turn(Mix(Turn(p >> r), HighNibble(p << (8 - r)))) != Nibbles(p << (8 - r), 0)
  {}

  lemma ChecksumBurst(p: bits8, r: nat)
    requires p != 0 && r <= 4
    ensures Turn(HighNibble(p >> r)) == Nibbles(p >> r, p << (8 - r)) <==> r == 1 && p == 0xff
  {}

  lemma EarlyBurst(p: bits8, k: nat, r: nat)
    requires p != 0 && r < 8 && k <= 1
    ensures Carry(Covered(Burst(p, k, r))) != Covered(Burst(p, k, r))[4]
  {
    hide Turn, Mix, HighNibble, Nibbles;
    var high, low := p >> r, p << (8 - r);
    var x := Mix(Turn(high), low);
    CoveredIs(Burst(p, k, r));
    NothingNibbles();
    MixNothing(0);
    MixNothing(high);
    MixNothing(Turn(x));
    MixNothing(Turn(Turn(x)));
    PayloadBurst(p, r);
    MixFacts(Turn(high), low);
    TurnZero(0);
    TurnZero(x);
    TurnZero(Turn(x));
    TurnZero(Turn(Turn(x)));
  }

  lemma LateBurst(p: bits8, k: nat, r: nat)
    requires p != 0 && r < 8 && 2 <= k < 4 && 8 * k + r <= 28
    ensures Carry(Covered(Burst(p, k, r))) == Covered(Burst(p, k, r))[4] <==> k == 3 && r == 1 && p == 0xff
  {
    hide Turn, Mix, HighNibble, Nibbles;
    var high, low := p >> r, p << (8 - r);
    CoveredIs(Burst(p, k, r));
    MixNothing(0);
    MixNothing(high);
    MixNothing(HighNibble(high));
    TurnZero(0);
    if k == 2 {
      BoundaryBurst(p, r);
    } else {
      ChecksumBurst(p, r);
    }
  }

  /**
   A burst of at most eight of the 36 bits is noticed unless it is all eight
   bits from bit 25 to bit 32, three of the payload and five of the checksum.
   */
  lemma BurstMissedIff(b: Packet, p: bits8, k: nat, r: nat)
    requires PacketValid(b) && p != 0 && r < 8 && 8 * k + r <= 28
    ensures PacketValid(Flipped(b, Burst(p, k, r))) <==> k == 3 && r == 1 && p == 0xff
  {
    hide Carry, Covered, Syndrome, PacketValid, Flipped, Burst;
    FlipsAcceptedIff(b, Burst(p, k, r));
    SyndromeIff(Burst(p, k, r));
    if k <= 1 {
      EarlyBurst(p, k, r);
    } else {
      LateBurst(p, k, r);
    }
  }
}
