/**
 Decoding bursts of the 433 MHz sensor: gaps become bits, bits become rows of a
 packet buffer, and the first row with a good checksum is the reading. The
 streaming decoder is measured against a specification that cuts rows first.
 */
module Rubicson {
  import opened RubicsonCrc
  import opened Wrappers

  const BITS_IN_PACKET: nat := 36
  const BYTES_IN_PACKET: nat := 5
  const MAX_PACKETS: nat := 12

  type Packet = s: seq<bits8> | |s| == 5 witness [0, 0, 0, 0, 0]

  /** Temperature in tenths of a degree. */
  datatype Reading = Reading(id: bits8, channel: bits8, batteryOk: bool, temperatureDeciC: int)

  // ---------- one packet ----------

  /** The low `n` bits read as a signed number, by shifting up to 16 bits and back. */
  function SignExtendNthBit(value: nat, scale: nat): int
    requires scale > 0
  {
    var shifted := value * scale % 0x1_0000;
    (if shifted >= 0x8000 then shifted - 0x1_0000 else shifted) / scale
  }

  lemma TwelveBitTwosComplement(value: nat)
    requires value < 0x1000
    ensures SignExtendNthBit(value, 16) == if value < 0x800 then value else value - 0x1000
  {}

  /** The bytes under the checksum: 28 bits, four zero bits, then the received checksum. */
  function Payload(b: Packet): seq<bits8> {
    [b[0], b[1], b[2], b[3] & 0xf0]
  }

  function ReceivedCrc(b: Packet): bits8 {
    ((b[3] & 0x0f) << 4) | ((b[4] & 0xf0) >> 4)
  }

  predicate PacketValid(b: Packet) {
    Crc8(Payload(b) + [ReceivedCrc(b)], POLY, INIT) == 0
  }

  function Fields(b: Packet): Reading {
    Reading(b[0], ((b[1] & 0x30) >> 4) + 1, b[1] & 0x80 != 0,
            SignExtendNthBit((b[1] & 0x0f) as int * 256 + b[2] as int, 16))
  }

  method DecodeRubicson(b: Packet) returns (r: Option<Reading>)
    ensures r == if PacketValid(b) then Some(Fields(b)) else None
  {
    var crcBuf := [b[0], b[1], b[2], b[3] & 0xf0, ((b[3] & 0x0f) << 4) | ((b[4] & 0xf0) >> 4)];
    assert crcBuf == Payload(b) + [ReceivedCrc(b)];
    var crc := CalculateCrc8(crcBuf, 0x31, 0x6c);
    if crc != 0 {
      return None;
    }
    return Some(Fields(b));
  }

  /** A packet is accepted exactly when its checksum byte is the payload's checksum. */
  lemma ValidIffChecksum(b: Packet)
    ensures PacketValid(b) <==> ReceivedCrc(b) == Crc8(Payload(b), POLY, INIT)
  {
    ChecksumIff(Payload(b), ReceivedCrc(b));
  }

  /** The 36 bits of a packet; the last four bits of the buffer are not used. */
  function Used(b: Packet): Packet {
    b[..4] + [b[4] & 0xf0]
  }

  lemma NibblesMove(x: bits8, y: bits8)
    ensures Odd(x & 0xf0) != Odd(((x & 0x0f) << 4) | ((y & 0xf0) >> 4)) <==> Odd(x) != Odd(y & 0xf0)
  {}

  lemma InitIsEven()
    ensures !Odd(INIT) && !Odd(0)
  {}

  /** The checksum covers the same bits the packet holds, in another place. */
  lemma CoveredParity(b: Packet)
    ensures OddOf(Payload(b) + [ReceivedCrc(b)]) <==> OddOf(Used(b))
  {
    var front := [b[0], b[1], b[2]];
    assert Payload(b) + [ReceivedCrc(b)] == front + [b[3] & 0xf0, ReceivedCrc(b)];
    assert Used(b) == front + [b[3], b[4] & 0xf0];
    NibblesMove(b[3], b[4]);
    hide Odd, ReceivedCrc;
    OddOfPair(b[3] & 0xf0, ReceivedCrc(b));
    OddOfPair(b[3], b[4] & 0xf0);
    OddOfAppend(front, [b[3] & 0xf0, ReceivedCrc(b)]);
    OddOfAppend(front, [b[3], b[4] & 0xf0]);
  }

  lemma OddOfPair(x: bits8, y: bits8)
    ensures OddOf([x, y]) <==> Odd(x) != Odd(y)
  {
    hide Odd;
    var pair, single := [x, y], [y];
    assert pair[1..] == single && single[1..] == [];
    assert OddOf(single) <==> Odd(y);
  }

  /** Every accepted packet has an even number of one bits among its 36. */
  lemma ValidPacketsAreEven(b: Packet)
    ensures PacketValid(b) ==> WeightOf(Used(b)) % 2 == 0
  {
    hide Odd, OddOf, WeightOf, Crc8, Payload, ReceivedCrc, Used;
    InitIsEven();
    CrcParity(Payload(b) + [ReceivedCrc(b)], INIT);
    CoveredParity(b);
    OddOfIsWeight(Used(b));
  }

  /** The packet with the chosen bits inverted. */
  function Flipped(b: Packet, flips: Packet): Packet {
    XorOf(b, flips)
  }

  lemma MaskLinear(x: bits8, y: bits8)
    ensures (x ^ y) & 0xf0 == (x & 0xf0) ^ (y & 0xf0)
  {}

  lemma UsedFlipped(b: Packet, flips: Packet)
    ensures Used(Flipped(b, flips)) == XorOf(Used(b), Used(flips))
  {
    hide XorOf;
    MaskLinear(b[4], flips[4]);
    assert b == b[..4] + [b[4]] && flips == flips[..4] + [flips[4]];
    XorOfAppend(b[..4], flips[..4], b[4], flips[4]);
    XorOfAppend(b[..4], flips[..4], b[4] & 0xf0, flips[4] & 0xf0);
  }

  /** Flipping any odd number of the 36 bits of an accepted packet makes it rejected. */
  lemma OddFlipsAreRejected(b: Packet, flips: Packet)
    requires PacketValid(b) && WeightOf(Used(flips)) % 2 == 1
    ensures !PacketValid(Flipped(b, flips))
  {
    hide Odd, OddOf, WeightOf, PacketValid, Used, Flipped;
    ValidPacketsAreEven(b);
    ValidPacketsAreEven(Flipped(b, flips));
    UsedFlipped(b, flips);
    OddOfXor(Used(b), Used(flips));
    OddOfIsWeight(Used(b));
    OddOfIsWeight(Used(flips));
    OddOfIsWeight(Used(Flipped(b, flips)));
  }
}
