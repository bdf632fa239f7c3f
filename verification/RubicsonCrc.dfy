/** CRC-8 as the sensor uses it (polynomial 0x31, initial value 0x6c), and what it detects. */
module RubicsonCrc {

  type bits8 = bv8

  const POLY: bits8 := 0x31
  const INIT: bits8 := 0x6c

  /** One shift of the register. */
  function Shift(crc: bits8, poly: bits8): bits8 {
    if crc & 0x80 != 0 then (crc << 1) ^ poly else crc << 1
  }

  function Shifts(crc: bits8, poly: bits8, n: nat): bits8
    decreases n
  {
    if n == 0 then crc else Shifts(Shift(crc, poly), poly, n - 1)
  }

  function Crc8(data: seq<bits8>, poly: bits8, crc: bits8): bits8 {
    if data == [] then crc else Crc8(data[1..], poly, Shifts(crc ^ data[0], poly, 8))
  }

  method CalculateCrc8(data: seq<bits8>, poly: bits8, init: bits8) returns (crc: bits8)
    ensures crc == Crc8(data, poly, init)
  {
    crc := init;
    assert data[0..] == data;
    for i := 0 to |data|
      invariant Crc8(data[i..], poly, crc) == Crc8(data, poly, init)
    {
      assert data[i..][1..] == data[i + 1..];
      crc := crc ^ data[i];
      ghost var mixed := crc;
      for k := 0 to 8
        invariant Shifts(crc, poly, 8 - k) == Shifts(mixed, poly, 8)
      {
        ghost var shifted := Shift(crc, poly);
        assert Shifts(crc, poly, 8 - k) == Shifts(shifted, poly, 8 - (k + 1));
        if crc & 0x80 != 0 {
          crc := (crc << 1) ^ poly;
        } else {
          crc := crc << 1;
        }
      }
    }
  }

  lemma {:induction false} CrcPush(data: seq<bits8>, last: bits8, poly: bits8, crc: bits8)
    ensures Crc8(data + [last], poly, crc) == Shifts(Crc8(data, poly, crc) ^ last, poly, 8)
  {
    if data != [] {
      assert (data + [last])[1..] == data[1..] + [last];
      CrcPush(data[1..], last, poly, Shifts(crc ^ data[0], poly, 8));
    }
  }

  lemma ShiftZero(x: bits8)
    ensures Shift(x, POLY) == 0 <==> x == 0
  {}

  /** The register never falls to zero by itself: the polynomial is odd. */
  lemma {:induction false} ShiftsZero(x: bits8, n: nat)
    ensures Shifts(x, POLY, n) == 0 <==> x == 0
    decreases n
  {
    if n > 0 {
      ShiftZero(x);
      ShiftsZero(Shift(x, POLY), n - 1);
    }
  }

  lemma XorZero(a: bits8, b: bits8)
    ensures a ^ b == 0 <==> a == b
  {}

  /** For messages of any length the checksum over message and received byte is zero exactly for the right byte. */
  lemma ChecksumIff(data: seq<bits8>, received: bits8)
    ensures Crc8(data + [received], POLY, INIT) == 0 <==> received == Crc8(data, POLY, INIT)
  {
    var crc := Crc8(data, POLY, INIT);
    CrcPush(data, received, POLY, INIT);
    ShiftsZero(crc ^ received, 8);
    XorZero(crc, received);
  }

  // ---------- parity ----------

  function Fold4(b: bits8): bits8 {
    b ^ (b >> 4)
  }

  function Fold2(b: bits8): bits8 {
    b ^ (b >> 2)
  }

  function Fold1(b: bits8): bits8 {
    (b ^ (b >> 1)) & 1
  }

  /** An odd number of one bits. */
  predicate Odd(b: bits8) {
    Fold1(Fold2(Fold4(b))) == 1
  }

  lemma Fold4Linear(a: bits8, b: bits8)
    ensures Fold4(a ^ b) == Fold4(a) ^ Fold4(b)
  {}

  lemma Fold2Linear(a: bits8, b: bits8)
    ensures Fold2(a ^ b) == Fold2(a) ^ Fold2(b)
  {}

  lemma Fold1Linear(a: bits8, b: bits8)
    ensures Fold1(a ^ b) == 1 <==> (Fold1(a) == 1) != (Fold1(b) == 1)
  {}

  lemma OddLinear(a: bits8, b: bits8)
    ensures Odd(a ^ b) <==> Odd(a) != Odd(b)
  {
    hide Fold4, Fold2, Fold1;
    Fold4Linear(a, b);
    Fold2Linear(Fold4(a), Fold4(b));
    Fold1Linear(Fold2(Fold4(a)), Fold2(Fold4(b)));
  }

  /** 0x131 has an even number of terms, so a shift keeps the parity of the register. */
  lemma ShiftKeepsParity(x: bits8)
    ensures Odd(Shift(x, POLY)) == Odd(x)
  {}

  lemma {:induction false} ShiftsKeepParity(x: bits8, n: nat)
    ensures Odd(Shifts(x, POLY, n)) == Odd(x)
    decreases n
  {
    if n > 0 {
      ShiftKeepsParity(x);
      ShiftsKeepParity(Shift(x, POLY), n - 1);
    }
  }

  predicate OddOf(data: seq<bits8>) {
    data != [] && Odd(data[0]) != OddOf(data[1..])
  }

  /** The checksum carries the parity of everything it covers. */
  lemma {:induction false} CrcParity(data: seq<bits8>, crc: bits8)
    ensures Odd(Crc8(data, POLY, crc)) <==> Odd(crc) != OddOf(data)
  {
    hide Odd, Shifts;
    if data != [] {
      CrcParity(data[1..], Shifts(crc ^ data[0], POLY, 8));
      ShiftsKeepParity(crc ^ data[0], 8);
      OddLinear(crc, data[0]);
    }
  }

  lemma {:induction false} OddOfAppend(s: seq<bits8>, t: seq<bits8>)
    ensures OddOf(s + t) <==> OddOf(s) != OddOf(t)
  {
    hide Odd;
    if s == [] {
      assert s + t == t;
    } else {
      assert (s + t)[1..] == s[1..] + t;
      OddOfAppend(s[1..], t);
    }
  }

  function XorOf(s: seq<bits8>, t: seq<bits8>): (x: seq<bits8>)
    requires |s| == |t|
    ensures |x| == |s|
  {
    if s == [] then [] else [s[0] ^ t[0]] + XorOf(s[1..], t[1..])
  }

  lemma {:induction false} XorOfAppend(s: seq<bits8>, t: seq<bits8>, x: bits8, y: bits8)
    requires |s| == |t|
    ensures XorOf(s + [x], t + [y]) == XorOf(s, t) + [x ^ y]
  {
    if s == [] {
      assert s + [x] == [x] && t + [y] == [y];
    } else {
      assert (s + [x])[1..] == s[1..] + [x] && (t + [y])[1..] == t[1..] + [y];
      XorOfAppend(s[1..], t[1..], x, y);
    }
  }

  lemma {:induction false} OddOfXor(s: seq<bits8>, t: seq<bits8>)
    requires |s| == |t|
    ensures OddOf(XorOf(s, t)) <==> OddOf(s) != OddOf(t)
  {
    hide Odd;
    if s != [] {
      OddLinear(s[0], t[0]);
      OddOfXor(s[1..], t[1..]);
      assert XorOf(s, t)[1..] == XorOf(s[1..], t[1..]);
    }
  }

  function Bit(b: bits8, mask: bits8): nat {
    if b & mask != 0 then 1 else 0
  }

  /** The number of one bits. */
  function Weight(b: bits8): nat {
    Bit(b, 0x80) + Bit(b, 0x40) + Bit(b, 0x20) + Bit(b, 0x10) + Bit(b, 0x08) + Bit(b, 0x04) + Bit(b, 0x02)
      + Bit(b, 0x01)
  }

  function WeightOf(data: seq<bits8>): nat {
    if data == [] then 0 else Weight(data[0]) + WeightOf(data[1..])
  }

  lemma OddIsWeight(b: bits8)
    ensures Odd(b) <==> Weight(b) % 2 == 1
  {}

  lemma {:induction false} OddOfIsWeight(data: seq<bits8>)
    ensures OddOf(data) <==> WeightOf(data) % 2 == 1
  {
    hide Odd, Weight;
    if data != [] {
      OddIsWeight(data[0]);
      OddOfIsWeight(data[1..]);
    }
  }
}
