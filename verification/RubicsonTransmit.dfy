/** The sending side: a reading packed with its checksum and keyed as gaps comes back out of the decoder. */
module RubicsonTransmit {
  import opened Rubicson
  import opened RubicsonCrc
  import opened RubicsonGaps

  /** A packet as the sensor sends it; the temperature is twelve bits in two parts. */
  function BuildPayload(id: bits8, channel: bits8, batteryOk: bool, tempHigh: bits8, tempLow: bits8): Packet
    requires 1 <= channel <= 4 && tempHigh < 16
  {
    var second := (if batteryOk then 0x80 else 0) | ((channel - 1) << 4) | tempHigh;
    var crc := Crc8([id, second, tempLow, 0xf0], POLY, INIT);
    [id, second, tempLow, 0xf0 | ((crc & 0xf0) >> 4), (crc & 0x0f) << 4]
  }

  lemma SecondByte(channel: bits8, batteryOk: bool, tempHigh: bits8)
    requires 1 <= channel <= 4 && tempHigh < 16
    ensures var second := (if batteryOk then 0x80 else 0) | ((channel - 1) << 4) | tempHigh;
            ((second & 0x30) >> 4) + 1 == channel && (second & 0x80 != 0 <==> batteryOk) && second & 0x0f == tempHigh
  {}

  lemma CrcNibbles(crc: bits8)
    ensures var third, fourth := 0xf0 | ((crc & 0xf0) >> 4), (crc & 0x0f) << 4;
            third & 0xf0 == 0xf0 && ((third & 0x0f) << 4) | ((fourth & 0xf0) >> 4) == crc && fourth & 0x0f == 0
  {}

  /** A built packet is accepted and read as what it was built from. */
  lemma BuiltPacketReads(id: bits8, channel: bits8, batteryOk: bool, tempHigh: bits8, tempLow: bits8)
    requires 1 <= channel <= 4 && tempHigh < 16
    ensures var b := BuildPayload(id, channel, batteryOk, tempHigh, tempLow);
            PacketValid(b) && b[4] & 0x0f == 0 &&
            Fields(b) == Reading(id, channel, batteryOk, SignExtendNthBit(tempHigh as int * 256 + tempLow as int, 16))
  {
    hide Crc8, SignExtendNthBit;
    var b := BuildPayload(id, channel, batteryOk, tempHigh, tempLow);
    var crc := Crc8([id, b[1], tempLow, 0xf0], POLY, INIT);
    SecondByte(channel, batteryOk, tempHigh);
    CrcNibbles(crc);
    assert Payload(b) == [id, b[1], tempLow, 0xf0];
    ValidIffChecksum(b);
  }

  // ---------- on the air ----------

  /** The 36 bits of a packet, most significant first. */
  function BitsOf(b: Packet): (row: seq<bool>)
    ensures |row| == BITS_IN_PACKET
  {
    seq(BITS_IN_PACKET, i requires 0 <= i < BITS_IN_PACKET => b[i / 8] & Mask(i % 8) != 0)
  }

  /** A gap keys a zero bit, a one bit or the end of a row by its length in microseconds. */
  predicate KeysBit(gap: nat, bit: bool) {
    if bit then 1500 < gap <= 2500 else 750 < gap <= 1500
  }

  predicate Keyed(row: seq<bool>, gaps: seq<nat>) {
    |gaps| == |row| && forall i :: 0 <= i < |row| ==> KeysBit(gaps[i], row[i])
  }

  /** Rows keyed one after the other, each ended by a break. */
  predicate KeyedRows(rows: seq<seq<bool>>, gaps: seq<nat>) {
    if rows == [] then gaps == []
    else
      var n := |rows[0]|;
      n < |gaps| && Keyed(rows[0], gaps[..n]) && 2500 < gaps[n] <= 4500 && KeyedRows(rows[1..], gaps[n + 1..])
  }

  lemma BitsMakeByte(x: bits8)
    ensures (if x & 0x80 != 0 then 0x80 else 0) | (if x & 0x40 != 0 then 0x40 else 0) |
            (if x & 0x20 != 0 then 0x20 else 0) | (if x & 0x10 != 0 then 0x10 else 0) |
            (if x & 0x08 != 0 then 0x08 else 0) | (if x & 0x04 != 0 then 0x04 else 0) |
            (if x & 0x02 != 0 then 0x02 else 0) | (if x & 0x01 != 0 then 0x01 else 0) == x
  {}

  lemma BitOfRow(b: Packet, k: nat, j: nat)
    requires j < 8 && 8 * k + j < BITS_IN_PACKET
    ensures BitAt(BitsOf(b), 8 * k + j, Mask(j)) == if b[k] & Mask(j) != 0 then Mask(j) else 0
  {
    assert (8 * k + j) / 8 == k && (8 * k + j) % 8 == j;
  }

  lemma RowByteOfBits(b: Packet, k: nat)
    requires k < 4
    ensures RowByte(BitsOf(b), k) == b[k]
  {
    hide BitAt, BitsOf;
    BitOfRow(b, k, 0);
    BitOfRow(b, k, 1);
    BitOfRow(b, k, 2);
    BitOfRow(b, k, 3);
    BitOfRow(b, k, 4);
    BitOfRow(b, k, 5);
    BitOfRow(b, k, 6);
    BitOfRow(b, k, 7);
    BitsMakeByte(b[k]);
  }

  lemma LastRowByte(b: Packet)
    requires b[4] & 0x0f == 0
    ensures RowByte(BitsOf(b), 4) == b[4]
  {
    var row := BitsOf(b);
    var x := b[4];
    assert row[32] == (x & Mask(0) != 0) && row[33] == (x & Mask(1) != 0);
    assert row[34] == (x & Mask(2) != 0) && row[35] == (x & Mask(3) != 0);
    BitsMakeByte(x);
    LowClear(x);
  }

  lemma LowClear(x: bits8)
    requires x & 0x0f == 0
    ensures x & 0x08 == 0 && x & 0x04 == 0 && x & 0x02 == 0 && x & 0x01 == 0
  {}

  lemma PacketOfBits(b: Packet)
    requires b[4] & 0x0f == 0
    ensures PacketOf(BitsOf(b)) == b
  {
    hide RowByte, BitsOf;
    RowByteOfBits(b, 0);
    RowByteOfBits(b, 1);
    RowByteOfBits(b, 2);
    RowByteOfBits(b, 3);
    LastRowByte(b);
  }

  /** The bits of a keyed row are collected. */
  lemma {:induction false} RowIsRead(row: seq<bool>, gaps: seq<nat>, current: seq<bool>, after: seq<nat>)
    requires Keyed(row, gaps)
    ensures CutRows(Symbols(gaps + after), current) == CutRows(Symbols(after), current + row)
    decreases |row|
  {
    if row == [] {
      assert gaps + after == after && current + row == current;
    } else {
      var all, tail := gaps + after, gaps[1..] + after;
      assert KeysBit(gaps[0], row[0]) && all[0] == gaps[0] && all[1..] == tail;
      assert Symbols(all) == [Bit(row[0])] + Symbols(tail);
      assert Symbols(all)[1..] == Symbols(tail);
      RowIsRead(row[1..], gaps[1..], current + [row[0]], after);
      assert current + [row[0]] + row[1..] == current + row;
    }
  }

  lemma BreakEndsRow(gap: nat, current: seq<bool>, after: seq<nat>)
    requires 2500 < gap <= 4500
    ensures CutRows(Symbols([gap] + after), current) == Prepend([current], CutRows(Symbols(after), []))
  {
    assert ([gap] + after)[1..] == after && Symbols([gap] + after) == [Break] + Symbols(after);
    assert Symbols([gap] + after)[1..] == Symbols(after);
  }

  lemma {:induction false} RowsAreCut(rows: seq<seq<bool>>, gaps: seq<nat>, after: seq<nat>)
    requires KeyedRows(rows, gaps)
    ensures CutRows(Symbols(gaps + after), []) == Prepend(rows, CutRows(Symbols(after), []))
    decreases |rows|
  {
    hide Symbols, CutRows;
    if rows == [] {
      assert gaps + after == after;
      NothingDone(CutRows(Symbols(after), []));
    } else {
      var n := |rows[0]|;
      var later := gaps[n + 1..] + after;
      assert gaps + after == gaps[..n] + ([gaps[n]] + later);
      RowIsRead(rows[0], gaps[..n], [], [gaps[n]] + later);
      assert [] + rows[0] == rows[0];
      BreakEndsRow(gaps[n], rows[0], later);
      RowsAreCut(rows[1..], gaps[n + 1..], after);
      assert [rows[0]] + (rows[1..] + CutRows(Symbols(after), []).rows) == rows + CutRows(Symbols(after), []).rows;
    }
  }

  /** A burst reads as the first of its first twelve rows with a good checksum, however its bits are keyed. */
  lemma BurstReads(rows: seq<seq<bool>>, gaps: seq<nat>, after: seq<nat>, k: nat)
    requires KeyedRows(rows, gaps) && k < |rows| && k < 12
    requires RowValid(rows[k]) && NoneValid(rows[..k])
    ensures DecodeSpec(gaps + after) == Found(k, Fields(PacketOf(rows[k])))
  {
    hide RowValid, PacketOf, Fields, KeyedRows, Symbols, CutRows;
    RowsAreCut(rows, gaps, after);
    var burst := CutRows(Symbols(gaps + after), []);
    var limit := if |burst.rows| < 12 then |burst.rows| else 12;
    assert burst.rows[k] == rows[k] && forall j :: 0 <= j < k ==> burst.rows[j] == rows[..k][j];
    FirstValidSkips(burst.rows, limit, 0, k);
  }

  /** A last row without a break is read too if it has exactly 36 bits, a good checksum and a place among the twelve. */
  lemma LastRowReadsIff(rows: seq<seq<bool>>, gaps: seq<nat>, row: seq<bool>, tail: seq<nat>)
    requires KeyedRows(rows, gaps) && NoneValid(rows) && Keyed(row, tail)
    ensures DecodeSpec(gaps + tail).Found? <==> |rows| < 12 && |row| == 36 && RowValid(row)
    ensures DecodeSpec(gaps + tail).Found? ==> DecodeSpec(gaps + tail) == Found(|rows|, Fields(PacketOf(row)))
  {
    hide RowValid, PacketOf, Fields, KeyedRows, Symbols, CutRows, BufferOf;
    RowsAreCut(rows, gaps, tail);
    RowIsRead(row, tail, [], []);
    assert tail + [] == tail && [] + row == row && rows + [] == rows;
    CutEnd(row);
    var limit := if |rows| < 12 then |rows| else 12;
    FirstValidSkips(rows, limit, 0, limit);
  }

  /** A gap above 4500 ends the burst: what comes after it is not looked at, nor the row it falls into. */
  lemma ResetEnds(rows: seq<seq<bool>>, gaps: seq<nat>, row: seq<bool>, tail: seq<nat>, gap: nat, after: seq<nat>)
    requires KeyedRows(rows, gaps) && NoneValid(rows) && Keyed(row, tail) && gap > 4500
    ensures DecodeSpec(gaps + (tail + ([gap] + after))) == Failed(BufferOf(rows + [row]))
  {
    hide RowValid, PacketOf, Fields, KeyedRows, Keyed, BufferOf, FirstValid;
    RowsAreCut(rows, gaps, tail + ([gap] + after));
    RowIsRead(row, tail, [], [gap] + after);
    assert [] + row == row && rows + [] == rows;
    assert Symbols([gap] + after)[0] == Reset;
    var limit := if |rows| < 12 then |rows| else 12;
    FirstValidSkips(rows, limit, 0, limit);
    assert FirstValid(rows, limit, limit) == limit by {
      FirstValidEnds(rows, limit);
    }
  }

  lemma FirstValidEnds(rows: seq<seq<bool>>, limit: nat)
    requires limit <= |rows|
    ensures FirstValid(rows, limit, limit) == limit
  {}

  lemma OneRow(row: seq<bool>, gaps: seq<nat>, gap: nat)
    requires Keyed(row, gaps) && 2500 < gap <= 4500
    ensures KeyedRows([row], gaps + [gap])
  {
    var all := gaps + [gap];
    assert all[..|row|] == gaps && all[|row| + 1..] == [] && [row][1..] == [];
  }

  /** A transmitted reading is decoded from the first row, however it is keyed and whatever follows. */
  lemma TransmittedReadingDecodes(id: bits8, channel: bits8, batteryOk: bool, tempHigh: bits8, tempLow: bits8,
                                  gaps: seq<nat>, gap: nat, after: seq<nat>)
    requires 1 <= channel <= 4 && tempHigh < 16
    requires Keyed(BitsOf(BuildPayload(id, channel, batteryOk, tempHigh, tempLow)), gaps) && 2500 < gap <= 4500
    ensures DecodeSpec(gaps + [gap] + after)
            == Found(0, Reading(id, channel, batteryOk, SignExtendNthBit(tempHigh as int * 256 + tempLow as int, 16)))
  {
    hide BuildPayload, BitsOf, SignExtendNthBit, PacketValid, Fields, PacketOf, Keyed, DecodeSpec, KeyedRows;
    var b := BuildPayload(id, channel, batteryOk, tempHigh, tempLow);
    var row := BitsOf(b);
    BuiltPacketReads(id, channel, batteryOk, tempHigh, tempLow);
    PacketOfBits(b);
    OneRow(row, gaps, gap);
    BurstReads([row], gaps + [gap], after, 0);
  }

  // ---------- a recorded transmission ----------

  lemma EightShifts(x: bits8)
    ensures var s1 := Shift(x, POLY);
            var s2 := Shift(s1, POLY);
            var s3 := Shift(s2, POLY);
            var s4 := Shift(s3, POLY);
            var s5 := Shift(s4, POLY);
            var s6 := Shift(s5, POLY);
            var s7 := Shift(s6, POLY);
            Shifts(x, POLY, 8) == Shift(s7, POLY)
  {
    hide Shift;
    var s4 := Shift(Shift(Shift(Shift(x, POLY), POLY), POLY), POLY);
    assert Shifts(x, POLY, 8) == Shifts(s4, POLY, 4);
  }

  lemma RecordedCrc()
    ensures Crc8([0xe6, 0x8f, 0xa2, 0xf0], 0x31, 0x6c) == 0x2a
  {
    var data := [0xe6, 0x8f, 0xa2, 0xf0];
    EightShifts(0x6c ^ 0xe6);
    EightShifts(0xa1 ^ 0x8f);
    EightShifts(0x99 ^ 0xa2);
    EightShifts(0x2f ^ 0xf0);
    assert Crc8(data[4..], POLY, 0x2a) == 0x2a;
    assert data[3..][1..] == data[4..] && Crc8(data[3..], POLY, 0x2f) == 0x2a;
    assert data[2..][1..] == data[3..] && Crc8(data[2..], POLY, 0x99) == 0x2a;
    assert data[1..] == data[1..] && data[1..][1..] == data[2..] && Crc8(data[1..], POLY, 0xa1) == 0x2a;
  }

  /** The gaps of the second packet of the repository's recording, up to the short one before its break. */
  const RECORDED: seq<nat> :=
    [1917, 1884, 1896, 924, 940, 1914, 1892, 938] + [1915, 945, 945, 942, 1904, 1923, 1884, 1901] +
    [1903, 912, 1891, 935, 948, 936, 1888, 909] + [1885, 1894, 1901, 1892, 951, 932, 1916, 911] +
    [1911, 925, 1902, 927]

  lemma RecordedPacket()
    ensures BuildPayload(230, 1, true, 0x0f, 0xa2) == [0xe6, 0x8f, 0xa2, 0xf2, 0xa0]
  {
    RecordedCrc();
    var zero: bits8 := 0;
    assert 0x80 | (zero << 4) | 0x0f == 0x8f;
  }

  /** The bits of one byte key eight gaps. */
  predicate KeysByte(x: bits8, gaps: seq<nat>) {
    |gaps| == 8 && forall j :: 0 <= j < 8 ==> KeysBit(gaps[j], x & Mask(j) != 0)
  }

  lemma RecordedBytes()
    ensures KeysByte(0xe6, [1917, 1884, 1896, 924, 940, 1914, 1892, 938])
    ensures KeysByte(0x8f, [1915, 945, 945, 942, 1904, 1923, 1884, 1901])
  {}

  lemma RecordedBytesMore()
    ensures KeysByte(0xa2, [1903, 912, 1891, 935, 948, 936, 1888, 909])
    ensures KeysByte(0xf2, [1885, 1894, 1901, 1892, 951, 932, 1916, 911])
    ensures KeysByte(0xa0, [1911, 925, 1902, 927, 1000, 1000, 1000, 1000])
  {}

  lemma RecordedIsKeyed()
    ensures Keyed(BitsOf(BuildPayload(230, 1, true, 0x0f, 0xa2)), RECORDED)
  {
    hide BuildPayload, Mask;
    RecordedPacket();
    RecordedBytes();
    RecordedBytesMore();
    var last := [1911, 925, 1902, 927, 1000, 1000, 1000, 1000];
    FiveBytes([0xe6, 0x8f, 0xa2, 0xf2, 0xa0], [1917, 1884, 1896, 924, 940, 1914, 1892, 938],
              [1915, 945, 945, 942, 1904, 1923, 1884, 1901], [1903, 912, 1891, 935, 948, 936, 1888, 909],
              [1885, 1894, 1901, 1892, 951, 932, 1916, 911], last);
    assert last[..4] == [1911, 925, 1902, 927];
  }

  lemma FiveBytes(b: Packet, g0: seq<nat>, g1: seq<nat>, g2: seq<nat>, g3: seq<nat>, g4: seq<nat>)
    requires KeysByte(b[0], g0) && KeysByte(b[1], g1) && KeysByte(b[2], g2) && KeysByte(b[3], g3) && KeysByte(b[4], g4)
    ensures Keyed(BitsOf(b), g0 + g1 + g2 + g3 + g4[..4])
  {
    hide Mask, BitsOf;
    var all := g0 + g1 + g2 + g3 + g4;
    assert all[0..8] == g0 && all[8..16] == g1 && all[16..24] == g2 && all[24..32] == g3 && all[32..40] == g4;
    KeyedByBytes(b, all);
    assert all[..36] == g0 + g1 + g2 + g3 + g4[..4];
  }

  lemma KeyedByBytes(b: Packet, gaps: seq<nat>)
    requires |gaps| == 40 && forall k :: 0 <= k < 5 ==> KeysByte(b[k], gaps[8 * k..8 * k + 8])
    ensures Keyed(BitsOf(b), gaps[..36])
  {
    hide Mask;
    forall i | 0 <= i < 36
      ensures KeysBit(gaps[..36][i], BitsOf(b)[i])
    {
      var k, j := i / 8, i % 8;
      assert KeysByte(b[k], gaps[8 * k..8 * k + 8]) && gaps[8 * k..8 * k + 8][j] == gaps[i];
    }
  }

  /** Sensor 230 on channel 1 at -9.4 degrees, its battery good. */
  lemma RecordedPacketDecodes(after: seq<nat>)
    ensures DecodeSpec(RECORDED + [469] + ([3856] + after)) == Found(0, Reading(230, 1, true, -94))
  {
    hide BitsOf, BuildPayload, DecodeSpec, Keyed, SignExtendNthBit;
    RecordedIsKeyed();
    TransmittedReadingDecodes(230, 1, true, 0x0f, 0xa2, RECORDED, 3856, after);
    IgnoredGapsDropOut(RECORDED, 469, [3856] + after);
    SeqRegroupNat(RECORDED, [3856], after);
    assert (0x0f as bits8) as int * 256 + (0xa2 as bits8) as int == 0x0fa2;
    TwelveBitTwosComplement(0x0fa2);
  }

  lemma SeqRegroupNat(a: seq<nat>, b: seq<nat>, c: seq<nat>)
    ensures a + b + c == a + (b + c)
  {}
}
