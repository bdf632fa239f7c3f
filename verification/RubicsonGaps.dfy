/**
 The streaming gap decoder: it fills the packet buffer bit by bit and tries each
 row as it ends. The specification drops ignored gaps, cuts the rest into rows
 and takes the first row with a good checksum.
 */
module RubicsonGaps {
  import opened Rubicson
  import opened RubicsonCrc

  datatype Symbol = Bit(value: bool) | Break | Reset | Ignore

  datatype Outcome = Found(row: nat, reading: Reading) | Failed(buffer: seq<bits8>)

  function DecodeGap(gap: nat): Symbol {
    if gap > 4500 then Reset
    else if gap > 2500 then Break
    else if gap > 1500 then Bit(true)
    else if gap > 750 then Bit(false)
    else Ignore
  }

  // ---------- the specification ----------

  /** What is left of the gaps once the ignored ones are dropped. */
  function Symbols(gaps: seq<nat>): seq<Symbol> {
    if gaps == [] then []
    else (if DecodeGap(gaps[0]) == Ignore then [] else [DecodeGap(gaps[0])]) + Symbols(gaps[1..])
  }

  /** Rows ended by a break, the bits after the last break, and whether a reset cut the burst short. */
  datatype Burst = Burst(rows: seq<seq<bool>>, last: seq<bool>, reset: bool)

  function CutRows(symbols: seq<Symbol>, current: seq<bool>): Burst
    decreases |symbols|
  {
    if symbols == [] then Burst([], current, false)
    else match symbols[0]
      case Bit(v) => CutRows(symbols[1..], current + [v])
      case Break =>
        var later := CutRows(symbols[1..], []);
        later.(rows := [current] + later.rows)
      case Reset => Burst([], current, true)
      case Ignore => CutRows(symbols[1..], current)
  }

  function BitAt(row: seq<bool>, i: nat, mask: bits8): bits8 {
    if i < |row| && row[i] then mask else 0
  }

  /** Byte `b` of a row, most significant bit first, padded with zeros. */
  function RowByte(row: seq<bool>, b: nat): bits8 {
    BitAt(row, 8 * b, 0x80) | BitAt(row, 8 * b + 1, 0x40) | BitAt(row, 8 * b + 2, 0x20) | BitAt(row, 8 * b + 3, 0x10) |
    BitAt(row, 8 * b + 4, 0x08) | BitAt(row, 8 * b + 5, 0x04) | BitAt(row, 8 * b + 6, 0x02)
      | BitAt(row, 8 * b + 7, 0x01)
  }

  function PacketOf(row: seq<bool>): Packet {
    [RowByte(row, 0), RowByte(row, 1), RowByte(row, 2), RowByte(row, 3), RowByte(row, 4)]
  }

  predicate RowValid(row: seq<bool>) {
    PacketValid(PacketOf(row))
  }

  function RowAt(rows: seq<seq<bool>>, j: nat): seq<bool> {
    if j < |rows| then rows[j] else []
  }

  /** The packet buffer holding the first twelve rows. */
  function BufferOf(rows: seq<seq<bool>>): seq<bits8> {
    seq(60, i requires 0 <= i < 60 => RowByte(RowAt(rows, i / 5), i % 5))
  }

  /** The first valid row among the first `limit`, or `limit` if there is none. */
  function FirstValid(rows: seq<seq<bool>>, limit: nat, from: nat): nat
    requires from <= limit <= |rows|
    decreases |rows| - from
  {
    if from == limit || RowValid(rows[from]) then from else FirstValid(rows, limit, from + 1)
  }

  function FirstReading(burst: Burst): Outcome {
    var limit := if |burst.rows| < 12 then |burst.rows| else 12;
    var first := FirstValid(burst.rows, limit, 0);
    if first < limit then Found(first, Fields(PacketOf(burst.rows[first])))
    else if |burst.rows| < 12 && !burst.reset && |burst.last| == 36 && RowValid(burst.last)
    then Found(|burst.rows|, Fields(PacketOf(burst.last)))
    else Failed(BufferOf(burst.rows + [burst.last]))
  }

  function DecodeSpec(gaps: seq<nat>): Outcome {
    FirstReading(CutRows(Symbols(gaps), []))
  }

  /** Ignored gaps, wherever they come, change nothing. */
  lemma {:induction false} IgnoredGapsDropOut(before: seq<nat>, gap: nat, after: seq<nat>)
    requires gap <= 750
    ensures Symbols(before + [gap] + after) == Symbols(before + after)
    ensures DecodeSpec(before + [gap] + after) == DecodeSpec(before + after)
  {
    if before == [] {
      assert ([gap] + after)[1..] == after && before + [gap] + after == [gap] + after && before + after == after;
    } else {
      assert (before + [gap] + after)[1..] == before[1..] + [gap] + after;
      assert (before + after)[1..] == before[1..] + after;
      IgnoredGapsDropOut(before[1..], gap, after);
    }
  }

  lemma {:induction false} FirstValidSkips(rows: seq<seq<bool>>, limit: nat, from: nat, to: nat)
    requires from <= to <= limit <= |rows|
    requires forall j :: from <= j < to ==> !RowValid(rows[j])
    ensures FirstValid(rows, limit, from) == FirstValid(rows, limit, to)
    decreases |rows| - from
  {
    if from < to {
      FirstValidSkips(rows, limit, from + 1, to);
    }
  }

  // ---------- the buffer ----------

  function Mask(k: nat): bits8
    requires k < 8
  {
    if k == 0 then 0x80 else if k == 1 then 0x40 else if k == 2 then 0x20 else if k == 3 then 0x10
    else if k == 4 then 0x08 else if k == 5 then 0x04 else if k == 6 then 0x02 else 0x01
  }

  /** Writes bit `index` of the row starting at byte `start`; bits past the row's five bytes are lost. */
  method AddBit(buf: array<bits8>, start: nat, index: nat, value: bool)
    requires start + BYTES_IN_PACKET <= buf.Length
    modifies buf
    ensures buf[..] == if index / 8 < BYTES_IN_PACKET && value
                       then old(buf[..])[start + index / 8 := old(buf[start + index / 8]) | Mask(index % 8)]
                       else old(buf[..])
  {
    if index / 8 >= BYTES_IN_PACKET {
      return;
    }
    if value {
      buf[start + index / 8] := buf[start + index / 8] | Mask(index % 8);
    }
  }

  /** Appending a bit touches one byte of the row, by or-ing its mask in. */
  lemma RowBytePush(row: seq<bool>, v: bool, b: nat)
    ensures RowByte(row + [v], b)
            == if |row| / 8 == b && v then RowByte(row, b) | Mask(|row| % 8) else RowByte(row, b)
  {
    var k := |row| - 8 * b;
    var row' := row + [v];
    if 0 <= k < 8 {
      assert |row| / 8 == b && |row| % 8 == k;
      forall i | 0 <= i < 8
        ensures BitAt(row', 8 * b + i, Mask(i)) == if i == k && v then Mask(k) else BitAt(row, 8 * b + i, Mask(i))
        ensures i >= k ==> BitAt(row, 8 * b + i, Mask(i)) == 0
      {}
    } else {
      assert |row| / 8 != b;
      forall i | 0 <= i < 8
        ensures BitAt(row', 8 * b + i, Mask(i)) == BitAt(row, 8 * b + i, Mask(i))
      {}
    }
  }

  lemma BufferPush(rows: seq<seq<bool>>, row: seq<bool>, v: bool)
    requires |rows| < MAX_PACKETS
    ensures var was := BufferOf(rows + [row]);
            var at := |rows| * BYTES_IN_PACKET + |row| / 8;
            BufferOf(rows + [row + [v]])
            == if |row| / 8 < BYTES_IN_PACKET && v then was[at := was[at] | Mask(|row| % 8)] else was
  {
    hide RowByte, Mask;
    var was := BufferOf(rows + [row]);
    var now := BufferOf(rows + [row + [v]]);
    forall i | 0 <= i < BYTES_IN_PACKET * MAX_PACKETS
      ensures now[i] == if i / BYTES_IN_PACKET == |rows| && |row| / 8 == i % BYTES_IN_PACKET && v
                        then was[i] | Mask(|row| % 8) else was[i]
    {
      RowBytePush(row, v, i % BYTES_IN_PACKET);
    }
  }

  lemma BufferBreak(rows: seq<seq<bool>>)
    ensures BufferOf(rows + [[]]) == BufferOf(rows)
  {
    hide RowByte;
  }

  lemma RowInBuffer(rows: seq<seq<bool>>, row: seq<bool>)
    requires |rows| < MAX_PACKETS
    ensures var at := |rows| * BYTES_IN_PACKET;
            BufferOf(rows + [row])[at..at + BYTES_IN_PACKET] == PacketOf(row)
  {
    hide RowByte;
  }

  // ---------- the decoder ----------

  lemma SymbolStep(gaps: seq<nat>, i: nat)
    requires i < |gaps|
    ensures Symbols(gaps[i..])
            == (if DecodeGap(gaps[i]) == Ignore then [] else [DecodeGap(gaps[i])]) + Symbols(gaps[i + 1..])
  {
    assert gaps[i..][1..] == gaps[i + 1..];
  }

  lemma CutStep(symbol: Symbol, symbols: seq<Symbol>, current: seq<bool>)
    requires symbol != Ignore
    ensures CutRows([symbol] + symbols, current) ==
            if symbol.Bit? then CutRows(symbols, current + [symbol.value])
            else if symbol.Break? then CutRows(symbols, []).(rows := [current] + CutRows(symbols, []).rows)
            else Burst([], current, true)
  {
    assert ([symbol] + symbols)[1..] == symbols;
  }

  ghost predicate NoneValid(rows: seq<seq<bool>>) {
    forall j :: 0 <= j < |rows| ==> !RowValid(rows[j])
  }

  function Prepend(done: seq<seq<bool>>, burst: Burst): Burst {
    burst.(rows := done + burst.rows)
  }

  lemma CutEnd(current: seq<bool>)
    ensures CutRows(Symbols([]), current) == Burst([], current, false)
  {}

  lemma NothingDone(burst: Burst)
    ensures Prepend([], burst) == burst
  {
    assert [] + burst.rows == burst.rows;
  }

  lemma RowDone(done: seq<seq<bool>>, row: seq<bool>, later: Burst)
    ensures Prepend(done, later.(rows := [row] + later.rows)) == Prepend(done + [row], later)
  {
    assert done + ([row] + later.rows) == (done + [row]) + later.rows;
  }

  /** The row that just ended is the first valid one. */
  lemma RowFound(done: seq<seq<bool>>, row: seq<bool>, later: Burst)
    requires |done| < MAX_PACKETS && NoneValid(done) && RowValid(row)
    ensures FirstReading(Prepend(done, later.(rows := [row] + later.rows))) == Found(|done|, Fields(PacketOf(row)))
  {
    hide RowValid, PacketOf, Fields;
    var rows := done + ([row] + later.rows);
    var limit := if |rows| < MAX_PACKETS then |rows| else MAX_PACKETS;
    FirstValidSkips(rows, limit, 0, |done|);
  }

  /** Nothing valid among the rows that count. */
  lemma NothingFound(done: seq<seq<bool>>, later: Burst)
    requires NoneValid(done)
    requires |done| == MAX_PACKETS || (later.rows == [] &&
             (later.reset || |later.last| != BITS_IN_PACKET || !RowValid(later.last)))
    requires |done| <= MAX_PACKETS
    ensures FirstReading(Prepend(done, later)) == Failed(BufferOf(done + later.rows + [later.last]))
  {
    hide RowValid, PacketOf, Fields, BufferOf;
    var rows := done + later.rows;
    FirstValidSkips(rows, |done|, 0, |done|);
  }

  lemma FullBuffer(done: seq<seq<bool>>, more: seq<seq<bool>>, more': seq<seq<bool>>)
    requires |done| == MAX_PACKETS
    ensures BufferOf(done + more) == BufferOf(done + more')
  {
    hide RowByte;
  }

  method DecodeGapsIter(gaps: seq<nat>) returns (r: Outcome)
    ensures r == DecodeSpec(gaps)
  {
    hide RowByte, Mask, Fields, RowValid, FirstReading, BufferOf, PacketOf, PacketValid, Symbols, CutRows, Prepend;
    var bitBuffer := new bits8[60](_ => 0);
    var bitIndex := 0;
    var bitBufferRow := 0;
    ghost var done: seq<seq<bool>>, current: seq<bool> := [], [];
    ghost var spec := CutRows(Symbols(gaps), []);
    NothingDone(spec);
    EmptyBuffer();
    assert bitBuffer[..] == seq(60, _ => 0) && done + [current] == [[]];
    assert gaps[0..] == gaps;
    for i := 0 to |gaps|
      invariant bitBufferRow == |done| <= MAX_PACKETS && bitIndex == |current|
      invariant |done| == MAX_PACKETS ==> current == []
      invariant bitBuffer[..] == BufferOf(done + [current])
      invariant NoneValid(done)
      invariant spec == Prepend(done, CutRows(Symbols(gaps[i..]), current))
    {
      ghost var ahead := CutRows(Symbols(gaps[i..]), current);
      if bitBufferRow >= MAX_PACKETS {
        NothingFound(done, ahead);
        FullBuffer(done, [current], ahead.rows + [ahead.last]);
        assert done + ahead.rows + [ahead.last] == done + (ahead.rows + [ahead.last]);
        return Failed(bitBuffer[..]);
      }
      var rowStartByte := bitBufferRow * BYTES_IN_PACKET;
      var symbol := DecodeGap(gaps[i]);
      SymbolStep(gaps, i);
      ghost var symbols := Symbols(gaps[i + 1..]);
      if symbol != Ignore {
        CutStep(symbol, symbols, current);
      } else {
        assert [] + symbols == symbols;
      }
      match symbol {
        case Bit(v) =>
          BufferPush(done, current, v);
          AddBit(bitBuffer, rowStartByte, bitIndex, v);
          bitIndex := bitIndex + 1;
          current := current + [v];
        case Ignore =>
        case Break =>
          RowInBuffer(done, current);
          ghost var later := CutRows(symbols, []);
          var reading := DecodeRubicson(bitBuffer[..][rowStartByte..rowStartByte + BYTES_IN_PACKET]);
          ValidPacket(current);
          if reading.Some? {
            RowFound(done, current, later);
            return Found(bitBufferRow, reading.value);
          }
          RowDone(done, current, later);
          BufferBreak(done + [current]);
          bitBufferRow := bitBufferRow + 1;
          bitIndex := 0;
          done, current := done + [current], [];
        case Reset =>
          NothingFound(done, ahead);
          assert done + [] + [current] == done + [current];
          return Failed(bitBuffer[..]);
      }
    }
    assert gaps[|gaps|..] == [];
    ghost var ahead := CutRows(Symbols([]), current);
    CutEnd(current);
    if bitIndex == BITS_IN_PACKET {
      var rowStartByte := bitBufferRow * BYTES_IN_PACKET;
      RowInBuffer(done, current);
      var reading := DecodeRubicson(bitBuffer[..][rowStartByte..rowStartByte + BYTES_IN_PACKET]);
      ValidPacket(current);
      if reading.Some? {
        LastRowFound(done, current);
        return Found(bitBufferRow, reading.value);
      }
    }
    NothingFound(done, ahead);
    assert done + [] + [current] == done + [current];
    return Failed(bitBuffer[..]);
  }

  lemma ValidPacket(row: seq<bool>)
    ensures RowValid(row) <==> PacketValid(PacketOf(row))
  {
    hide PacketOf, PacketValid;
  }

  lemma LastRowFound(done: seq<seq<bool>>, row: seq<bool>)
    requires |done| < MAX_PACKETS && NoneValid(done) && RowValid(row) && |row| == BITS_IN_PACKET
    ensures FirstReading(Prepend(done, Burst([], row, false))) == Found(|done|, Fields(PacketOf(row)))
  {
    hide RowValid, PacketOf, Fields;
    assert done + [] == done;
    FirstValidSkips(done, |done|, 0, |done|);
  }

  lemma EmptyBuffer()
    ensures BufferOf([[]]) == seq(60, _ => 0)
  {
    assert forall b :: RowByte([], b) == 0;
  }
}
