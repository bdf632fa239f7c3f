/**
 The two chunked body writers: one that sends every write as a chunk, and one
 that collects chunks in a buffer, with the size line pre-allocated before the
 payload and the payload moved down when the line turns out shorter.
 The connection is the sequence of bytes it was given.
 */
module ChunkedWriter {
  import opened Bytes
  import opened ChunkedCoding
  import opened Hexadecimal
  import opened Slices
  import opened Wrappers
  import opened WriteCalls

  const HEX_DIGITS: nat := 16 // two per byte of a 64-bit size

  // ---------- size lines ----------

  /** Exactly `k` hexadecimal digits. */
  function FixedHex(n: nat, k: nat): (s: seq<byte>)
    ensures |s| == k
  {
    if k == 0 then [] else FixedHex(n / 16, k - 1) + [HexDigit(n % 16)]
  }

  /** Full-width digits are zeros followed by the shortest digits. */
  lemma {:induction false} FixedHexPadding(n: nat, k: nat)
    requires k >= 1 && |ToHex(n)| <= k
    ensures var z := k - |ToHex(n)|;
            FixedHex(n, k)[z..] == ToHex(n) &&
            (forall i :: 0 <= i < z ==> FixedHex(n, k)[i] == 48) &&
            (n > 0 ==> FixedHex(n, k)[z] != 48)
  {
    var z := k - |ToHex(n)|;
    if n < 16 {
      ZeroDigits(k - 1);
      assert n / 16 == 0;
    } else {
      FixedHexPadding(n / 16, k - 1);
    }
  }

  lemma {:induction false} ZeroDigits(k: nat)
    ensures forall i :: 0 <= i < k ==> FixedHex(0, k)[i] == 48
  {
    if k > 0 {
      ZeroDigits(k - 1);
    }
  }

  lemma WrittenTwice(was: seq<byte>, middle: seq<byte>, now: seq<byte>, at: nat, one: seq<byte>, two: seq<byte>)
    requires at + |one| + |two| <= |was| && middle == was[..at] + one + was[at + |one|..]
    requires now == middle[..at + |one|] + two + middle[at + |one| + |two|..]
    ensures now == was[..at] + one + two + was[at + |one| + |two|..]
  {
    assert middle[..at + |one|] == was[..at] + one && middle[at + |one| + |two|..] == was[at + |one| + |two|..];
  }

  /** Writes the size line at `buf[from..to]` and returns its length. */
  method WriteChunkedHeader(buf: array<byte>, from: nat, to: nat, chunkLen: nat) returns (headerLen: nat)
    requires |ToHex(chunkLen)| <= HEX_DIGITS
    requires from <= to <= buf.Length && |ToHex(chunkLen)| + 2 <= to - from
    modifies buf
    ensures headerLen == |ToHex(chunkLen)| + 2
    ensures buf[..] == old(buf[..from]) + ToHex(chunkLen) + NEWLINE + old(buf[from + headerLen..])
  {
    var hex := FixedHex(chunkLen, HEX_DIGITS);
    FixedHexPadding(chunkLen, HEX_DIGITS);
    var leadingZeros := 0;
    while leadingZeros < |hex| && hex[leadingZeros] == 48
      invariant 0 <= leadingZeros <= |hex|
      invariant forall i :: 0 <= i < leadingZeros ==> hex[i] == 48
    {
      leadingZeros := leadingZeros + 1;
    }
    if leadingZeros == |hex| {
      leadingZeros := |hex| - 1;
    }
    var hexChars := |hex| - leadingZeros;
    assert hexChars == |ToHex(chunkLen)| by {
      var z := HEX_DIGITS - |ToHex(chunkLen)|;
      if chunkLen > 0 {
        assert hex[z] != 48;
      }
    }
    ghost var was := buf[..];
    CopyFromSlice(buf, from, hex[leadingZeros..]);
    ghost var middle := buf[..];
    CopyFromSlice(buf, from + hexChars, NEWLINE);
    headerLen := hexChars + 2;
    WrittenTwice(was, middle, buf[..], from, ToHex(chunkLen), NEWLINE);
  }

  function BitLength(n: nat): nat {
    if n == 0 then 0 else 1 + BitLength(n / 2)
  }

  function NumHexChars(n: nat): nat {
    if n == 0 then 1 else (BitLength(n) + 3) / 4
  }

  /** Rounding the bit length up to whole digits counts the printed digits. */
  lemma {:induction false} NumHexCharsIsLength(n: nat)
    ensures NumHexChars(n) == |ToHex(n)|
  {
    if n >= 16 {
      NumHexCharsIsLength(n / 16);
      FourBits(n);
    } else if n > 0 {
      FourBits(n);
    }
  }

  lemma FourBits(n: nat)
    ensures n >= 16 ==> BitLength(n) == 4 + BitLength(n / 16)
    ensures 0 < n < 16 ==> 1 <= BitLength(n) <= 4
  {
    var a, b, c, d := n / 2, n / 2 / 2, n / 2 / 2 / 2, n / 2 / 2 / 2 / 2;
    assert d == n / 16 && d == c / 2 && c == b / 2 && b == a / 2;
    assert BitLength(c) == (if c == 0 then 0 else 1 + BitLength(d));
    assert BitLength(b) == (if b == 0 then 0 else 1 + BitLength(c));
    assert BitLength(a) == (if a == 0 then 0 else 1 + BitLength(b));
    assert n < 16 ==> d == 0 && BitLength(d) == 0;
  }

  function MaxChunkHeaderSize(bufferSize: nat): nat {
    if bufferSize >= 4 then NumHexChars(bufferSize - 4) + 2 else 0
  }

  /** The reserved header is as long as the size line of all the bytes beside it and the payload's line end. */
  lemma HeaderSizeIs(free: nat)
    ensures MaxChunkHeaderSize(free) == if free >= 4 then |ToHex(free - 4)| + 2 else 0
  {
    if free >= 4 {
      NumHexCharsIsLength(free - 4);
    }
  }

  /** Payload bytes that go after a pre-allocated header in `free` bytes. */
  function PayloadSpace(free: nat): nat {
    if MaxChunkHeaderSize(free) + 2 <= free then free - MaxChunkHeaderSize(free) - 2 else 0
  }

  /** Every payload gets a large enough header, except with exactly three free bytes. */
  lemma HeaderFitsIff(free: nat)
    ensures (forall n :: 1 <= n <= PayloadSpace(free) ==> |ToHex(n)| + 2 <= MaxChunkHeaderSize(free)) <==> free != 3
  {
    forall n | 1 <= n <= PayloadSpace(free) && free != 3
      ensures |ToHex(n)| + 2 <= MaxChunkHeaderSize(free)
    {
      HeaderFits(free, n);
    }
    if free == 3 {
      assert 1 <= PayloadSpace(free) && |ToHex(1)| + 2 > MaxChunkHeaderSize(free);
    }
  }

  lemma HeaderFits(free: nat, n: nat)
    requires free != 3 && 1 <= n && MaxChunkHeaderSize(free) + n + 2 <= free
    ensures |ToHex(n)| + 2 <= MaxChunkHeaderSize(free)
  {
    NumHexCharsIsLength(free - 4);
    HexMonotone(n, free - 4);
  }

  /** There is room for a first payload byte exactly from six bytes on. */
  lemma HeaderSizeBounds(free: nat)
    ensures MaxChunkHeaderSize(free) <= free
    ensures free != 3 ==> (MaxChunkHeaderSize(free) + 2 < free <==> free >= 6)
    ensures free < 6 ==> MaxChunkHeaderSize(free) <= 3
  {
    if free >= 4 {
      NumHexCharsIsLength(free - 4);
      if free >= 6 {
        HexShorterThanNumber(free - 4);
      }
    }
  }

  lemma SmallHeader(n: nat)
    ensures n < 6 ==> MaxChunkHeaderSize(n) == if n < 4 then 0 else 3
  {
    if 4 <= n < 6 {
      NumHexCharsIsLength(n - 4);
    }
  }

  lemma SmallSizes()
    ensures |ToHex(0)| == 1 && |ToHex(1)| == 1 && EncodeChunk([]) == EMPTY_CHUNK
  {
    assert ToHex(0) == [48];
  }

  // ---------- the unbuffered writer ----------

  class ChunkedBodyWriter {
    var sent: seq<byte>

    constructor ()
      ensures sent == []
    {
      sent := [];
    }

    method WriteAll(buf: seq<byte>)
      requires |ToHex(|buf|)| <= HEX_DIGITS
      modifies this
      ensures sent == old(sent) + if buf == [] then [] else EncodeChunk(buf)
    {
      if |buf| == 0 {
        return;
      }
      var headerBuf := new byte[HEX_DIGITS + 2](_ => 0);
      var headerLen := WriteChunkedHeader(headerBuf, 0, headerBuf.Length, |buf|);
      assert headerBuf[..headerLen] == ToHex(|buf|) + NEWLINE;
      sent := sent + headerBuf[..headerLen];
      sent := sent + buf;
      sent := sent + NEWLINE;
    }

    method Terminate()
      modifies this
      ensures sent == old(sent) + EMPTY_CHUNK
    {
      sent := sent + EMPTY_CHUNK;
    }
  }

  // ---------- the buffering writer ----------

  /** The bytes are the prefix and whole readable chunks, none of them empty. */
  ghost predicate WholeChunks(wire: seq<byte>, prefix: seq<byte>, chunks: seq<seq<byte>>) {
    wire == prefix + EncodeChunks(chunks) && NonEmptyChunks(chunks) && ReadableChunks(chunks)
  }

  lemma OneMoreChunk(sent: seq<byte>, start: seq<byte>, prefix: seq<byte>, chunks: seq<seq<byte>>, payload: seq<byte>)
    requires WholeChunks(sent + start, prefix, chunks) && 0 < |payload| < 0x1_0000_0000
    ensures WholeChunks(sent + (start + EncodeChunk(payload)), prefix, chunks + [payload])
    ensures Concat(chunks + [payload]) == Concat(chunks) + payload
  {
    PushChunk(chunks, payload);
    assert sent + (start + EncodeChunk(payload)) == (sent + start) + EncodeChunk(payload);
    assert prefix + (EncodeChunks(chunks) + EncodeChunk(payload))
           == (prefix + EncodeChunks(chunks)) + EncodeChunk(payload);
  }

  lemma Nothing(all: seq<byte>, payload: seq<byte>, data: seq<byte>)
    ensures data[..0] == [] && all + payload + [] == all + payload && (payload == [] ==> all + payload == all)
  {}

  lemma Appended(was: seq<byte>, now: seq<byte>, start: nat, from: nat, pos: nat, piece: seq<byte>)
    requires start <= from <= pos && pos + |piece| <= |was| && now == was[..pos] + piece + was[pos + |piece|..]
    ensures |now| == |was| && now[..start] == was[..start] && now[from..pos + |piece|] == was[from..pos] + piece
  {}

  class BufferingChunkedBodyWriter {
    var sent: seq<byte>
    const buf: array<byte>
    var headerPos: nat
    var allocatedHeader: nat
    var pos: nat
    var terminated: bool

    ghost const prefix: seq<byte>         // bytes already in the buffer at the start
    ghost var chunks: seq<seq<byte>>      // finished chunks, sent or still in the buffer

    ghost function Payload(): seq<byte>
      requires headerPos + allocatedHeader <= pos <= buf.Length
      reads this, buf
    {
      buf[headerPos + allocatedHeader..pos]
    }

    /** The bytes of all write calls that were taken. */
    ghost function Accepted(): seq<byte>
      requires headerPos + allocatedHeader <= pos <= buf.Length
      reads this, buf
    {
      Concat(chunks) + Payload()
    }

    /** Everything before the header position is the prefix and whole chunks. */
    ghost predicate Framed()
      reads this, buf
    {
      && 6 <= buf.Length < 0x1_0000_0000
      && headerPos + allocatedHeader <= pos <= buf.Length
      && WholeChunks(sent + buf[..headerPos], prefix, chunks)
    }

    /** A chunk is being collected; its header and line end will fit. */
    ghost predicate Collecting()
      reads this, buf
    {
      && Framed() && !terminated
      && allocatedHeader == MaxChunkHeaderSize(buf.Length - headerPos)
      && buf.Length - headerPos != 3
      && (Payload() != [] ==> pos + 2 <= buf.Length)
    }

    /** Between calls there is room for at least one more byte. */
    ghost predicate Valid()
      reads this, buf
    {
      Collecting() && (Payload() != [] ==> pos + 2 < buf.Length)
    }

    /** No room for a chunk, and none begun: sound until something is written. */
    ghost predicate Tight()
      reads this, buf
    {
      && Framed() && !terminated && Payload() == []
      && allocatedHeader == MaxChunkHeaderSize(buf.Length - headerPos) && buf.Length - headerPos == 3
    }

    ghost predicate Ready()
      reads this, buf
    {
      Valid() || Tight()
    }

    /** As constructed, on a buffer of any size the constructor takes. */
    ghost predicate Untouched()
      reads this, buf
    {
      && headerPos + allocatedHeader == pos <= buf.Length < 0x1_0000_0000
      && allocatedHeader == MaxChunkHeaderSize(buf.Length - headerPos) && buf.Length > allocatedHeader + 2
      && chunks == [] && sent == [] && !terminated && prefix == buf[..headerPos]
    }

    ghost predicate Done()
      reads this
    {
      terminated && NonEmptyChunks(chunks) && ReadableChunks(chunks) &&
      sent == prefix + EncodeChunks(chunks) + EMPTY_CHUNK
    }

    /** The pre-written bytes may fill the buffer to any point; with six bytes in all the writer is sound from there. */
    constructor NewWithData(buf: array<byte>, written: nat)
      requires written <= buf.Length < 0x1_0000_0000
      requires buf.Length > MaxChunkHeaderSize(buf.Length - written) + 2
      ensures this.buf == buf && prefix == buf[..written] && chunks == [] && sent == []
      ensures Untouched() && headerPos == written
      ensures buf.Length >= 6 ==> Ready() && (buf.Length - written != 3 ==> Valid()) && Accepted() == []
    {
      HeaderSizeBounds(buf.Length - written);
      this.buf := buf;
      sent := [];
      headerPos := written;
      allocatedHeader := MaxChunkHeaderSize(buf.Length - written);
      pos := written + MaxChunkHeaderSize(buf.Length - written);
      terminated := false;
      prefix := buf[..written];
      chunks := [];
    }

    method AppendCurrentChunk(data: seq<byte>) returns (buffered: nat)
      requires headerPos + allocatedHeader <= pos <= buf.Length
      modifies this`pos, buf
      ensures buffered == if old(pos) + 2 + |data| <= buf.Length then |data|
                          else if old(pos) + 2 <= buf.Length then buf.Length - 2 - old(pos) else 0
      ensures pos == old(pos) + buffered <= buf.Length && buffered <= |data|
              && buf[..headerPos] == old(buf[..headerPos])
      ensures Payload() == old(Payload()) + data[..buffered] && Accepted() == old(Accepted()) + data[..buffered]
      ensures old(Collecting()) ==> Collecting()
    {
      hide WholeChunks, Concat, MaxChunkHeaderSize;
      ghost var was, payload := buf[..], Payload();
      var space := if buf.Length > 2 + pos then buf.Length - (2 + pos) else 0;
      buffered := if |data| < space then |data| else space;
      if buffered > 0 {
        CopyFromSlice(buf, pos, data[..buffered]);
        pos := pos + buffered;
      }
      Appended(was, buf[..], headerPos, headerPos + allocatedHeader, pos - buffered, data[..buffered]);
      SeqRegroup(Concat(chunks), payload, data[..buffered]);
    }

    /** Frames what was collected, even nothing; where the reserved header is too small the program stops. */
    method FinishCurrentChunk() returns (ok: bool)
      requires headerPos + allocatedHeader <= pos && pos + 2 <= buf.Length < 0x1_0000_0000
      modifies this`headerPos, this`allocatedHeader, this`pos, this`chunks, buf
      ensures ok <==> |ToHex(|old(Payload())|)| + 2 <= old(allocatedHeader)
      ensures ok ==> headerPos + allocatedHeader == pos <= buf.Length
                     && buf[..headerPos] == old(buf[..headerPos]) + EncodeChunk(old(Payload()))
      ensures old(Collecting()) && old(Payload()) != [] ==> ok && Framed() && Concat(chunks) == old(Accepted())
    {
      hide WholeChunks, EncodeChunk, Concat;
      ghost var payload := Payload();
      ghost var start := buf[..headerPos];
      if Collecting() && payload != [] {
        HeaderFits(buf.Length - headerPos, pos - headerPos - allocatedHeader);
      }
      if |ToHex(pos - headerPos - allocatedHeader)| + 2 > allocatedHeader {
        return false;
      }
      pos := FrameChunk(buf, headerPos, allocatedHeader, pos);
      headerPos := pos;
      allocatedHeader := MaxChunkHeaderSize(buf.Length - headerPos);
      HeaderSizeBounds(buf.Length - headerPos);
      pos := headerPos + allocatedHeader;
      if WholeChunks(sent + start, prefix, chunks) && payload != [] {
        OneMoreChunk(sent, start, prefix, chunks, payload);
        chunks := chunks + [payload];
      }
      return true;
    }

    method EmitBuffered()
      requires headerPos <= buf.Length
      modifies this`sent, this`headerPos, this`allocatedHeader, this`pos
      ensures sent == old(sent) + buf[..old(headerPos)]
      ensures headerPos == 0 && allocatedHeader == pos == MaxChunkHeaderSize(buf.Length)
      ensures pos <= buf.Length && (6 <= buf.Length ==> pos + 2 < buf.Length)
      ensures old(Framed()) ==> Framed() && Accepted() == Concat(chunks) && WholeChunks(sent, prefix, chunks)
      ensures old(Framed()) && !terminated ==> Valid()
    {
      sent := sent + buf[..headerPos];
      headerPos := 0;
      allocatedHeader := MaxChunkHeaderSize(buf.Length);
      HeaderSizeBounds(buf.Length);
      pos := allocatedHeader;
      assert sent + buf[..0] == sent;
      assert Concat(chunks) + Payload() == Concat(chunks);
    }

    /** Appends to the current chunk; where that takes nothing, what is buffered goes out first. */
    method Place(data: seq<byte>) returns (taken: nat)
      requires data != [] && (Valid() || Untouched())
      modifies this`sent, this`headerPos, this`allocatedHeader, this`pos, buf
      ensures taken <= |data| && headerPos + allocatedHeader <= pos <= buf.Length
      ensures old(Valid()) ==> Collecting() && 0 < taken && Accepted() == old(Accepted()) + data[..taken]
      ensures old(Untouched()) && buf.Length - old(headerPos) == 3 ==>
              taken == 1 && pos == headerPos + 1 && pos + 2 == buf.Length
      ensures old(Untouched()) && buf.Length - old(headerPos) != 3 && buf.Length < 6 ==>
                && headerPos == 0 && allocatedHeader == MaxChunkHeaderSize(buf.Length) && sent == prefix
                && taken == (if buf.Length == 3 then 1 else 0) && pos == allocatedHeader + taken
    {
      hide WholeChunks, Concat, MaxChunkHeaderSize;
      SmallHeader(buf.Length);
      SmallHeader(buf.Length - headerPos);
      assert [] + buf[..headerPos] == buf[..headerPos];
      ghost var before, all, payload := Accepted(), Concat(chunks), Payload();
      taken := AppendCurrentChunk(data);
      if taken == 0 {
        Nothing(all, payload, data);
        EmitBuffered();
        taken := AppendCurrentChunk(data);
      }
    }

    /** Answers how many bytes it took, or that the program stops. */
    method Write(data: seq<byte>) returns (written: Option<nat>)
      requires Valid() || (Tight() && data == []) || Untouched()
      modifies this`sent, this`headerPos, this`allocatedHeader, this`pos, this`chunks, buf
      ensures old(Valid()) || (old(Tight()) && data == []) ==>
                && (if old(Valid()) then Valid() else Tight())
                && written.Some? && written.value <= |data| && (data != [] ==> written.value > 0)
                && Accepted() == old(Accepted()) + data[..written.value]
      ensures old(Untouched()) && data != [] && (buf.Length < 6 || buf.Length - old(headerPos) == 3) ==>
                && (written.None? <==> buf.Length == 3 || buf.Length - old(headerPos) == 3)
                && (written.Some? ==>
                    written == Some(0) && sent == prefix + if buf.Length == 5 then EMPTY_CHUNK else [])
    {
      if |data| == 0 {
        return Some(0);
      }
      hide WholeChunks, Concat, EncodeChunk, ToHex, MaxChunkHeaderSize;
      SmallHeader(buf.Length);
      SmallSizes();
      var taken := Place(data);
      if pos + 2 == buf.Length {
        var ok := FinishCurrentChunk();
        if !ok {
          return None;
        }
        EmitBuffered();
      }
      return Some(taken);
    }

    /** The default `write_all`: writes until everything is taken. */
    method WriteAll(data: seq<byte>)
      requires Valid() || (Tight() && data == [])
      modifies this`sent, this`headerPos, this`allocatedHeader, this`pos, this`chunks, buf
      ensures (if old(Valid()) then Valid() else Tight()) && Accepted() == old(Accepted()) + data
    {
      hide WholeChunks, Concat, MaxChunkHeaderSize;
      var taken := 0;
      while taken < |data|
        invariant (if old(Valid()) then Valid() else Tight()) && 0 <= taken <= |data|
        invariant Accepted() == old(Accepted()) + data[..taken]
      {
        var n := Write(data[taken..]);
        assert data[..taken + n.value] == data[..taken] + data[taken..][..n.value];
        taken := taken + n.value;
      }
      assert data[..taken] == data;
    }

    /** Afterwards everything accepted is on the connection. */
    method Flush()
      requires Ready()
      modifies this`sent, this`headerPos, this`allocatedHeader, this`pos, this`chunks, buf
      ensures Valid() && Accepted() == old(Accepted()) == Concat(chunks)
      ensures sent == prefix + EncodeChunks(chunks)
    {
      if pos > headerPos + allocatedHeader {
        var ok := FinishCurrentChunk();
        EmitBuffered();
      } else if headerPos > 0 {
        EmitBuffered();
      } else {
        assert sent + buf[..0] == sent;
      }
    }

    method AppendEmptyChunk()
      requires headerPos + |EMPTY_CHUNK| <= buf.Length
      modifies this`headerPos, this`allocatedHeader, this`pos, buf
      ensures headerPos <= buf.Length && buf[..headerPos] == old(buf[..headerPos]) + EMPTY_CHUNK
      ensures pos == headerPos && allocatedHeader == 0
    {
      ghost var was := buf[..];
      CopyFromSlice(buf, headerPos, EMPTY_CHUNK);
      Written(was, buf[..], headerPos, EMPTY_CHUNK, headerPos + |EMPTY_CHUNK|, headerPos + |EMPTY_CHUNK|);
      headerPos := headerPos + |EMPTY_CHUNK|;
      allocatedHeader := 0;
      pos := headerPos + allocatedHeader;
    }

    method Terminate()
      requires Ready()
      modifies this, buf
      ensures Done() && Concat(chunks) == old(Accepted())
    {
      hide EncodeChunks, Concat, NonEmptyChunks, ReadableChunks, MaxChunkHeaderSize;
      if pos > headerPos + allocatedHeader {
        var ok := FinishCurrentChunk();
      }
      if headerPos + |EMPTY_CHUNK| > buf.Length {
        EmitBuffered();
      }
      ghost var start, before := buf[..headerPos], sent;
      AppendEmptyChunk();
      SeqRegroup(before, start, EMPTY_CHUNK);
      EmitBuffered();
      terminated := true;
    }
  }

  /** Bytes written over others: those before and those behind are as they were. */
  lemma Written(was: seq<byte>, now: seq<byte>, at: nat, piece: seq<byte>, from: nat, to: nat)
    requires at + |piece| <= from <= to <= |was| && now == was[..at] + piece + was[at + |piece|..]
    ensures |now| == |was| && now[..at + |piece|] == was[..at] + piece && now[from..to] == was[from..to]
  {}

  lemma MovedDown(was: seq<byte>, now: seq<byte>, from: nat, to: nat, dest: nat)
    requires dest <= from <= to <= |was| && now == was[..dest] + was[from..to] + was[dest + (to - from)..]
    ensures |now| == |was| && now[..dest + (to - from)] == was[..dest] + was[from..to]
  {}

  /** Size line and payload, moved down behind it; returns where the payload ends. */
  method HeadChunk(buf: array<byte>, headerPos: nat, allocatedHeader: nat, pos: nat) returns (end: nat)
    requires headerPos + allocatedHeader <= pos && pos + 2 <= buf.Length < 0x1_0000_0000
    requires |ToHex(pos - headerPos - allocatedHeader)| + 2 <= allocatedHeader
    modifies buf
    ensures end + 2 <= buf.Length
    ensures var payload := old(buf[headerPos + allocatedHeader..pos]);
            buf[..end] == old(buf[..headerPos]) + (ToHex(|payload|) + NEWLINE) + payload
  {
    hide ToHex;
    var chunkLen := pos - headerPos - allocatedHeader;
    SmallSizesPrint(chunkLen);
    ghost var was, line := buf[..], ToHex(chunkLen) + NEWLINE;
    var headerLen := WriteChunkedHeader(buf, headerPos, headerPos + allocatedHeader, chunkLen);
    SeqRegroup(was[..headerPos], ToHex(chunkLen), NEWLINE);
    ghost var headed := buf[..];
    Written(was, headed, headerPos, line, headerPos + allocatedHeader, pos);
    var spacing := allocatedHeader - headerLen;
    end := pos;
    if spacing > 0 {
      CopyWithin(buf, headerPos + allocatedHeader, pos, headerPos + headerLen);
      end := pos - spacing;
      MovedDown(headed, buf[..], headerPos + allocatedHeader, pos, headerPos + headerLen);
    } else {
      assert headed[..end] == headed[..headerPos + headerLen] + headed[headerPos + headerLen..end];
    }
  }

  /** Size line, payload and line end; returns the new end. */
  method FrameChunk(buf: array<byte>, headerPos: nat, allocatedHeader: nat, pos: nat) returns (end: nat)
    requires headerPos + allocatedHeader <= pos && pos + 2 <= buf.Length < 0x1_0000_0000
    requires |ToHex(pos - headerPos - allocatedHeader)| + 2 <= allocatedHeader
    modifies buf
    ensures end <= buf.Length
    ensures buf[..end] == old(buf[..headerPos]) + EncodeChunk(old(buf[headerPos + allocatedHeader..pos]))
  {
    hide ToHex, EncodeChunk;
    ghost var start, payload := buf[..headerPos], buf[headerPos + allocatedHeader..pos];
    end := HeadChunk(buf, headerPos, allocatedHeader, pos);
    ghost var headed := buf[..];
    CopyFromSlice(buf, end, NEWLINE);
    Written(headed, buf[..], end, NEWLINE, end + 2, end + 2);
    end := end + 2;
    ChunkParts(start, payload);
  }

  lemma ChunkParts(start: seq<byte>, payload: seq<byte>)
    ensures start + (ToHex(|payload|) + NEWLINE) + payload + NEWLINE == start + EncodeChunk(payload)
  {
    hide ToHex;
    var line := ToHex(|payload|) + NEWLINE;
    SeqRegroup(start, line, payload);
    SeqRegroup(start, line + payload, NEWLINE);
  }

  lemma SmallSizesPrint(n: nat)
    requires n < 0x1_0000_0000
    ensures |ToHex(n)| <= 8
  {
    EightDigits();
    HexLength(n, 8, HexBound(8));
  }

  // ---------- the first write ----------

  /** What the first write of some data does on a new writer, for every buffer and every number of pre-written bytes. */
  datatype FirstWrite =
    | Takes           // at least one byte
    | TakesNothing    // only the pre-written bytes go out
    | EndsBody        // and then an empty chunk, which ends the body
    | Stops           // the program

  function FirstWriteOf(size: nat, free: nat): FirstWrite
    requires free <= size
  {
    if free == 3 || size == 3 then Stops
    else if size == 4 then TakesNothing
    else if size == 5 then EndsBody
    else Takes
  }

  /** A new writer takes data exactly if its buffer has six bytes and not just three of them are free. */
  method WriteFirst(buf: array<byte>, written: nat, data: seq<byte>) returns (taken: Option<nat>, sent: seq<byte>)
    requires written <= buf.Length < 0x1_0000_0000 && buf.Length > MaxChunkHeaderSize(buf.Length - written) + 2
    requires data != []
    modifies buf
    ensures match FirstWriteOf(buf.Length, buf.Length - written)
            case Takes => taken.Some? && 0 < taken.value <= |data|
            case TakesNothing => taken == Some(0) && sent == old(buf[..written])
            case EndsBody => taken == Some(0) && sent == old(buf[..written]) + EMPTY_CHUNK
            case Stops => taken == None
    ensures taken.Some? && taken.value > 0 <==> buf.Length >= 6 && buf.Length - written != 3
  {
    SmallHeader(buf.Length);
    SmallHeader(buf.Length - written);
    var w := new BufferingChunkedBodyWriter.NewWithData(buf, written);
    taken := w.Write(data);
    sent := w.sent;
    assert w.prefix + [] == w.prefix;
  }

  // ---------- whole sessions ----------

  /** The writes that hand over something. */
  function Filled(writes: seq<seq<byte>>): (cs: seq<seq<byte>>)
    ensures NonEmptyChunks(cs) && Concat(cs) == Concat(writes)
  {
    if writes == [] then []
    else
      var init, last := Filled(writes[..|writes| - 1]), writes[|writes| - 1];
      PushChunk(init, last);
      if last == [] then init else init + [last]
  }

  lemma {:induction false} FilledReadable(writes: seq<seq<byte>>)
    ensures ReadableChunks(Filled(writes)) <==> ReadableChunks(writes)
  {
    if writes != [] {
      var n := |writes| - 1;
      FilledReadable(writes[..n]);
      ReadablePush(writes[..n], writes[n]);
      ReadablePush(Filled(writes[..n]), writes[n]);
      assert writes == writes[..n] + [writes[n]];
    }
  }

  lemma ReadablePush(cs: seq<seq<byte>>, c: seq<byte>)
    ensures ReadableChunks(cs + [c]) <==> ReadableChunks(cs) && |c| < 0x1_0000_0000
  {
    var all := cs + [c];
    assert all[|cs|] == c;
    if ReadableChunks(all) {
      forall i | 0 <= i < |cs|
        ensures |cs[i]| < 0x1_0000_0000
      {
        assert all[i] == cs[i];
      }
    }
  }

  /** Writes through the unbuffered writer decode to what was written, exactly when each is below 2^32 bytes. */
  method UnbufferedSession(writes: seq<seq<byte>>, ghost rest: seq<byte>) returns (wire: seq<byte>)
    requires forall i :: 0 <= i < |writes| ==> |ToHex(|writes[i]|)| <= HEX_DIGITS
    ensures wire == EncodeChunks(Filled(writes)) + EMPTY_CHUNK
    ensures Decode(wire + rest) == if ReadableChunks(writes) then Some(Ahead(Concat(writes), rest)) else None
  {
    hide Decode, Concat, ReadableChunks, EncodeChunk;
    var w := new ChunkedBodyWriter();
    for i := 0 to |writes|
      invariant fresh(w) && w.sent == EncodeChunks(Filled(writes[..i]))
    {
      assert writes[..i + 1][..i] == writes[..i];
      w.WriteAll(writes[i]);
      PushChunk(Filled(writes[..i]), writes[i]);
    }
    assert writes[..|writes|] == writes;
    w.Terminate();
    wire := w.sent;
    DecodeEncoded(Filled(writes), rest);
    FilledReadable(writes);
  }

  lemma NothingWritten()
    ensures Concat([]) == []
  {}

  lemma BodyDecodes(prefix: seq<byte>, cs: seq<seq<byte>>, wire: seq<byte>)
    requires NonEmptyChunks(cs) && ReadableChunks(cs) && wire == prefix + EncodeChunks(cs) + EMPTY_CHUNK
    ensures wire[..|prefix|] == prefix && wire[|prefix|..] == EncodeChunks(cs) + EMPTY_CHUNK
    ensures Decode(wire[|prefix|..]) == Some(Ahead(Concat(cs), []))
  {
    hide EncodeChunks, Concat, Decode, NonEmptyChunks;
    var body := EncodeChunks(cs) + EMPTY_CHUNK;
    assert wire == prefix + body && body + [] == body;
    DecodeEncoded(cs, []);
  }

  /** One call; with only three bytes free it must not hand over data. */
  method Perform(w: BufferingChunkedBodyWriter, call: Call) returns (n: nat)
    requires w.Ready() && (w.Valid() || call.Flush? || call.data == [])
    modifies w`sent, w`headerPos, w`allocatedHeader, w`pos, w`chunks, w.buf
    ensures w.Ready() && (old(w.Valid()) || call.Flush? ==> w.Valid())
    ensures MayTake(call, n) && w.Accepted() == old(w.Accepted()) + DataOf(call)[..n]
  {
    hide WholeChunks, Concat, MaxChunkHeaderSize;
    n := 0;
    match call {
      case Write(data) =>
        var taken := w.Write(data);
        n := taken.value;
      case WriteAll(data) =>
        w.WriteAll(data);
        n := |data|;
        assert data[..n] == data;
      case Flush =>
        w.Flush();
    }
  }

  /** With three bytes free after the pre-written ones, nothing may be written before a flush. */
  predicate MayRun(free: nat, calls: seq<Call>) {
    free != 3 || QuietStart(calls)
  }

  /**
   Any sequence of write and flush calls ended by terminate puts the pre-written
   bytes on the wire, then one chunked body that decodes to the bytes taken.
   */
  method Session(buf: array<byte>, written: nat, calls: seq<Call>) returns (wire: seq<byte>, ns: seq<nat>)
    requires 6 <= buf.Length < 0x1_0000_0000
    requires written <= buf.Length && MayRun(buf.Length - written, calls)
    modifies buf
    ensures written <= |wire| && wire[..written] == old(buf[..written])
    ensures MayAnswer(calls, ns) && Decode(wire[written..]) == Some(Ahead(TakenOf(calls, ns), []))
    ensures exists cs: seq<seq<byte>> :: NonEmptyChunks(cs) && Concat(cs) == TakenOf(calls, ns)
                                         && wire[written..] == EncodeChunks(cs) + EMPTY_CHUNK
  {
    hide EncodeChunks, Concat, Decode, NonEmptyChunks, MayAnswer, TakenOf, QuietStart, WholeChunks;
    HeaderSizeBounds(buf.Length - written);
    NothingWritten();
    var w := new BufferingChunkedBodyWriter.NewWithData(buf, written);
    ghost var prefix := w.prefix;
    ns := [];
    NothingTaken(calls);
    assert calls[0..] == calls;
    for i := 0 to |calls|
      invariant w.Ready() && w.buf == buf && w.prefix == prefix && fresh(w)
      invariant w.Valid() || QuietStart(calls[i..])
      invariant |ns| == i && MayAnswer(calls[..i], ns) && w.Accepted() == TakenOf(calls[..i], ns)
    {
      if !w.Valid() {
        QuietNext(calls, i);
      }
      var n := Perform(w, calls[i]);
      TakeNext(calls, ns, n);
      ns := ns + [n];
    }
    assert calls[..|calls|] == calls;
    w.Terminate();
    wire := w.sent;
    BodyDecodes(prefix, w.chunks, wire);
  }
}
