/** Whatever the chunked writers emit, the chunked reader delivers, however the bytes arrive. */
module ChunkedRoundTrip {
  import opened Bytes
  import opened ChunkedCoding
  import opened ChunkedReader
  import opened ChunkedWriter
  import opened Slices
  import opened Transport
  import opened Wrappers
  import opened WriteCalls

  /**
   Reads with caller buffers of any positive size until nothing comes. Whatever the
   bytes ahead are, the reader ends up done without an error exactly if they are
   well formed, and then everything read is the body.
   */
  method DrainByRead(reader: ChunkedBodyReader) returns (r: ReadResult<seq<byte>>)
    requires reader.Valid()
    modifies reader`chunkRemaining, reader.raw`loaded, reader.raw.buffer, reader.raw.stream
    ensures reader.Valid() && (r.Ok? && reader.chunkRemaining == Empty <==> old(reader.Ahead()).Some?)
    ensures old(reader.Ahead()).Some? ==> r == Ok(old(reader.Ahead()).value.body)
                                          && reader.raw.Content() == old(reader.Ahead()).value.rest
  {
    ghost var ahead := reader.Ahead();
    var body: seq<byte> := [];
    if ahead.Some? {
      NothingDelivered(ahead.value, reader.Ahead());
    }
    while true
      invariant reader.Valid() && (reader.Ahead().Some? <==> ahead.Some?)
      invariant ahead.Some? ==> Delivered(ahead.value, body, reader.Ahead())
      decreases |reader.raw.Content()|
    {
      ghost var middle := reader.Ahead();
      var max: nat :| max > 0;
      var got := reader.Read(max);
      if got.Err? {
        return Err(got.error);
      }
      hide Delivered, BufferingReader.Content;
      if ahead.Some? {
        DeliveredTwice(ahead.value, body, middle.value, got.value, reader.Ahead());
      }
      body := body + got.value;
      if |got.value| == 0 {
        if ahead.Some? {
          DeliveredLength(ahead.value, body, reader.Ahead());
        }
        return Ok(body);
      }
    }
  }

  /** Takes any positive part of the bytes at hand, through the buffered interface. */
  method DrainByBufRead(reader: ChunkedBodyReader) returns (body: seq<byte>)
    requires reader.Valid() && reader.Ahead().Some?
    requires reader.raw.base < reader.raw.buffer.Length || reader.raw.LendsStreamBuffer()
    modifies reader`chunkRemaining, reader.raw`loaded, reader.raw.buffer, reader.raw.stream
    ensures reader.Valid() && body == old(reader.Ahead()).value.body
    ensures reader.chunkRemaining == Empty && reader.raw.Content() == old(reader.Ahead()).value.rest
  {
    ghost var ahead := reader.Ahead().value;
    body := [];
    NothingDelivered(ahead, reader.Ahead());
    while true
      invariant reader.Valid() && Delivered(ahead, body, reader.Ahead())
      decreases |ahead.body| - |body|
    {
      ghost var middle := reader.Ahead().value;
      var available := reader.FillBuf();
      if available.value == [] {
        break;
      }
      var part := TakePart(reader, available.value);
      DeliveredTwice(ahead, body, middle, part, reader.Ahead());
      body := body + part;
    }
  }

  /** The caller copies some of the bytes at hand and consumes just those. */
  method TakePart(reader: ChunkedBodyReader, available: seq<byte>) returns (part: seq<byte>)
    requires reader.Valid() && reader.Ahead().Some? && reader.chunkRemaining.NotEmpty?
    requires available != [] && available <= reader.raw.Content() && |available| <= reader.raw.AtHand()
    requires |available| <= reader.chunkRemaining.remaining
    modifies reader`chunkRemaining, reader.raw`loaded, reader.raw.buffer, reader.raw.stream
    ensures reader.Valid() && part != [] && Delivered(old(reader.Ahead()).value, part, reader.Ahead())
  {
    ghost var state, w := reader.chunkRemaining, reader.raw.Content();
    var k: nat :| 1 <= k <= |available|;
    part := available[..k];
    assert part == w[..k];
    SmallTake(k, state.remaining);
    reader.Consume(k);
    TakeWithin(state, w, k, reader.chunkRemaining);
  }

  /** A body that decodes alone decodes with anything behind it. */
  lemma StillDecodes(sent: seq<byte>, accepted: seq<byte>, rest: seq<byte>)
    requires exists cs: seq<seq<byte>> ::
               NonEmptyChunks(cs) && Concat(cs) == accepted && sent == EncodeChunks(cs) + EMPTY_CHUNK
    requires Decode(sent) == Some(ChunkedCoding.Ahead(accepted, []))
    ensures Decode(sent + rest) == Some(ChunkedCoding.Ahead(accepted, rest))
  {
    hide Decode, EncodeChunks, Concat, NonEmptyChunks;
    var cs: seq<seq<byte>> :| NonEmptyChunks(cs) && Concat(cs) == accepted && sent == EncodeChunks(cs) + EMPTY_CHUNK;
    assert sent + [] == sent;
    DecodeEncoded(cs, []);
    DecodeEncoded(cs, rest);
  }

  /**
   Bytes written through the buffering writer, then anything at all (`rest`),
   partly loaded in the reader's buffer already and partly still on the stream:
   the reader delivers exactly the bytes the calls took and stops right behind them.
   */
  method WriterToReader(buf: array<byte>, written: nat, calls: seq<Call>, rest: seq<byte>,
                        readBuf: array<byte>, buffered: bool, ownBuffer: bool)
    returns (ns: seq<nat>, body: seq<byte>, behind: seq<byte>)
    requires buf != readBuf && (buffered ==> readBuf.Length > 0 || ownBuffer)
    requires 6 <= buf.Length < 0x1_0000_0000
    requires written <= buf.Length && MayRun(buf.Length - written, calls)
    modifies buf, readBuf
    ensures MayAnswer(calls, ns) && body == TakenOf(calls, ns) && behind == rest
  {
    hide Decode, EncodeChunks, Concat, NonEmptyChunks, MayAnswer, TakenOf;
    var wire;
    wire, ns := Session(buf, written, calls);
    var bytes := wire[written..] + rest;
    StillDecodes(wire[written..], TakenOf(calls, ns), rest);
    var reader := Attach(bytes, readBuf, ownBuffer);
    if buffered {
      body := DrainByBufRead(reader);
    } else {
      var drained := DrainByRead(reader);
      body := drained.value;
    }
    behind := Remaining(reader.raw);
  }

  /** And so with the unbuffered writer: the reader delivers everything written. */
  method UnbufferedToReader(writes: seq<seq<byte>>, rest: seq<byte>, readBuf: array<byte>, buffered: bool,
                            ownBuffer: bool)
    returns (body: seq<byte>, behind: seq<byte>)
    requires ReadableChunks(writes) && (buffered ==> readBuf.Length > 0 || ownBuffer)
    modifies readBuf
    ensures body == Concat(writes) && behind == rest
  {
    hide Decode, EncodeChunks, Concat, NonEmptyChunks;
    forall i | 0 <= i < |writes|
      ensures |ToHex(|writes[i]|)| <= HEX_DIGITS
    {
      SmallSizesPrint(|writes[i]|);
    }
    var wire := UnbufferedSession(writes, rest);
    var reader := Attach(wire + rest, readBuf, ownBuffer);
    if buffered {
      body := DrainByBufRead(reader);
    } else {
      var drained := DrainByRead(reader);
      body := drained.value;
    }
    behind := Remaining(reader.raw);
  }

  /** A reader with part of the bytes in its buffer already and the others still on the stream. */
  method Attach(bytes: seq<byte>, readBuf: array<byte>, ownBuffer: bool) returns (reader: ChunkedBodyReader)
    modifies readBuf
    ensures reader.Valid() && reader.chunkRemaining == NoChunk && reader.raw.Content() == bytes && reader.raw.base == 0
    ensures reader.raw.LendsStreamBuffer() == ownBuffer
    ensures fresh(reader) && fresh(reader.raw) && reader.raw.buffer == readBuf && fresh(reader.raw.stream)
  {
    var preloaded: nat :| preloaded <= readBuf.Length && preloaded <= |bytes|;
    CopyFromSlice(readBuf, 0, bytes[..preloaded]);
    var stream: Source;
    if ownBuffer {
      stream := new Source.WithOwnBuffer(bytes[preloaded..]);
    } else {
      stream := new Source(bytes[preloaded..]);
    }
    var raw := new BufferingReader(readBuf, preloaded, stream);
    assert readBuf[..][0..preloaded] == bytes[..preloaded];
    reader := new ChunkedBodyReader(raw);
  }

  method Remaining(raw: BufferingReader) returns (behind: seq<byte>)
    requires raw.Valid()
    ensures behind == raw.Content()
  {
    behind := raw.buffer[..][raw.base..raw.base + raw.loaded] + raw.stream.data;
  }
}
