/**
 The chunked body reader over a buffering reader: bytes loaded earlier come
 first, then the stream. `ReadToEnd` decodes in place, inside the very buffer
 the encoded bytes are loaded into.
 */
module ChunkedReader {
  import opened Bytes
  import opened ChunkedCoding
  import opened Slices
  import opened Transport
  import opened Wrappers

  datatype ReadError = Codec | UnexpectedEof | BufferTooSmall

  type ReadResult<T> = Result<T, ReadError>

  /** How much of a request a chunk grants; requests are cut to 32 bits. */
  function Taken(amount: nat, remaining: u32): (n: u32)
    ensures n <= remaining
  {
    Min(amount % 0x1_0000_0000, remaining)
  }

  /** A window onto a shared buffer, `loaded` bytes of it filled, then the stream. */
  class BufferingReader {
    const buffer: array<byte>
    const stream: Source
    var base: nat      // where the window starts
    var loaded: nat
    var forceLocalBuffer: bool

    ghost predicate Valid()
      reads this
    {
      base + loaded <= buffer.Length
    }

    predicate LendsStreamBuffer()
      reads this
    {
      stream.ownBuffer && !forceLocalBuffer
    }

    /** How many bytes can be consumed without reading more: loaded ones, then those in the stream's own buffer. */
    function AtHand(): nat
      reads this, stream
    {
      loaded + if stream.ownBuffer then stream.Held() else 0
    }

    /** Everything the reader has still to deliver. */
    ghost function Content(): seq<byte>
      requires Valid()
      reads this, buffer, stream
    {
      buffer[..][base..base + loaded] + stream.data
    }

    constructor (buffer: array<byte>, loaded: nat, stream: Source)
      requires loaded <= buffer.Length
      ensures Valid() && this.buffer == buffer && this.stream == stream
      ensures base == 0 && this.loaded == loaded && !forceLocalBuffer
    {
      this.buffer := buffer;
      this.stream := stream;
      base := 0;
      this.loaded := loaded;
      forceLocalBuffer := false;
    }

    /** Shifts the loaded bytes down and reports how many were asked for in excess. */
    method ConsumeLoaded(amt: nat) returns (unconsumed: nat)
      requires Valid()
      modifies this`loaded, buffer
      ensures Valid() && loaded == old(loaded) - Min(amt, old(loaded))
      ensures unconsumed == amt - Min(amt, old(loaded))
      ensures buffer[..][base..base + loaded] == old(buffer[..][base + Min(amt, loaded)..base + loaded])
      ensures buffer[..][..base] == old(buffer[..][..base])
      ensures loaded == 0 ==> buffer[..] == old(buffer[..])
    {
      var toConsume := Min(amt, loaded);
      ghost var was := buffer[..];
      CopyWithin(buffer, base + toConsume, base + loaded, base);
      assert buffer[..][..base] == was[..base];
      if toConsume == loaded {
        assert buffer[..] == was[..base] + was[base + loaded..base + loaded] + was[base..] == was;
      }
      loaded := loaded - toConsume;
      return amt - toConsume;
    }

    method Read(max: nat) returns (got: seq<byte>)
      requires Valid()
      modifies this`loaded, buffer, stream
      ensures Valid() && loaded <= old(loaded) && buffer[..][..base] == old(buffer[..][..base])
      ensures got + Content() == old(Content()) && |got| <= max
      ensures max > 0 && old(Content()) != [] ==> got != []
    {
      if loaded > 0 {
        var amt := Min(loaded, max);
        got := buffer[..][base..base + amt];
        ghost var kept := buffer[..][base + amt..base + loaded];
        assert buffer[..][base..base + loaded] == got + kept;
        var _ := ConsumeLoaded(amt);
        assert buffer[..][base..base + loaded] == kept;
        assert got + (kept + stream.data) == (got + kept) + stream.data;
        return;
      }
      got := stream.Read(max);
      assert buffer[..][base..base] == [];
    }

    /** Reads the next bytes of the stream into the window. */
    method Load()
      requires Valid() && loaded == 0
      modifies this`loaded, buffer, stream
      ensures Valid() && Content() == old(Content()) && buffer[..][..base] == old(buffer[..][..base])
      ensures old(Content()) != [] && base < buffer.Length ==> loaded > 0
    {
      ghost var was := buffer[..];
      var got := stream.Read(buffer.Length - base);
      CopyFromSlice(buffer, base, got);
      loaded := |got|;
      assert buffer[..][base..base + loaded] == got;
      assert buffer[..][..base] == was[..base];
      assert was[base..base] == [];
    }

    /** Shows bytes that come next: loaded ones, or else those in the stream's own buffer, or else newly loaded ones. */
    method FillBuf() returns (shown: seq<byte>)
      requires Valid()
      modifies this`loaded, buffer, stream
      ensures Valid() && Content() == old(Content()) && buffer[..][..base] == old(buffer[..][..base])
      ensures shown <= Content() && |shown| <= AtHand()
      ensures old(Content()) != [] && (base < buffer.Length || LendsStreamBuffer()) ==> shown != []
      ensures if old(loaded) == 0 && LendsStreamBuffer() then loaded == 0 else |shown| == loaded
    {
      if loaded == 0 {
        if !forceLocalBuffer {
          var lent := stream.TryFillBuf();
          if lent.Some? {
            assert buffer[..][base..base] + stream.data == stream.data;
            return lent.value;
          }
        }
        Load();
      }
      return buffer[..][base..base + loaded];
    }

    /** What is asked for beyond the loaded bytes is passed on to the stream. */
    method Consume(amt: nat)
      requires Valid()
      modifies this`loaded, buffer, stream
      ensures Valid() && loaded == old(loaded) - Min(amt, old(loaded))
      ensures old(AtHand()) <= |old(Content())| && Content() == old(Content())[Min(amt, old(AtHand()))..]
      ensures amt <= old(loaded) || !stream.ownBuffer ==> stream.data == old(stream.data)
      ensures buffer[..][..base] == old(buffer[..][..base])
      ensures loaded == 0 ==> buffer[..] == old(buffer[..])
    {
      ghost var was, window, w, pending := buffer[..], buffer[..][base..base + loaded], Content(), stream.data;
      ghost var k := Min(amt, AtHand());
      var unconsumed := ConsumeLoaded(amt);
      if unconsumed > 0 {
        stream.TryConsume(unconsumed);
        BeyondLoaded(window, pending, k - |window|);
        EmptyWindow(buffer[..], base, stream.data);
      } else {
        assert |window| == old(loaded) && k == amt;
        WithinLoaded(window, pending, amt);
        assert buffer[..][base..base + loaded] == window[amt..];
      }
    }

    /** Exactly `n` bytes, or the end of the stream. */
    method ReadExact(n: nat) returns (r: ReadResult<seq<byte>>)
      requires Valid()
      modifies this`loaded, buffer, stream
      ensures Valid() && loaded <= old(loaded) && buffer[..][..base] == old(buffer[..][..base])
      ensures |old(Content())| >= n ==> r == Ok(old(Content())[..n]) && Content() == old(Content())[n..]
      ensures |old(Content())| < n ==> r == Err(UnexpectedEof)
    {
      ghost var w := Content();
      var got: seq<byte> := [];
      while |got| < n
        invariant Valid() && loaded <= old(loaded) && buffer[..][..base] == old(buffer[..][..base])
        invariant |got| <= n && got + Content() == w
      {
        ghost var before := got;
        var more := Read(n - |got|);
        SeqRegroup(before, more, Content());
        if |more| == 0 {
          return Err(UnexpectedEof);
        }
        got := got + more;
      }
      SplitAt(got, Content(), w);
      return Ok(got);
    }
  }

  lemma EmptyWindow(buffer: seq<byte>, base: nat, rest: seq<byte>)
    requires base <= |buffer|
    ensures buffer[base..base + 0] + rest == rest
  {}

  lemma WithinLoaded(front: seq<byte>, back: seq<byte>, k: nat)
    requires k <= |front|
    ensures (front + back)[k..] == front[k..] + back
  {}

  lemma BeyondLoaded(front: seq<byte>, back: seq<byte>, k: nat)
    requires k <= |back|
    ensures (front + back)[|front| + k..] == back[k..]
  {}

  lemma SplitAt(front: seq<byte>, back: seq<byte>, w: seq<byte>)
    requires front + back == w
    ensures front == w[..|front|] && back == w[|front|..]
  {}

  /** An exhausted chunk stands for what follows its line end. */
  lemma EmptyRemainder(w: seq<byte>)
    ensures DecodeInChunk(0, w) == if NewlineAt(w, 0) then Decode(w[2..]) else None
  {
    if NewlineAt(w, 0) && Decode(w[2..]).Some? {
      assert w[..0] + Decode(w[2..]).value.body == Decode(w[2..]).value.body;
    }
  }

  // ---------- chunk boundaries ----------

  /** The state behind a boundary, and the bytes after it. */
  datatype Moved = Moved(state: ChunkState, rest: seq<byte>)

  /** A chunk ends in CR LF. */
  function AfterLineEnd(w: seq<byte>): ReadResult<seq<byte>> {
    if |w| < 2 then Err(UnexpectedEof)
    else if w[0] != 13 || w[1] != 10 then Err(Codec)
    else Ok(w[2..])
  }

  /** The next size line, and behind the last one the line end of the body. */
  function AfterSize(w: seq<byte>): ReadResult<Moved> {
    match ReadSize(w)
    case Malformed => Err(Codec)
    case Truncated => Err(UnexpectedEof)
    case Size(len, used) =>
      if len > 0 then Ok(Moved(NotEmpty(len), w[used..]))
      else
        var end := AfterLineEnd(w[used..]);
        if end.Err? then Err(end.error) else Ok(Moved(Empty, end.value))
  }

  /** What a boundary does with the bytes ahead, or what is wrong with them. */
  function Boundary(state: ChunkState, w: seq<byte>): ReadResult<Moved> {
    match state
    case NoChunk => AfterSize(w)
    case NotEmpty(remaining) =>
      if remaining > 0 then Ok(Moved(state, w))
      else
        var end := AfterLineEnd(w);
        if end.Err? then Err(end.error) else AfterSize(end.value)
    case Empty => Ok(Moved(state, w))
  }

  /** An error means ill-formed content, and moving on keeps what the content stands for. */
  lemma BoundaryKeeps(state: ChunkState, w: seq<byte>)
    ensures Boundary(state, w).Err? ==> Pending(state, w).None?
    ensures Boundary(state, w).Ok? ==>
              var moved := Boundary(state, w).value;
              Pending(state, w) == Pending(moved.state, moved.rest) && |moved.rest| <= |w|
  {
    hide ReadSize, NewlineAt, AfterLineEnd;
    match state
    case NoChunk => SizeKeeps(w);
    case NotEmpty(remaining) =>
      if remaining == 0 {
        EmptyRemainder(w);
        LineEnds(w, 0);
        assert w[0..] == w;
        NewlineFits(w, 0);
        if NewlineAt(w, 0) {
          SizeKeeps(w[2..]);
        }
      }
    case Empty =>
  }

  lemma LineEnds(w: seq<byte>, i: nat)
    requires i <= |w|
    ensures NewlineAt(w, i) <==> AfterLineEnd(w[i..]).Ok?
    ensures NewlineAt(w, i) ==> AfterLineEnd(w[i..]).value == w[i + 2..]
  {
    if i + 2 <= |w| {
      assert w[i..i + 2] == [w[i], w[i + 1]] && w[i..][2..] == w[i + 2..];
    }
  }

  lemma SizeKeeps(w: seq<byte>)
    ensures AfterSize(w).Err? ==> Decode(w).None?
    ensures AfterSize(w).Ok? ==>
              Decode(w) == Pending(AfterSize(w).value.state, AfterSize(w).value.rest)
              && |AfterSize(w).value.rest| <= |w|
  {
    hide NewlineAt, AfterLineEnd, LineEnd, FromHex;
    if ReadSize(w).Size? {
      LineEnds(w, ReadSize(w).used);
      NewlineFits(w, ReadSize(w).used);
    }
  }

  lemma NewlineFits(w: seq<byte>, i: nat)
    ensures NewlineAt(w, i) ==> i + 2 <= |w|
  {}

  /** Inside a chunk the body goes on, and its bytes are there. */
  lemma BodyAhead(state: ChunkState, w: seq<byte>)
    requires Pending(state, w).Some? && state != NoChunk && state != NotEmpty(0)
    ensures Pending(state, w).value.body == [] <==> state == Empty
    ensures state.NotEmpty? ==> w != []
  {}

  class ChunkedBodyReader {
    const raw: BufferingReader
    var chunkRemaining: ChunkState

    ghost predicate Valid()
      reads this, raw
    {
      raw.Valid()
    }

    /** The body still to be delivered and the bytes after it, if the content is well formed. */
    ghost function Ahead(): Option<ChunkedCoding.Ahead>
      requires Valid()
      reads this, raw, raw.buffer, raw.stream
    {
      Pending(chunkRemaining, raw.Content())
    }

    constructor (raw: BufferingReader)
      ensures this.raw == raw && chunkRemaining == NoChunk
    {
      this.raw := raw;
      chunkRemaining := NoChunk;
    }

    /** Reads the next size line byte by byte. */
    method ReadNextChunkLength() returns (r: ReadResult<()>)
      requires Valid()
      modifies this`chunkRemaining, raw`loaded, raw.buffer, raw.stream
      ensures Valid() && raw.loaded <= old(raw.loaded) && raw.buffer[..][..raw.base] == old(raw.buffer[..][..raw.base])
      ensures match ReadSize(old(raw.Content()))
              case Size(len, used) =>
                r.Ok? && raw.Content() == old(raw.Content())[used..]
                && chunkRemaining == (if len == 0 then Empty else NotEmpty(len))
              case Malformed => r == Err(Codec)
              case Truncated => r == Err(UnexpectedEof)
    {
      hide FromHex, BufferingReader.Content;
      ghost var w := raw.Content();
      var header: seq<byte> := [];
      while true
        invariant Valid() && raw.loaded <= old(raw.loaded)
                  && raw.buffer[..][..raw.base] == old(raw.buffer[..][..raw.base])
        invariant |header| < 10 && |header| <= |w| && header == w[..|header|] && raw.Content() == w[|header|..]
        invariant LineEnd(w, 0) == LineEnd(w, |header|)
        decreases 10 - |header|
      {
        var byte1 := raw.ReadExact(1);
        if byte1.Err? {
          assert LineEnd(w, |header|) == |w|;
          return Err(byte1.error);
        }
        var b := byte1.value[0];
        assert b == w[|header|];
        if b != LF {
          header := header + [b];
          assert header == w[..|header|];
          if |header| == 10 {
            return Err(Codec);
          }
        } else {
          assert LineEnd(w, 0) == |header|;
          if |header| == 0 || header[|header| - 1] != CR {
            return Err(Codec);
          }
          break;
        }
      }
      var hexDigits := |header| - 1;
      assert header[..hexDigits] == w[..hexDigits];
      var chunkLength := FromHex(header[..hexDigits]);
      if chunkLength.None? {
        return Err(Codec);
      }
      FromHexBound(header[..hexDigits]);
      chunkRemaining := if chunkLength.value == 0 then Empty else NotEmpty(chunkLength.value);
      return Ok(());
    }

    method ReadChunkEnd() returns (r: ReadResult<()>)
      requires Valid()
      modifies raw`loaded, raw.buffer, raw.stream
      ensures Valid() && raw.loaded <= old(raw.loaded) && raw.buffer[..][..raw.base] == old(raw.buffer[..][..raw.base])
      ensures var end := AfterLineEnd(old(raw.Content()));
              if end.Err? then r == Err(end.error) else r.Ok? && raw.Content() == end.value
    {
      var newline := raw.ReadExact(2);
      if newline.Err? {
        return Err(newline.error);
      }
      if newline.value != NEWLINE {
        return Err(Codec);
      }
      return Ok(());
    }

    /** Moves past any chunk boundary; well-formed bytes ahead keep their meaning, and others are refused here. */
    method HandleChunkBoundary() returns (r: ReadResult<nat>)
      requires Valid()
      modifies this`chunkRemaining, raw`loaded, raw.buffer, raw.stream
      ensures Valid() && raw.loaded <= old(raw.loaded) && raw.buffer[..][..raw.base] == old(raw.buffer[..][..raw.base])
      ensures var moved := Boundary(old(chunkRemaining), old(raw.Content()));
              if moved.Err? then r == Err(moved.error)
              else r.Ok? && chunkRemaining == moved.value.state && raw.Content() == moved.value.rest
      ensures old(Ahead()).Some? ==> r.Ok?
      ensures r.Ok? ==> Ahead() == old(Ahead())
      ensures r.Ok? ==> match chunkRemaining
                        case NoChunk => false
                        case NotEmpty(remaining) => r.value == remaining > 0
                        case Empty => r.value == 0
    {
      hide ReadSize, BufferingReader.Content, Pending;
      BoundaryKeeps(chunkRemaining, raw.Content());
      match chunkRemaining {
        case NoChunk =>
          var next := ReadNextChunkLength();
          if next.Err? {
            return Err(next.error);
          }
        case NotEmpty(remaining) =>
          if remaining == 0 {
            var end := ReadChunkEnd();
            if end.Err? {
              return Err(end.error);
            }
            var next := ReadNextChunkLength();
            if next.Err? {
              return Err(next.error);
            }
          }
        case Empty => return Ok(0);
      }
      if chunkRemaining == Empty {
        var end := ReadChunkEnd();
        if end.Err? {
          return Err(end.error);
        }
      }
      return Ok(if chunkRemaining.NotEmpty? then chunkRemaining.remaining else 0);
    }

    /** Takes up to `amt` bytes off the current chunk; sizes are 32 bits wide. */
    method ConsumeChunk(amt: nat) returns (consumed: nat)
      modifies this`chunkRemaining
      ensures match old(chunkRemaining)
              case NotEmpty(remaining) =>
                consumed == Taken(amt, remaining) && chunkRemaining == NotEmpty(remaining - consumed)
              case _ => consumed == 0 && chunkRemaining == old(chunkRemaining)
    {
      if chunkRemaining.NotEmpty? {
        var cut := amt % 0x1_0000_0000;
        consumed := if cut < chunkRemaining.remaining then cut else chunkRemaining.remaining;
        chunkRemaining := NotEmpty(chunkRemaining.remaining - consumed);
      } else {
        consumed := 0;
      }
    }

    /** Delivers the next bytes of the body, at least one while any are left. */
    method Read(max: nat) returns (r: ReadResult<seq<byte>>)
      requires Valid()
      modifies this`chunkRemaining, raw`loaded, raw.buffer, raw.stream
      ensures Valid()
      ensures old(Ahead()).Some? ==> r.Ok? && |r.value| <= max && Delivered(old(Ahead()).value, r.value, Ahead())
      ensures old(Ahead()).Some? && max > 0 && old(Ahead()).value.body != [] ==> r.value != []
      ensures old(Ahead()).Some? && old(Ahead()).value.body == [] ==> chunkRemaining == Empty
      ensures r.Ok? ==> |r.value| <= max && (Ahead().Some? <==> old(Ahead()).Some?)
                        && |raw.Content()| + |r.value| <= |old(raw.Content())|
    {
      hide Delivered, Pending, Boundary, ReadSize;
      BoundaryKeeps(chunkRemaining, raw.Content());
      var remaining := HandleChunkBoundary();
      if remaining.Err? {
        return Err(remaining.error);
      }
      ghost var w, before := raw.Content(), chunkRemaining;
      if Ahead().Some? {
        BodyAhead(before, w);
      }
      var got := raw.Read(Min(max, remaining.value));
      assert w[|got|..] == raw.Content() && w[..|got|] == got;
      var _ := ConsumeChunk(|got|);
      TakeWithin(before, w, |got|, chunkRemaining);
      return Ok(got);
    }

    /** The bytes of the current chunk that are at hand. */
    method FillBuf() returns (r: ReadResult<seq<byte>>)
      requires Valid()
      modifies this`chunkRemaining, raw`loaded, raw.buffer, raw.stream
      ensures Valid() && raw.buffer[..][..raw.base] == old(raw.buffer[..][..raw.base])
      ensures r.Ok? ==> match chunkRemaining
                        case NoChunk => false
                        case NotEmpty(remaining) =>
                          r.value <= raw.Content() && |r.value| <= remaining && |r.value| <= raw.AtHand()
                          && (raw.forceLocalBuffer ==> |r.value| <= raw.loaded)
                        case Empty => r.value == []
      ensures old(Ahead()).Some? ==> r.Ok? && Ahead() == old(Ahead())
      ensures old(Ahead()).Some? && old(Ahead()).value.body == [] ==> chunkRemaining == Empty && r.value == []
      ensures old(Ahead()).Some? && old(Ahead()).value.body != []
              && (raw.base < raw.buffer.Length || raw.LendsStreamBuffer())
              ==> chunkRemaining.NotEmpty? && r.value != []
    {
      var remaining := HandleChunkBoundary();
      if remaining.Err? {
        return Err(remaining.error);
      }
      if remaining.value == 0 {
        return Ok([]);
      }
      var shown := raw.FillBuf();
      return Ok(shown[..Min(|shown|, remaining.value)]);
    }

    method Consume(amt: nat)
      requires Valid()
      modifies this`chunkRemaining, raw`loaded, raw.buffer, raw.stream
      ensures Valid() && raw.buffer[..][..raw.base] == old(raw.buffer[..][..raw.base])
      ensures match old(chunkRemaining)
              case NotEmpty(remaining) =>
                var consumed := Taken(amt, remaining);
                chunkRemaining == NotEmpty(remaining - consumed)
                && raw.loaded == old(raw.loaded) - Min(consumed, old(raw.loaded))
                && (consumed <= old(raw.AtHand()) ==> raw.Content() == old(raw.Content())[consumed..])
                && (consumed <= old(raw.loaded) ==> raw.stream.data == old(raw.stream.data))
              case _ => chunkRemaining == old(chunkRemaining) && raw.loaded == old(raw.loaded)
      ensures raw.loaded == 0 ==> raw.buffer[..] == old(raw.buffer[..])
    {
      var consumed := ConsumeChunk(amt);
      raw.Consume(consumed);
    }

    /** With exactly the consumed bytes counted as loaded, `Consume` has nothing to shift. */
    method ConsumeInPlace(readLen: nat)
      requires Valid() && raw.loaded == readLen
      requires chunkRemaining.NotEmpty? && readLen <= chunkRemaining.remaining
      modifies this`chunkRemaining, raw`loaded, raw.buffer, raw.stream
      ensures raw.loaded == 0 && raw.buffer[..] == old(raw.buffer[..]) && raw.stream.data == old(raw.stream.data)
      ensures chunkRemaining == NotEmpty(old(chunkRemaining).remaining - readLen)
    {
      hide Taken;
      SmallTake(readLen, chunkRemaining.remaining);
      Consume(readLen);
    }

    /** Slides the window past `readLen` bytes of the current chunk without moving a byte. */
    method SlideWindow(readLen: nat)
      requires Valid() && readLen <= raw.loaded
      requires chunkRemaining.NotEmpty? && readLen <= chunkRemaining.remaining
      modifies this`chunkRemaining, raw`loaded, raw`base, raw.buffer, raw.stream
      ensures Valid() && chunkRemaining == NotEmpty(old(chunkRemaining).remaining - readLen)
      ensures raw.base == old(raw.base) + readLen && raw.loaded == old(raw.loaded) - readLen
      ensures readLen <= |old(raw.Content())| && raw.Content() == old(raw.Content())[readLen..]
      ensures raw.buffer[..][old(raw.base)..raw.base] == old(raw.Content())[..readLen]
      ensures raw.buffer[..][..old(raw.base)] == old(raw.buffer[..][..raw.base])
    {
      ghost var w, was, base := raw.Content(), raw.buffer[..], raw.base;
      var wasLoaded := raw.loaded;
      var fakeLoaded := Min(readLen, wasLoaded);
      raw.loaded := fakeLoaded;
      ConsumeInPlace(readLen);
      var consumedFromBuffer := fakeLoaded - raw.loaded;
      raw.loaded := wasLoaded - consumedFromBuffer;
      raw.base := raw.base + consumedFromBuffer;
      assert raw.base == base + readLen && raw.base + raw.loaded == base + wasLoaded;
      InPlaceStep(was, base, readLen, wasLoaded, raw.stream.data, w);
    }

    /**
     One turn of the decoding loop: the bytes at hand become decoded bytes where
     they lie.
     */
    method DecodeInPlace() returns (r: ReadResult<nat>)
      requires Valid() && Ahead().Some? && raw.base < raw.buffer.Length && raw.forceLocalBuffer
      modifies this`chunkRemaining, raw`loaded, raw`base, raw.buffer, raw.stream
      ensures Valid() && r.Ok? && raw.buffer[..][..old(raw.base)] == old(raw.buffer[..][..raw.base])
      ensures if old(Ahead()).value.body == []
              then chunkRemaining == Empty && r.value == 0 && raw.base == old(raw.base) && Ahead() == old(Ahead())
              else chunkRemaining != Empty && r.value > 0 && raw.base == old(raw.base) + r.value
                   && Delivered(old(Ahead()).value, raw.buffer[..][old(raw.base)..raw.base], Ahead())
    {
      hide Delivered, Pending, BufferingReader.Content;
      var read := FillBuf();
      var readLen := |read.value|;
      if chunkRemaining == Empty {
        return Ok(readLen);
      }
      ghost var state, w := chunkRemaining, raw.Content();
      SlideWindow(readLen);
      TakeWithin(state, w, readLen, chunkRemaining);
      return Ok(readLen);
    }

    /** Puts more of the body behind the `len` bytes decoded so far; nothing more is left exactly at its end. */
    method DecodeMore(ghost ahead: ChunkedCoding.Ahead, len: nat) returns (more: nat)
      requires Valid() && raw.base == len < raw.buffer.Length && raw.forceLocalBuffer
      requires Delivered(ahead, raw.buffer[..][..len], Ahead())
      modifies this`chunkRemaining, raw`loaded, raw`base, raw.buffer, raw.stream
      ensures Valid() && raw.base == more && Delivered(ahead, raw.buffer[..][..more], Ahead())
      ensures len <= more <= |ahead.body| && (chunkRemaining == Empty <==> more == len)
      ensures chunkRemaining == Empty <==> len == |ahead.body|
    {
      DeliveredLength(ahead, raw.buffer[..][..len], Ahead());
      hide Delivered, Pending;
      ghost var decoded, middle := raw.buffer[..][..len], Ahead().value;
      var read := DecodeInPlace();
      more := len + read.value;
      if chunkRemaining != Empty {
        ghost var part := raw.buffer[..][len..more];
        assert raw.buffer[..][..more] == decoded + part;
        DeliveredTwice(ahead, decoded, middle, part, Ahead());
        DeliveredLength(ahead, raw.buffer[..][..more], Ahead());
      }
    }

    /**
     Decodes the rest of the body into the front of the buffer. It succeeds
     exactly when the body leaves at least one byte of the buffer free (or the
     body was already at its end).
     */
    method ReadToEnd() returns (r: ReadResult<nat>)
      requires Valid() && raw.base == 0
      requires Ahead().Some?
      modifies this`chunkRemaining, raw`loaded, raw`base, raw`forceLocalBuffer, raw.buffer, raw.stream
      ensures r == if |old(Ahead()).value.body| < raw.buffer.Length || old(chunkRemaining) == Empty
                   then Ok(|old(Ahead()).value.body|) else Err(BufferTooSmall)
      ensures r.Ok? ==> raw.buffer[..][..r.value] == old(Ahead()).value.body
    {
      ghost var ahead := Ahead().value;
      assert chunkRemaining == Empty ==> ahead.body == [];
      hide Delivered, Pending;
      NothingDelivered(ahead, Ahead());
      raw.forceLocalBuffer := true;
      var len := 0;
      assert raw.buffer[..][..len] == [];
      while raw.base < raw.buffer.Length
        invariant Valid() && raw.forceLocalBuffer && raw.base == len <= |ahead.body|
        invariant Delivered(ahead, raw.buffer[..][..len], Ahead())
        invariant chunkRemaining == Empty <==> old(chunkRemaining) == Empty
        invariant chunkRemaining == Empty ==> len == |ahead.body|
        decreases |ahead.body| - len
      {
        len := DecodeMore(ahead, len);
        if chunkRemaining == Empty {
          break;
        }
      }
      if chunkRemaining != Empty {
        return Err(BufferTooSmall);
      }
      DeliveredLength(ahead, raw.buffer[..][..len], Ahead());
      return Ok(len);
    }
  }

  /** Taking bytes of the current chunk takes them off the front of the body. */
  lemma TakeWithin(state: ChunkState, w: seq<byte>, k: nat, state': ChunkState)
    requires k <= |w|
    requires match state
             case NoChunk => false
             case NotEmpty(remaining) => k <= remaining && state' == NotEmpty(remaining - k)
             case Empty => k == 0 && state' == Empty
    ensures Pending(state, w).Some? ==> Delivered(Pending(state, w).value, w[..k], Pending(state', w[k..]))
    ensures Pending(state, w).None? ==> Pending(state', w[k..]).None?
  {
    if state.NotEmpty? {
      WithinChunk(state.remaining, w, k);
    } else {
      assert w[0..] == w;
    }
  }

  lemma SmallTake(k: nat, remaining: u32)
    requires k <= remaining
    ensures Taken(k, remaining) == k
  {}

  /** Nothing moved: the window slid over the bytes just read. */
  lemma InPlaceStep(buffer: seq<byte>, base: nat, readLen: nat, loaded: nat, stream: seq<byte>, w: seq<byte>)
    requires readLen <= loaded && base + loaded <= |buffer|
    requires w == buffer[base..base + loaded] + stream
    ensures readLen <= |w| && buffer[base + readLen..base + loaded] + stream == w[readLen..]
    ensures buffer[base..base + readLen] == w[..readLen]
  {}

  lemma NothingDelivered(a: ChunkedCoding.Ahead, c: Option<ChunkedCoding.Ahead>)
    requires c == Some(a)
    ensures Delivered(a, [], c)
  {
    assert a.body[0..] == a.body;
  }

  lemma DeliveredLength(a: ChunkedCoding.Ahead, s: seq<byte>, c: Option<ChunkedCoding.Ahead>)
    requires Delivered(a, s, c)
    ensures |s| <= |a.body| && c.Some? && |c.value.body| == |a.body| - |s|
    ensures |s| == |a.body| ==> s == a.body
  {}

  lemma DeliveredTwice(a: ChunkedCoding.Ahead, s: seq<byte>, b: ChunkedCoding.Ahead, t: seq<byte>,
                       c: Option<ChunkedCoding.Ahead>)
    requires Delivered(a, s, Some(b)) && Delivered(b, t, c)
    ensures Delivered(a, s + t, c)
  {
    assert a.body[|s|..][..|t|] == a.body[|s|..|s| + |t|];
    assert a.body[..|s| + |t|] == a.body[..|s|] + a.body[|s|..|s| + |t|];
    assert a.body[|s|..][|t|..] == a.body[|s| + |t|..];
  }

  /** `got` is the front of the body, and the rest is still ahead. */
  ghost predicate Delivered(before: ChunkedCoding.Ahead, got: seq<byte>, after: Option<ChunkedCoding.Ahead>) {
    && |got| <= |before.body| && got == before.body[..|got|]
    && after == Some(ChunkedCoding.Ahead(before.body[|got|..], before.rest))
  }

  lemma WithinChunk(remaining: nat, w: seq<byte>, k: nat)
    requires k <= remaining && k <= |w|
    ensures DecodeInChunk(remaining, w).Some? ==>
            Delivered(DecodeInChunk(remaining, w).value, w[..k], DecodeInChunk(remaining - k, w[k..]))
    ensures DecodeInChunk(remaining, w).None? ==> DecodeInChunk(remaining - k, w[k..]).None?
  {
    var at := remaining - k;
    if NewlineAt(w[k..], at) {
      assert w[k..][at..at + 2] == w[remaining..remaining + 2] && w[k..][at + 2..] == w[remaining + 2..];
    }
    if NewlineAt(w, remaining) {
      var w' := w[k..];
      assert w'[remaining - k..remaining - k + 2] == w[remaining..remaining + 2];
      assert w'[remaining - k + 2..] == w[remaining + 2..];
      assert w[..remaining][..k] == w[..k] && w[..remaining][k..] == w'[..remaining - k];
      var next := Decode(w[remaining + 2..]);
      if next.Some? {
        var body := w[..remaining] + next.value.body;
        assert body[..k] == w[..k];
        assert body[k..] == w'[..remaining - k] + next.value.body;
      }
    }
  }
}
