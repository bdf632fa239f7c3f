/**
 The receiving half of an open connection: records are read from a fragmenting
 transport into one buffer, opened in place, and their plaintext is handed out
 from where it lies until it is consumed.
 */
module TlsReading {
  import opened Bytes
  import opened Slices
  import opened TlsRecords
  import opened Transport
  import opened Wrappers

  // ---------- what the byte stream holds ----------

  datatype Parsed = Parsed(header: seq<byte>, payload: seq<byte>, rest: seq<byte>)

  /** The next record of the stream; space is short only when one payload exceeds the buffer. */
  function ParseRecord(w: seq<byte>, capacity: nat): TlsResult<Parsed> {
    if |w| < HEADER_SIZE then Err(IoError)
    else if !IsContentType(w[0]) then Err(InvalidRecord)
    else
      var len := ContentLength(w[..5]);
      if len > capacity then Err(InsufficientSpace)
      else if |w| < HEADER_SIZE + len then Err(IoError)
      else Ok(Parsed(w[..5], w[5..5 + len], w[5 + len..]))
  }

  const ALERT_CODES: set<int> :=
    {0, 10, 20, 22, 40, 42, 43, 44, 45, 46, 47, 48, 49, 50, 51, 70, 71, 80, 86, 90, 109, 110, 112, 113, 115, 116, 120}

  /** Why an alert cannot be parsed. */
  function AlertFault(data: seq<byte>): Option<TlsError> {
    if |data| < 2 then Some(ParseError)
    else if (data[0] != 1 && data[0] != 2) || data[1] !in ALERT_CODES then Some(DecodeError)
    else None
  }

  /** Levels 1 and 2, and the descriptions the code knows of those in RFC 8446, section 6, can be parsed. */
  lemma AlertFaultIff(level: byte, description: byte, more: seq<byte>)
    ensures AlertFault([level, description] + more) == None <==>
            (level == 1 || level == 2)
            && (description in {0, 10, 20, 22, 70, 71, 80, 86, 90, 109, 110, 112, 113, 115, 116, 120}
                || (40 <= description <= 51 && description != 41))
    ensures AlertFault([]) == AlertFault([level]) == Some(ParseError)
    ensures AlertError([level, description]) == ConnectionClosed <==> (level == 1 || level == 2) && description == 0
  {
    var alert := [level, description] + more;
    assert alert[0] == level && alert[1] == description;
  }

  /** A well-formed close_notify closes the connection; every other alert is an error. */
  function AlertError(data: seq<byte>): TlsError {
    if AlertFault(data).Some? then AlertFault(data).value
    else if data[1] == 0 then ConnectionClosed
    else InternalError
  }

  /** Parses one handshake message: how many bytes a session ticket at the front takes, if it is one. */
  type Tickets = seq<byte> -> Option<nat>

  function TicketAt(tickets: Tickets, data: seq<byte>): (n: Option<nat>)
    ensures n.Some? ==> 0 < n.value <= |data|
  {
    var n := tickets(data);
    if n.Some? && 0 < n.value <= |data| then n else None
  }

  /** One session ticket after the other up to the end. */
  predicate AllTickets(tickets: Tickets, data: seq<byte>)
    decreases |data|
  {
    data == [] ||
    var n := TicketAt(tickets, data);
    n.Some? && AllTickets(tickets, data[n.value..])
  }

  /** A ticket in front changes nothing: what is behind it has to be tickets, and nothing at all is enough. */
  lemma TicketInFront(tickets: Tickets, t: seq<byte>, rest: seq<byte>)
    requires t != [] && tickets(t + rest) == Some(|t|)
    ensures AllTickets(tickets, t + rest) <==> AllTickets(tickets, rest)
    ensures AllTickets(tickets, [])
  {
    assert (t + rest)[|t|..] == rest;
  }

  /** What is made of one record or message: tickets are the only handshake messages that get here, and are ignored. */
  function Handled(inner: Inner): TlsResult<seq<byte>> {
    if inner.contentType == 23 then Ok(inner.data)
    else if inner.contentType == 22 then Ok([])
    else if inner.contentType == 21 then Err(AlertError(inner.data))
    else Err(Unimplemented)
  }

  /** The application bytes an opened record gives (none for tickets), or why the connection fails. */
  function Content(tickets: Tickets, inner: Inner): TlsResult<seq<byte>> {
    if inner.contentType == 22 && !AllTickets(tickets, inner.data) then Err(Unimplemented) else Handled(inner)
  }

  /** In a record that was not encrypted only the first message is read. */
  function PlainContent(tickets: Tickets, inner: Inner): TlsResult<seq<byte>> {
    if inner.contentType == 22 && TicketAt(tickets, inner.data).None? then Err(Unimplemented) else Handled(inner)
  }

  /** Application bytes that arrived, and the keys and stream after them. */
  datatype Arrival = Arrival(data: seq<byte>, keys: Keys, rest: seq<byte>)

  function Arriving(content: TlsResult<seq<byte>>, keys: Keys, rest: seq<byte>): TlsResult<Arrival> {
    if content.Err? then Err(content.error) else Ok(Arrival(content.value, keys, rest))
  }

  /** What an encrypted record protects. */
  function Opened(keys: Keys, header: seq<byte>, payload: seq<byte>): TlsResult<Inner> {
    match keys.aead.open(keys.key, Nonce(keys.iv, keys.counter), header, payload)
    case None => Err(CryptoError)
    case Some(plain) => Unwrap(plain)
  }

  /** The effect of one record: only encrypted ones are opened, and only they advance the counter. */
  function Process(tickets: Tickets, keys: Keys, record: Parsed): TlsResult<Arrival>
    requires |record.header| == 5
  {
    if record.header[0] == 20 then Err(InternalError)
    else if record.header[0] != 23 then
      Arriving(PlainContent(tickets, Inner(record.payload, record.header[0])), keys, record.rest)
    else
      match Opened(keys, record.header, record.payload)
      case Err(e) => Err(e)
      case Ok(inner) => Arriving(Content(tickets, inner), Advance(keys, 1), record.rest)
  }

  function NextArrival(tickets: Tickets, keys: Keys, w: seq<byte>, capacity: nat): (r: TlsResult<Arrival>)
    ensures r.Ok? ==> |r.value.rest| < |w| && r.value.keys.aead == keys.aead
  {
    match ParseRecord(w, capacity)
    case Err(e) => Err(e)
    case Ok(record) => Process(tickets, keys, record)
  }

  /** The next non-empty application data, past tickets and empty records. */
  function NextData(tickets: Tickets, keys: Keys, w: seq<byte>, capacity: nat): (r: TlsResult<Arrival>)
    ensures r.Ok? ==> r.value.data != []
    decreases |w|
  {
    match NextArrival(tickets, keys, w, capacity)
    case Err(e) => Err(e)
    case Ok(a) => if a.data != [] then Ok(a) else NextData(tickets, a.keys, a.rest, capacity)
  }

  /** What a read draws on: bytes left from before, or else the next data. */
  function Available(unread: seq<byte>, tickets: Tickets, keys: Keys, w: seq<byte>,
                     capacity: nat): (r: TlsResult<Arrival>)
    ensures r.Ok? ==> r.value.data != []
  {
    if unread != [] then Ok(Arrival(unread, keys, w)) else NextData(tickets, keys, w, capacity)
  }

  lemma UnwrapIsPrefix(plain: seq<byte>)
    ensures Unwrap(plain).Err? ==> Unwrap(plain).error != ConnectionClosed
    ensures Unwrap(plain).Ok? ==> |Unwrap(plain).value.data| < |plain|
                                  && Unwrap(plain).value.data == plain[..|Unwrap(plain).value.data|]
  {}

  lemma OpenRemovesTag(aead: Aead, key: Key, nonce: seq<byte>, ad: seq<byte>, cipher: seq<byte>)
    requires Lawful(aead) && aead.open(key, nonce, ad, cipher).Some?
    ensures |aead.open(key, nonce, ad, cipher).value| + TAG_SIZE == |cipher|
  {}

  lemma Popped(buf: seq<byte>, start: nat, end: nat, count: nat)
    requires start + count <= end <= |buf|
    ensures buf[start..end][..count] + buf[start + count..end] == buf[start..end]
  {}

  lemma DataInPlace(before: seq<byte>, after: seq<byte>, start: nat, plain: seq<byte>, data: seq<byte>)
    requires start + |plain| <= |before| && |data| <= |plain| && data == plain[..|data|]
    requires after == before[..start] + plain + before[start + |plain|..]
    ensures after[start..start + |data|] == data
  {}

  lemma Landed(was: seq<byte>, now: seq<byte>, start: nat, end: nat, got: seq<byte>)
    requires start <= end && end + |got| <= |was| && now == was[..end] + got + was[end + |got|..]
    ensures |now| == |was| && now[start..end + |got|] == was[start..end] + got
  {}

  lemma SplitInTwo(front: seq<byte>, back: seq<byte>, w: seq<byte>)
    requires front + back == w
    ensures |front| <= |w| && front == w[..|front|] && back == w[|front|..]
  {}

  // ---------- the record reader ----------

  datatype Record = Record(header: seq<byte>, start: nat, len: nat)

  class RecordReader {
    const buf: array<byte>
    var decoded: nat
    var pending: nat

    ghost predicate Valid()
      reads this
    {
      decoded + pending <= buf.Length
    }

    constructor (buf: array<byte>)
      ensures Valid() && this.buf == buf && decoded == 0 && pending == 0
    {
      this.buf := buf;
      decoded := 0;
      pending := 0;
    }

    method NextRecordHeader(transport: Source) returns (r: TlsResult<seq<byte>>)
      modifies transport
      ensures |old(transport.data)| < HEADER_SIZE ==> r == Err(IoError)
      ensures |old(transport.data)| >= HEADER_SIZE ==>
                transport.data == old(transport.data)[5..] &&
                r == if IsContentType(old(transport.data)[0]) then Ok(old(transport.data)[..5]) else Err(InvalidRecord)
    {
      ghost var w := transport.data;
      var header: seq<byte> := [];
      while |header| != HEADER_SIZE
        invariant |header| <= HEADER_SIZE && header + transport.data == w
        decreases HEADER_SIZE - |header|
      {
        ghost var so := header;
        var got := transport.Read(HEADER_SIZE - |header|);
        SeqRegroup(so, got, transport.data);
        if |got| == 0 {
          return Err(IoError);
        }
        header := header + got;
      }
      assert header == w[..5] && transport.data == w[5..];
      if IsContentType(header[0]) {
        return Ok(header);
      }
      return Err(InvalidRecord);
    }

    /** Moves to the front of the buffer when the next payload would not fit behind the decoded bytes. */
    method EnsureContiguous(len: nat) returns (r: TlsResult<()>)
      requires Valid()
      modifies this`decoded, buf
      ensures r == if len > buf.Length then Err(InsufficientSpace) else Ok(())
      ensures r.Ok? ==> Valid() && decoded + len <= buf.Length
      ensures r.Ok? ==> decoded == (if old(decoded) + len <= buf.Length then old(decoded) else 0)
      ensures r.Ok? ==> buf[..][decoded..decoded + pending] == old(buf[..][decoded..decoded + pending])
    {
      if decoded + len > buf.Length {
        if len > buf.Length {
          return Err(InsufficientSpace);
        }
        CopyWithin(buf, decoded, decoded + pending, 0);
        decoded := 0;
      }
      return Ok(());
    }

    method AdvanceBlocking(transport: Source, amount: nat) returns (r: TlsResult<()>)
      requires Valid() && pending == 0
      modifies this, buf, transport
      ensures amount > buf.Length ==> r == Err(InsufficientSpace)
      ensures amount <= buf.Length ==> r == if |old(transport.data)| < amount then Err(IoError) else Ok(())
      ensures r.Ok? ==> Valid() && pending == amount
                        && decoded == (if old(decoded) + amount <= buf.Length then old(decoded) else 0)
                        && buf[..][decoded..decoded + amount] == old(transport.data)[..amount]
                        && transport.data == old(transport.data)[amount..]
    {
      ghost var w := transport.data;
      var room := EnsureContiguous(amount);
      if room.Err? {
        return room;
      }
      var remain := amount;
      assert buf[..][decoded..decoded] == [];
      while pending < amount
        invariant 0 <= remain && pending + remain == amount && decoded + amount <= buf.Length
        invariant decoded == (if old(decoded) + amount <= buf.Length then old(decoded) else 0)
        invariant buf[..][decoded..decoded + pending] + transport.data == w
        decreases remain
      {
        var got := TakeSome(transport, remain);
        if got == 0 {
          return Err(IoError);
        }
        remain := remain - got;
      }
      SplitInTwo(buf[..][decoded..decoded + pending], transport.data, w);
      return Ok(());
    }

    /** One read of the transport, straight behind the pending bytes. */
    method TakeSome(transport: Source, remain: nat) returns (got: nat)
      requires decoded + pending + remain <= buf.Length
      modifies this`pending, buf, transport
      ensures got <= remain && pending == old(pending) + got
      ensures remain > 0 && old(transport.data) != [] ==> got > 0
      ensures buf[..][decoded..decoded + pending] + transport.data
              == old(buf[..][decoded..decoded + pending] + transport.data)
    {
      ghost var was, so := buf[..], buf[..][decoded..decoded + pending];
      var read := transport.Read(remain);
      CopyFromSlice(buf, decoded + pending, read);
      Landed(was, buf[..], decoded, decoded + pending, read);
      SeqRegroup(so, read, transport.data);
      got := |read|;
      pending := pending + got;
    }

    /** Reads one record; nothing stays pending after a success. */
    method ReadBlocking(transport: Source) returns (r: TlsResult<Record>)
      requires Valid() && pending == 0
      modifies this, buf, transport
      ensures var parsed := ParseRecord(old(transport.data), buf.Length);
              if parsed.Err? then r == Err(parsed.error)
              else r.Ok? && Valid() && pending == 0 && transport.data == parsed.value.rest
                   && r.value.header == parsed.value.header && r.value.len == |parsed.value.payload|
                   && r.value.start + r.value.len == decoded
                   && buf[..][r.value.start..decoded] == parsed.value.payload
    {
      hide ContentLength;
      ghost var w := transport.data;
      var header := NextRecordHeader(transport);
      if header.Err? {
        return Err(header.error);
      }
      var contentLen := ContentLength(header.value);
      var advanced := AdvanceBlocking(transport, contentLen);
      if advanced.Err? {
        return Err(advanced.error);
      }
      SliceAt(w, 5, contentLen);
      var start := decoded;
      decoded := decoded + contentLen;
      pending := pending - contentLen;
      return Ok(Record(header.value, start, contentLen));
    }
  }

  /** Opens an encrypted record where it lies in the record buffer and strips its padding. */
  method OpenInPlace(keys: Keys, buf: array<byte>, record: Record) returns (r: TlsResult<Inner>)
    requires Lawful(keys.aead) && |record.header| == 5 && record.start + record.len <= buf.Length
    modifies buf
    ensures r == Opened(keys, record.header, old(buf[..][record.start..record.start + record.len]))
    ensures r.Err? ==> r.error != ConnectionClosed
    ensures r.Ok? ==> record.start + |r.value.data| <= buf.Length
                      && buf[..][record.start..record.start + |r.value.data|] == r.value.data
  {
    hide Unwrap, Nonce, Lawful;
    var start := record.start;
    var data := buf[..][start..start + record.len];
    var nonce := GetNonce(keys.counter, keys.iv);
    var decrypted := keys.aead.open(keys.key, nonce[..], record.header, data);
    if decrypted.None? {
      return Err(CryptoError);
    }
    var plain := decrypted.value;
    OpenRemovesTag(keys.aead, keys.key, nonce[..], record.header, data);
    ghost var before := buf[..];
    CopyFromSlice(buf, start, plain);
    r := Unwrap(plain);
    UnwrapIsPrefix(plain);
    if r.Ok? {
      DataInPlace(before, buf[..], start, plain, r.value.data);
    }
  }

  // ---------- the connection's read half ----------

  /** A view of the plaintext that counts what is taken out of it. */
  class ReadBuffer {
    const data: seq<byte>
    var consumed: nat
    var used: bool

    constructor (data: seq<byte>)
      ensures this.data == data && consumed == 0 && !used
    {
      this.data := data;
      consumed := 0;
      used := false;
    }

    method PeekAll() returns (s: seq<byte>)
      requires consumed <= |data|
      modifies this`used
      ensures used && s == data[consumed..]
    {
      used := true;
      return data[consumed..];
    }

    method Pop(count: nat) returns (s: seq<byte>)
      requires consumed <= |data|
      modifies this
      ensures |s| == if count <= |data| - old(consumed) then count else |data| - old(consumed)
      ensures used && consumed == old(consumed) + |s| <= |data| && s == data[old(consumed)..][..|s|]
    {
      var n := if |data| - consumed < count then |data| - consumed else count;
      var start := consumed;
      consumed := consumed + n;
      used := true;
      return data[start..start + n];
    }

    /** What giving the view back consumes: everything if it was never looked at. */
    function Dropped(): nat
      reads this
    {
      if used then consumed else |data|
    }
  }

  class TlsReader {
    const recordReader: RecordReader
    const transport: Source
    const tickets: Tickets
    var keys: Keys
    var isOpen: bool
    var offset: nat      // the decrypted window into the record buffer
    var len: nat
    var consumed: nat

    ghost predicate Valid()
      reads this, recordReader
    {
      && recordReader.Valid() && recordReader.pending == 0 && Lawful(keys.aead)
      && consumed <= len && offset + len <= recordReader.buf.Length
    }

    /** Plaintext the caller has not consumed. */
    ghost function Unread(): (s: seq<byte>)
      requires Valid()
      reads this, recordReader, recordReader.buf
      ensures |s| == len - consumed
    {
      recordReader.buf[..][offset + consumed..offset + len]
    }

    constructor (buf: array<byte>, transport: Source, keys: Keys, tickets: Tickets)
      requires Lawful(keys.aead)
      ensures Valid() && isOpen && Unread() == [] && fresh(recordReader)
      ensures this.transport == transport && this.keys == keys && this.tickets == tickets && recordReader.buf == buf
    {
      recordReader := new RecordReader(buf);
      this.transport := transport;
      this.keys := keys;
      this.tickets := tickets;
      isOpen := true;
      offset, len, consumed := 0, 0, 0;
    }

    /** Takes over a record or message; application data lies at `start` of the record buffer. */
    method Handle(inner: Inner, start: nat) returns (r: TlsResult<()>)
      requires Valid() && Unread() == []
      requires inner.contentType == APPLICATION_DATA ==>
                 start + |inner.data| <= recordReader.buf.Length
                 && recordReader.buf[..][start..start + |inner.data|] == inner.data
      modifies this`isOpen, this`offset, this`len, this`consumed
      ensures var a := Handled(inner);
              Valid() && isOpen == (old(isOpen) && a != Err(ConnectionClosed)) &&
              if a.Err? then r == Err(a.error) && Unread() == [] else r.Ok? && Unread() == a.value
    {
      if inner.contentType == APPLICATION_DATA {
        offset, len, consumed := start, |inner.data|, 0;
        return Ok(());
      } else if inner.contentType == HANDSHAKE {
        return Ok(());
      } else if inner.contentType == ALERT {
        var error := AlertError(inner.data);
        if error == ConnectionClosed {
          isOpen := false;
        }
        return Err(error);
      }
      return Err(Unimplemented);
    }

    /** Handles the handshake messages of a record one by one. */
    method HandleMessages(data: seq<byte>, start: nat) returns (r: TlsResult<()>)
      requires Valid() && Unread() == []
      modifies this`isOpen, this`offset, this`len, this`consumed
      ensures Valid() && Unread() == [] && isOpen == old(isOpen)
      ensures r == if AllTickets(tickets, data) then Ok(()) else Err(Unimplemented)
    {
      hide TicketAt, AlertError, Lawful;
      var pos := 0;
      assert data[0..] == data;
      while pos < |data|
        invariant pos <= |data| && Valid() && Unread() == [] && isOpen == old(isOpen)
        invariant AllTickets(tickets, data[pos..]) == AllTickets(tickets, data)
      {
        var n := TicketAt(tickets, data[pos..]);
        if n.None? {
          return Err(Unimplemented);
        }
        assert data[pos..][n.value..] == data[pos + n.value..];
        r := Handle(Inner(data[pos..pos + n.value], HANDSHAKE), start + pos);
        pos := pos + n.value;
      }
      return Ok(());
    }

    /** What was in an encrypted record. */
    method HandleOpened(inner: Inner, start: nat) returns (r: TlsResult<()>)
      requires Valid() && Unread() == []
      requires start + |inner.data| <= recordReader.buf.Length
               && recordReader.buf[..][start..start + |inner.data|] == inner.data
      modifies this`isOpen, this`offset, this`len, this`consumed
      ensures var a := Content(tickets, inner);
              Valid() && isOpen == (old(isOpen) && a != Err(ConnectionClosed)) &&
              if a.Err? then r == Err(a.error) && Unread() == [] else r.Ok? && Unread() == a.value
    {
      hide AllTickets, TicketAt, AlertError, Lawful;
      if inner.contentType == HANDSHAKE {
        r := HandleMessages(inner.data, start);
      } else {
        r := Handle(inner, start);
      }
    }

    /** What was in a record in the clear. */
    method HandlePlain(inner: Inner, start: nat) returns (r: TlsResult<()>)
      requires Valid() && Unread() == []
      requires start + |inner.data| <= recordReader.buf.Length
               && recordReader.buf[..][start..start + |inner.data|] == inner.data
      modifies this`isOpen, this`offset, this`len, this`consumed
      ensures var a := PlainContent(tickets, inner);
              Valid() && isOpen == (old(isOpen) && a != Err(ConnectionClosed)) &&
              if a.Err? then r == Err(a.error) && Unread() == [] else r.Ok? && Unread() == a.value
    {
      hide AllTickets, TicketAt, AlertError, Lawful;
      if inner.contentType == HANDSHAKE && TicketAt(tickets, inner.data).None? {
        return Err(Unimplemented);
      }
      r := Handle(inner, start);
    }

    /** Opens the record if it is encrypted, and hands it on; only opened records advance the counter. */
    method DecryptRecord(record: Record) returns (r: TlsResult<()>)
      requires Valid() && Unread() == []
      requires |record.header| == 5 && record.start + record.len <= recordReader.buf.Length
      modifies this`keys, this`isOpen, this`offset, this`len, this`consumed, recordReader.buf
      ensures var a := Process(tickets, old(keys), Parsed(record.header,
                  old(recordReader.buf[..][record.start..record.start + record.len]), transport.data));
              Valid() && isOpen == (old(isOpen) && a != Err(ConnectionClosed)) &&
              if a.Err? then r == Err(a.error) && Unread() == []
              else r.Ok? && Unread() == a.value.data && keys == a.value.keys
    {
      hide Opened, Content, PlainContent, Lawful;
      var header, start := record.header, record.start;
      if header[0] == CHANGE_CIPHER_SPEC {
        return Err(InternalError);
      }
      if header[0] != APPLICATION_DATA {
        r := HandlePlain(Inner(recordReader.buf[..][start..start + record.len], header[0]), start);
        return;
      }
      var inner := OpenInPlace(keys, recordReader.buf, record);
      if inner.Err? {
        return Err(inner.error);
      }
      r := HandleOpened(inner.value, start);
      if r.Ok? {
        keys := keys.(counter := keys.counter + 1);
      }
    }

    /** Takes in one record, when everything decrypted before has been consumed. */
    method ReadApplicationData() returns (r: TlsResult<()>)
      requires Valid() && Unread() == []
      modifies this`keys, this`isOpen, this`offset, this`len, this`consumed, recordReader, recordReader.buf, transport
      ensures var a := NextArrival(tickets, old(keys), old(transport.data), recordReader.buf.Length);
              if a.Err? then r == Err(a.error) && isOpen == (old(isOpen) && a.error != ConnectionClosed)
                             && (a.error == ConnectionClosed ==> Valid() && Unread() == [])
              else r.Ok? && Valid() && Unread() == a.value.data && keys == a.value.keys
                   && transport.data == a.value.rest && isOpen == old(isOpen)
    {
      var record := recordReader.ReadBlocking(transport);
      if record.Err? {
        return Err(record.error);
      }
      r := DecryptRecord(record.value);
    }

    /** Unconsumed plaintext if there is any; otherwise records are read until there is. */
    method ReadBuffered() returns (r: TlsResult<ReadBuffer>)
      requires Valid()
      modifies this`keys, this`isOpen, this`offset, this`len, this`consumed, recordReader, recordReader.buf, transport
      ensures !old(isOpen) ==> r == Err(MissingHandshake) && Valid() && Unread() == old(Unread()) && !isOpen
      ensures old(isOpen) ==>
                var a := Available(old(Unread()), tickets, old(keys), old(transport.data), recordReader.buf.Length);
                if a.Err? then r == Err(a.error) && isOpen == (a.error != ConnectionClosed)
                               && (a.error == ConnectionClosed ==> Valid() && Unread() == [])
                else Valid() && isOpen && Unread() == a.value.data && keys == a.value.keys
                     && transport.data == a.value.rest
      ensures old(isOpen)
              && Available(old(Unread()), tickets, old(keys), old(transport.data), recordReader.buf.Length).Ok? ==>
                r.Ok? && fresh(r.value) && r.value.data == Unread() != [] && r.value.consumed == 0 && !r.value.used
    {
      if !isOpen {
        return Err(MissingHandshake);
      }
      ghost var all := Available(Unread(), tickets, keys, transport.data, recordReader.buf.Length);
      while len - consumed == 0
        invariant Valid() && isOpen
        invariant all == Available(Unread(), tickets, keys, transport.data, recordReader.buf.Length)
        decreases if len == consumed then 1 else 0, |transport.data|
      {
        assert Unread() == [];
        var one := ReadApplicationData();
        if one.Err? {
          return Err(one.error);
        }
      }
      var view := new ReadBuffer(recordReader.buf[..][offset + consumed..offset + len]);
      return Ok(view);
    }

    /** Copies out at most `max` bytes, and at least one of a non-empty request. */
    method Read(max: nat) returns (r: TlsResult<seq<byte>>)
      requires Valid()
      modifies this`keys, this`isOpen, this`offset, this`len, this`consumed, recordReader, recordReader.buf, transport
      ensures max == 0 ==> r == Ok([]) && Valid() && Unread() == old(Unread()) && keys == old(keys)
                           && transport.data == old(transport.data) && isOpen == old(isOpen)
      ensures max > 0 && !old(isOpen) ==> r == Err(MissingHandshake) && Valid() && Unread() == old(Unread()) && !isOpen
      ensures max > 0 && old(isOpen) ==>
                var a := Available(old(Unread()), tickets, old(keys), old(transport.data), recordReader.buf.Length);
                if a.Err? then r == Err(a.error) && isOpen == (a.error != ConnectionClosed)
                               && (a.error == ConnectionClosed ==> Valid() && Unread() == [])
                else r.Ok? && Valid() && isOpen && 0 < |r.value| <= max && r.value + Unread() == a.value.data
                     && keys == a.value.keys && transport.data == a.value.rest
    {
      hide Available, NextData, Lawful;
      if max == 0 {
        return Ok([]);
      }
      var buffer := ReadBuffered();
      if buffer.Err? {
        return Err(buffer.error);
      }
      ghost var start := offset + consumed;
      var got := buffer.value.Pop(max);
      consumed := consumed + buffer.value.Dropped();
      Popped(recordReader.buf[..], start, offset + len, |got|);
      return Ok(got);
    }

    /** Shows the unread bytes without consuming any of them. */
    method FillBuf() returns (r: TlsResult<seq<byte>>)
      requires Valid()
      modifies this`keys, this`isOpen, this`offset, this`len, this`consumed, recordReader, recordReader.buf, transport
      ensures !old(isOpen) ==> r == Err(MissingHandshake) && Valid() && Unread() == old(Unread()) && !isOpen
      ensures old(isOpen) ==>
                var a := Available(old(Unread()), tickets, old(keys), old(transport.data), recordReader.buf.Length);
                if a.Err? then r == Err(a.error) && isOpen == (a.error != ConnectionClosed)
                               && (a.error == ConnectionClosed ==> Valid() && Unread() == [])
                else r.Ok? && Valid() && isOpen && r.value == Unread() == a.value.data && r.value != []
                     && keys == a.value.keys && transport.data == a.value.rest
    {
      var buffer := ReadBuffered();
      if buffer.Err? {
        return Err(buffer.error);
      }
      var got := buffer.value.PeekAll();
      consumed := consumed + buffer.value.Dropped();
      return Ok(got);
    }

    /** Drops up to `amount` unread bytes. */
    method Consume(amount: nat)
      requires Valid()
      modifies this`consumed
      ensures Valid() && Unread() == old(Unread())[if amount <= |old(Unread())| then amount else |old(Unread())|..]
    {
      ghost var unread := Unread();
      var buffer := new ReadBuffer(recordReader.buf[..][offset + consumed..offset + len]);
      var got := buffer.Pop(amount);
      consumed := consumed + buffer.Dropped();
      assert Unread() == unread[|got|..];
    }
  }
}
