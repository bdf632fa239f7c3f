/**
 The sending half of an open connection: the write buffer collects application
 bytes behind a record header, and a flush seals them in place and sends them.
 The transport is the sequence of bytes it was given.
 */
module TlsWriting {
  import opened Bytes
  import opened CryptoBuffers
  import opened Slices
  import opened TlsRecords
  import opened Wrappers
  import opened WriteCalls

  const TLS_RECORD_OVERHEAD: nat := 128
  const CLOSE_NOTIFY: seq<byte> := [1, 0]

  datatype ClientRecordHeader = HandshakeRecord(encrypted: bool) | AlertRecord(encrypted: bool) | ApplicationDataRecord

  predicate IsEncrypted(header: ClientRecordHeader) {
    header.ApplicationDataRecord? || header.encrypted
  }

  function TrailerContentType(header: ClientRecordHeader): byte {
    match header
    case HandshakeRecord(_) => HANDSHAKE
    case AlertRecord(_) => ALERT
    case ApplicationDataRecord => APPLICATION_DATA
  }

  /** Content type and version as they go on the wire; a plaintext alert is marked as the code marks it. */
  function HeaderBytes(header: ClientRecordHeader): (s: seq<byte>)
    ensures |s| == 3
  {
    match header
    case HandshakeRecord(false) => [HANDSHAKE, 3, 1]
    case AlertRecord(false) => [CHANGE_CIPHER_SPEC, 3, 1]
    case _ => [APPLICATION_DATA, 3, 3]
  }

  /**
   The content types and versions of RFC 8446, section 5.1; a plaintext alert goes
   out under the type of a ChangeCipherSpec record.
   */
  lemma HeadersAre(encrypted: bool)
    ensures HeaderBytes(HandshakeRecord(encrypted)) == if encrypted then [23, 3, 3] else [22, 3, 1]
    ensures HeaderBytes(AlertRecord(encrypted)) == if encrypted then [23, 3, 3] else [20, 3, 1]
    ensures HeaderBytes(ApplicationDataRecord) == [23, 3, 3]
    ensures IsEncrypted(HandshakeRecord(encrypted)) == IsEncrypted(AlertRecord(encrypted)) == encrypted
    ensures IsEncrypted(ApplicationDataRecord)
    ensures TrailerContentType(HandshakeRecord(encrypted)) == 22 && TrailerContentType(AlertRecord(encrypted)) == 21
    ensures TrailerContentType(ApplicationDataRecord) == 23
  {}

  /** The record as sent: sealed, or in the clear under its own header. */
  function RecordBytes(keys: Keys, header: ClientRecordHeader, payload: seq<byte>): seq<byte> {
    if IsEncrypted(header) then SealRecord(keys, Inner(payload, TrailerContentType(header)))
    else HeaderBytes(header) + U16Bytes(|payload|) + payload
  }

  lemma GoodbyeBytes(keys: Keys)
    ensures RecordBytes(keys, AlertRecord(true), CLOSE_NOTIFY) == SealRecord(keys, Inner([1, 0], 21))
  {}

  /** Seals the view in place; the additional data announces the sealed length. */
  method Encrypt(keys: Keys, buf: CryptoBuffer) returns (r: TlsResult<()>)
    requires Lawful(keys.aead) && buf.Valid()
    modifies buf`len, buf.buf
    ensures buf.Valid()
    ensures r.Ok? <==> old(buf.len) + TAG_SIZE <= buf.buf.Length && TAG_SIZE <= old(buf.Space())
    ensures r.Ok? ==> buf.Contents() == keys.aead.seal(keys.key, Nonce(keys.iv, keys.counter),
                                                      Header(old(buf.len) + TAG_SIZE), old(buf.Contents()))
    ensures r.Ok? ==> buf.len == old(buf.len) + TAG_SIZE && buf.buf[..][..buf.offset] == old(buf.buf[..][..buf.offset])
  {
    var nonce := GetNonce(keys.counter, keys.iv);
    var len := buf.len + TAG_SIZE;
    if len > buf.buf.Length {
      return Err(InsufficientSpace);
    }
    var lenBytes := U16Bytes(len);
    var additionalData := [APPLICATION_DATA, 3, 3] + lenBytes;
    if buf.Space() < TAG_SIZE {
      return Err(InvalidApplicationData);
    }
    var sealed := keys.aead.seal(keys.key, nonce[..], additionalData, buf.AsSlice());
    assert buf.AsSlice() == buf.Contents();
    CopyFromSlice(buf.buf, buf.offset, sealed);
    buf.Truncate(|sealed|);
    return Ok(());
  }

  lemma TrailerAppended(was: seq<byte>, now: seq<byte>, pos: nat, trailer: byte)
    requires 5 <= pos < |was| == |now| && now[0..pos + 1] == was[..pos] + [trailer]
    ensures now[5..pos + 1] == was[5..pos] + [trailer] && now[..5] == was[..5]
  {
    assert now[5..pos + 1] == now[0..pos + 1][5..] && now[..5] == now[0..pos + 1][..5];
  }

  lemma LengthFilledIn(was: seq<byte>, now: seq<byte>, pos: nat)
    requires 5 <= pos <= |was| && now == was[3 := U16Bytes(pos - 5)[0]][4 := U16Bytes(pos - 5)[1]]
    ensures now[..pos] == was[..3] + U16Bytes(pos - 5) + was[5..pos]
  {}

  class WriteBuffer {
    const buffer: array<byte>
    var pos: nat
    var currentHeader: Option<ClientRecordHeader>

    /** A started record begins with its header and an empty length. */
    ghost predicate Valid()
      reads this, buffer
    {
      && pos <= buffer.Length
      && (currentHeader.None? ==> pos == 0)
      && (currentHeader.Some? ==> 5 <= pos && buffer[..][..3] == HeaderBytes(currentHeader.value))
    }

    ghost function Payload(): seq<byte>
      requires Valid()
      reads this, buffer
    {
      if currentHeader.None? then [] else buffer[..][5..pos]
    }

    constructor (buffer: array<byte>)
      ensures Valid() && this.buffer == buffer && pos == 0 && currentHeader == None
    {
      this.buffer := buffer;
      pos := 0;
      currentHeader := None;
    }

    predicate IsFull()
      reads this
    {
      pos == buffer.Length - TLS_RECORD_OVERHEAD
    }

    method Append(data: seq<byte>) returns (buffered: nat)
      requires Valid() && currentHeader.Some? && pos <= buffer.Length - TLS_RECORD_OVERHEAD
      modifies this`pos, buffer
      ensures Valid() && buffered <= |data| && pos == old(pos) + buffered <= buffer.Length - 128
      ensures buffered == |data| || pos == buffer.Length - 128
      ensures Payload() == old(Payload()) + data[..buffered]
    {
      var space := buffer.Length - TLS_RECORD_OVERHEAD - pos;
      buffered := if |data| < space then |data| else space;
      if buffered > 0 {
        CopyFromSlice(buffer, pos, data[..buffered]);
        pos := pos + buffered;
      }
    }

    method StartRecord(header: ClientRecordHeader) returns (r: TlsResult<()>)
      requires Valid() && currentHeader.None?
      modifies this`pos, this`currentHeader, buffer
      ensures r.Ok? <==> 5 <= buffer.Length
      ensures r.Ok? ==> Valid() && currentHeader == Some(header) && pos == 5 && Payload() == []
    {
      currentHeader := Some(header);
      var buf := new CryptoBuffer.WrapWithPos(buffer, pos);
      assert buf.Contents() == [];
      var r0 := buf.ExtendFromSlice(HeaderBytes(header));
      if r0.Err? {
        return Err(EncodeError);
      }
      var r1 := buf.ExtendFromSlice([0, 0]);
      if r1.Err? {
        return r1;
      }
      assert buf.Contents() == HeaderBytes(header) + [0, 0];
      assert buffer[..][..5] == buf.Contents();
      assert buffer[..][..3] == buffer[..][..5][..3];
      buf.Rewind();
      pos := buf.len;
      return Ok(());
    }

    /** Appends the content type and seals everything behind the header in place. */
    method SealPayload(header: ClientRecordHeader, keys: Keys) returns (r: TlsResult<()>)
      requires 5 <= pos <= buffer.Length && Lawful(keys.aead)
      modifies this`pos, buffer
      ensures r.Ok? <==> old(pos) + 1 + TAG_SIZE <= buffer.Length
      ensures r.Ok? ==> pos == old(pos) + 1 + TAG_SIZE && buffer[..][..5] == old(buffer[..][..5])
      ensures r.Ok? ==>
              buffer[..][5..pos] == Ciphertext(keys, Inner(old(buffer[..][5..pos]), TrailerContentType(header)))
    {
      hide Nonce, Lawful, HeaderBytes;
      ghost var was := buffer[..];
      var buf := new CryptoBuffer.WrapWithPos(buffer, pos);
      var pushed := buf.Push(TrailerContentType(header));
      if pushed.Err? {
        return Err(EncodeError);
      }
      TrailerAppended(was, buffer[..], pos, TrailerContentType(header));
      buf.Offset(HEADER_SIZE);
      var sealed := Encrypt(keys, buf);
      if sealed.Err? {
        return Err(sealed.error);
      }
      buf.Rewind();
      pos := buf.len;
      return Ok(());
    }

    /** Seals the record in place and writes its length into the header. */
    method CloseRecord(keys: Keys) returns (r: TlsResult<seq<byte>>)
      requires Valid() && currentHeader.Some? && Lawful(keys.aead)
      modifies this`pos, this`currentHeader, buffer
      ensures r.Ok? <==> !IsEncrypted(old(currentHeader).value) || old(pos) + 1 + TAG_SIZE <= buffer.Length
      ensures r.Ok? ==> Valid() && pos == 0 && currentHeader == None
      ensures r.Ok? ==> r.value == RecordBytes(keys, old(currentHeader).value, old(Payload()))
    {
      hide Nonce, Lawful;
      var header := currentHeader.value;
      currentHeader := None;
      assert buffer[..][..5][..3] == buffer[..][..3] == HeaderBytes(header);
      if IsEncrypted(header) {
        var sealed := SealPayload(header, keys);
        if sealed.Err? {
          return Err(sealed.error);
        }
        assert buffer[..][..5][..3] == buffer[..][..3];
      }
      ghost var was := buffer[..];
      var lengthBytes := U16Bytes(pos - HEADER_SIZE);
      buffer[3] := lengthBytes[0];
      buffer[4] := lengthBytes[1];
      var slice := buffer[..][..pos];
      LengthFilledIn(was, buffer[..], pos);
      pos := 0;
      currentHeader := None;
      return Ok(slice);
    }

    /** A whole record at once: started, filled and closed. */
    method WriteRecord(header: ClientRecordHeader, payload: seq<byte>, keys: Keys) returns (r: TlsResult<seq<byte>>)
      requires Valid() && Lawful(keys.aead)
      modifies this`pos, this`currentHeader, buffer
      ensures old(currentHeader).Some? ==> r == Err(InternalError)
      ensures r.Ok? <==> old(currentHeader).None?
                         && HEADER_SIZE + |payload| + (if IsEncrypted(header) then 1 + TAG_SIZE else 0) <= buffer.Length
      ensures r.Ok? ==> Valid() && currentHeader == None && r.value == RecordBytes(keys, header, payload)
    {
      if currentHeader.Some? {
        return Err(InternalError);
      }
      var started := StartRecord(header);
      if started.Err? {
        return Err(started.error);
      }
      var buf := new CryptoBuffer.WrapWithPos(buffer, pos);
      buf.Forward();
      assert buf.Contents() == [];
      var encoded := buf.ExtendFromSlice(payload);
      if encoded.Err? {
        return Err(EncodeError);
      }
      assert buf.Contents() == payload;
      buf.Rewind();
      assert buffer[..][..5][..3] == buffer[..][..3];
      pos := buf.len;
      assert Payload() == payload;
      r := CloseRecord(keys);
    }
  }

  // ---------- the connection's write half ----------

  /** The application bytes among the records sent. */
  function AppData(records: seq<Inner>): seq<byte> {
    if records == [] then []
    else AppData(records[..|records| - 1])
         + if records[|records| - 1].contentType == 23 then records[|records| - 1].data else []
  }

  lemma AppDataPush(records: seq<Inner>, inner: Inner)
    ensures AppData(records + [inner])
            == AppData(records) + if inner.contentType == 23 then inner.data else []
  {
    assert (records + [inner])[..|records|] == records;
  }

  /** Application records of at most `limit` bytes. */
  ghost predicate AppRecords(records: seq<Inner>, limit: int) {
    forall i :: 0 <= i < |records| ==> records[i].contentType == 23 && |records[i].data| <= limit
  }

  lemma AppRecordsPush(records: seq<Inner>, inner: Inner, limit: int)
    requires AppRecords(records, limit) && inner.contentType == 23 && |inner.data| <= limit
    ensures AppRecords(records + [inner], limit)
  {}

  class TlsWriter {
    const recordWriteBuf: WriteBuffer
    var keys: Keys
    var sent: seq<byte>
    var isOpen: bool

    ghost const initial: Keys
    ghost const before: seq<byte>     // what the transport was given before
    ghost var records: seq<Inner>     // every record sealed since, in order

    /** What fits between the header and the reserve for the trailer. */
    ghost function MaxPayload(): int {
      recordWriteBuf.buffer.Length - TLS_RECORD_OVERHEAD - 5
    }

    /** Every sealed record is on the transport, each under the next counter; an open record is application data. */
    ghost predicate Collecting()
      reads this, recordWriteBuf, recordWriteBuf.buffer
    {
      && Lawful(keys.aead) && recordWriteBuf.Valid()
      && TLS_RECORD_OVERHEAD + 5 < recordWriteBuf.buffer.Length
      && keys == Advance(initial, |records|)
      && sent == before + SealStream(initial, records)
      && AppRecords(records, MaxPayload())
      && (recordWriteBuf.currentHeader.Some? ==>
            recordWriteBuf.currentHeader.value == ApplicationDataRecord &&
            recordWriteBuf.pos <= recordWriteBuf.buffer.Length - TLS_RECORD_OVERHEAD)
    }

    /** Between calls an open record has room for at least one more byte. */
    ghost predicate Valid()
      reads this, recordWriteBuf, recordWriteBuf.buffer
    {
      Collecting() && (recordWriteBuf.currentHeader.Some? ==> !recordWriteBuf.IsFull())
    }

    /** All application bytes taken so far: sealed ones, then buffered ones. */
    ghost function Accepted(): seq<byte>
      requires recordWriteBuf.Valid()
      reads this, recordWriteBuf, recordWriteBuf.buffer
    {
      AppData(records) + recordWriteBuf.Payload()
    }

    constructor (buffer: array<byte>, keys: Keys, sent: seq<byte>)
      requires TLS_RECORD_OVERHEAD + 5 < buffer.Length && Lawful(keys.aead)
      ensures Valid() && Accepted() == [] && initial == keys && before == sent && records == [] && isOpen
      ensures fresh(recordWriteBuf) && recordWriteBuf.buffer == buffer
    {
      recordWriteBuf := new WriteBuffer(buffer);
      this.keys := keys;
      this.sent := sent;
      isOpen := true;
      initial := keys;
      before := sent;
      records := [];
    }

    /** The record that is being collected, sealed under the present counter. */
    ghost function PendingRecord(): seq<byte>
      requires recordWriteBuf.Valid()
      reads this, recordWriteBuf, recordWriteBuf.buffer
    {
      SealRecord(keys, Inner(recordWriteBuf.Payload(), APPLICATION_DATA))
    }

    /** The transport fails before it has taken the whole of the record being collected. */
    ghost predicate Fails(failsAfter: Option<nat>)
      requires recordWriteBuf.Valid()
      reads this, recordWriteBuf, recordWriteBuf.buffer
    {
      recordWriteBuf.currentHeader.Some? && failsAfter.Some? && failsAfter.value < |PendingRecord()|
    }

    /**
     Seals and sends what is buffered; application records always find the space
     they need. Where the transport fails on the way, the collected bytes are lost
     and the counter stays, so that the next record is sealed under it again.
     */
    method FlushOver(failsAfter: Option<nat>) returns (r: TlsResult<()>)
      requires Collecting() && keys.counter < U64_MAX
      modifies this`keys, this`sent, this`records, recordWriteBuf, recordWriteBuf.buffer
      ensures r.Ok? <==> !old(Fails(failsAfter))
      ensures r.Ok? ==>
                && Valid() && Accepted() == old(Accepted()) == AppData(records) && recordWriteBuf.currentHeader.None?
                && |records| == old(|records|) + (if old(recordWriteBuf.currentHeader).Some? then 1 else 0)
                && old(records) <= records && (old(recordWriteBuf.currentHeader).None? ==> keys == old(keys))
      ensures r.Err? ==>
                && r == Err(IoError) && keys == old(keys) && records == old(records)
                && sent == old(sent) + old(PendingRecord())[..failsAfter.value]
                && recordWriteBuf.Valid() && recordWriteBuf.currentHeader.None? && Accepted() == AppData(records)
    {
      hide SealRecord, SealStream, AppData, AppRecords, Lawful, HeaderBytes;
      if recordWriteBuf.pos != 0 {
        ghost var inner, kept := Inner(recordWriteBuf.Payload(), APPLICATION_DATA), records;
        assert |inner.data| <= MaxPayload();
        AppRecordsPush(records, inner, MaxPayload());
        var slice := recordWriteBuf.CloseRecord(keys);
        if failsAfter.Some? && failsAfter.value < |slice.value| {
          sent := sent + slice.value[..failsAfter.value];
          return Err(IoError);
        }
        AppDataPush(records, inner);
        PushRecord(initial, records, inner);
        SeqRegroup(before, SealStream(initial, records), slice.value);
        sent := sent + slice.value;
        keys := keys.(counter := keys.counter + 1);
        records := records + [inner];
      }
      return Ok(());
    }

    method Flush() returns (r: TlsResult<()>)
      requires Collecting() && keys.counter < U64_MAX
      modifies this`keys, this`sent, this`records, recordWriteBuf, recordWriteBuf.buffer
      ensures Valid() && r.Ok? && Accepted() == old(Accepted()) == AppData(records)
      ensures recordWriteBuf.currentHeader.None?
      ensures |records| == old(|records|) + if old(recordWriteBuf.currentHeader).Some? then 1 else 0
      ensures old(records) <= records && (old(recordWriteBuf.currentHeader).None? ==> keys == old(keys))
    {
      r := FlushOver(None);
    }

    /** Starts an application record unless one is being collected. */
    method StartApplicationRecord()
      requires Valid() && keys.counter < U64_MAX
      modifies this`keys, this`sent, this`records, recordWriteBuf, recordWriteBuf.buffer
      ensures Valid() && recordWriteBuf.currentHeader == Some(ApplicationDataRecord)
      ensures records == old(records) && keys == old(keys) && Accepted() == old(Accepted())
    {
      hide SealStream, AppData, AppRecords, Lawful, Advance;
      if recordWriteBuf.currentHeader != Some(ApplicationDataRecord) {
        var flushed := Flush();
        var started := recordWriteBuf.StartRecord(ApplicationDataRecord);
      }
    }

    /** Takes at least one byte of a non-empty write. */
    method Write(data: seq<byte>) returns (r: TlsResult<nat>)
      requires Valid() && keys.counter < U64_MAX
      modifies this`keys, this`sent, this`records, recordWriteBuf, recordWriteBuf.buffer
      ensures Valid()
      ensures !isOpen ==> r == Err(MissingHandshake) && Accepted() == old(Accepted())
      ensures isOpen ==> r.Ok? && r.value <= |data| && (data != [] ==> r.value > 0)
                         && Accepted() == old(Accepted()) + data[..r.value]
      ensures old(records) <= records && |records| <= old(|records|) + 1
      ensures keys.counter - old(keys.counter) == |records| - old(|records|)
    {
      if !isOpen {
        return Err(MissingHandshake);
      }
      hide SealStream, AppData, AppRecords, Lawful, HeaderBytes, Advance;
      ghost var accepted := Accepted();
      StartApplicationRecord();
      var buffered := recordWriteBuf.Append(data);
      assert Accepted() == accepted + data[..buffered];
      if recordWriteBuf.IsFull() {
        var flushed := Flush();
      }
      return Ok(buffered);
    }

    /** The default `write_all`: writes until everything is taken. */
    method WriteAll(data: seq<byte>) returns (r: TlsResult<()>)
      requires Valid() && keys.counter + |data| <= U64_MAX
      modifies this`keys, this`sent, this`records, recordWriteBuf, recordWriteBuf.buffer
      ensures Valid() && (r.Ok? <==> isOpen || data == [])
      ensures Accepted() == old(Accepted()) + if r.Ok? then data else []
      ensures old(records) <= records && |records| <= old(|records|) + |data|
    {
      hide SealStream, AppData, AppRecords, Lawful, Advance;
      var taken := 0;
      ghost var accepted, before := Accepted(), records;
      assert data[..0] == [] && accepted + [] == accepted;
      while taken < |data|
        invariant Valid() && 0 <= taken <= |data| && before <= records && |records| <= |before| + taken
        invariant keys.counter + |data| - taken <= U64_MAX && (taken > 0 ==> isOpen)
        invariant Accepted() == accepted + data[..taken]
      {
        var n := Write(data[taken..]);
        if n.Err? {
          return Err(n.error);
        }
        assert data[..taken + n.value] == data[..taken] + data[taken..][..n.value];
        SeqRegroup(accepted, data[..taken], data[taken..][..n.value]);
        taken := taken + n.value;
      }
      assert data[..taken] == data;
      return Ok(());
    }

    /** Flushes, then says goodbye: the last record is the close_notify alert. */
    method CloseInternal() returns (r: TlsResult<()>)
      requires Valid() && keys.counter + 1 < U64_MAX
      modifies this`keys, this`sent, this`records, recordWriteBuf, recordWriteBuf.buffer
      ensures r.Ok? && AppData(records) == old(Accepted())
      ensures isOpen ==> |records| > 0 && records[|records| - 1] == Inner([1, 0], 21)
                         && AppRecords(records[..|records| - 1], MaxPayload())
                         && sent == before + SealStream(initial, records)
      ensures !isOpen ==> sent == before + SealStream(initial, records) + [20, 3, 1, 0, 2, 1, 0]
      ensures keys == Advance(initial, |records| + if isOpen then 0 else 1)
      ensures old(records) <= records && |records| <= old(|records|) + 2
    {
      hide SealStream, AppData, SealRecord, HeaderBytes;
      var flushed := Flush();
      ghost var kept, inner := records, Inner(CLOSE_NOTIFY, ALERT);
      var slice := recordWriteBuf.WriteRecord(AlertRecord(isOpen), CLOSE_NOTIFY, keys);
      sent := sent + slice.value;
      keys := keys.(counter := keys.counter + 1);
      if isOpen {
        AppDataPush(kept, inner);
        PushRecord(initial, kept, inner);
        SeqRegroup(before, SealStream(initial, kept), slice.value);
        records := kept + [inner];
        assert records[..|records| - 1] == kept;
      } else {
        HeadersAre(false);
        assert slice.value == [20, 3, 1, 0, 2, 1, 0];
      }
      return Ok(());
    }
  }

  // ---------- whole runs ----------

  /** One call on an open connection, and the most records it may close. */
  method Perform(w: TlsWriter, call: Call) returns (n: nat)
    requires w.Valid() && w.isOpen
    requires w.keys.counter + (if call.WriteAll? then |call.data| else 1) <= U64_MAX
    modifies w`keys, w`sent, w`records, w.recordWriteBuf, w.recordWriteBuf.buffer
    ensures w.Valid() && MayTake(call, n) && w.Accepted() == old(w.Accepted()) + DataOf(call)[..n]
    ensures |w.records| <= old(|w.records|) + if call.WriteAll? then |call.data| else 1
  {
    hide SealStream, AppData, SealRecord, Lawful, RecordBytes;
    n := 0;
    match call {
      case Write(data) =>
        var taken := w.Write(data);
        n := taken.value;
      case WriteAll(data) =>
        var done := w.WriteAll(data);
        n := |data|;
        assert data[..n] == data;
      case Flush =>
        var flushed := w.Flush();
    }
  }

  /**
   Any sequence of write and flush calls ended by close: what is sent is a
   stream of sealed records under consecutive counters whose application bytes
   are the ones the calls took, closed by the alert.
   */
  method Session(buffer: array<byte>, keys: Keys, calls: seq<Call>)
    returns (sent: seq<byte>, ns: seq<nat>, ghost records: seq<Inner>)
    requires TLS_RECORD_OVERHEAD + 5 < buffer.Length && Lawful(keys.aead)
    requires keys.counter + Cost(calls) + 2 <= U64_MAX
    modifies buffer
    ensures sent == SealStream(keys, records) && MayAnswer(calls, ns) && AppData(records) == TakenOf(calls, ns)
    ensures 0 < |records| <= Cost(calls) + 2 && records[|records| - 1] == Inner([1, 0], 21)
    ensures AppRecords(records[..|records| - 1], buffer.Length - TLS_RECORD_OVERHEAD - 5)
  {
    hide SealStream, AppData, SealRecord, Lawful, RecordBytes, MayAnswer, TakenOf, Cost;
    var w := new TlsWriter(buffer, keys, []);
    ns := [];
    NothingTaken(calls);
    NoCost(calls);
    for i := 0 to |calls|
      invariant w.Valid() && fresh(w) && fresh(w.recordWriteBuf) && w.recordWriteBuf.buffer == buffer
      invariant w.isOpen && w.initial == keys && w.before == [] && |w.records| <= Cost(calls[..i])
      invariant |ns| == i && MayAnswer(calls[..i], ns) && w.Accepted() == TakenOf(calls[..i], ns)
    {
      CostNext(calls, i);
      CostGrows(calls, i + 1);
      var n := Perform(w, calls[i]);
      TakeNext(calls, ns, n);
      ns := ns + [n];
    }
    assert calls[..|calls|] == calls;
    var closed := w.CloseInternal();
    sent := w.sent;
    records := w.records;
    assert [] + SealStream(keys, records) == SealStream(keys, records);
  }

  /** The records of a stream are sealed under pairwise different nonces. */
  lemma NoncesDistinct(keys: Keys, i: nat, j: nat)
    requires keys.counter + j <= U64_MAX && i < j
    ensures Nonce(Advance(keys, i).iv, Advance(keys, i).counter) != Nonce(Advance(keys, j).iv, Advance(keys, j).counter)
  {
    if Nonce(keys.iv, keys.counter + i) == Nonce(keys.iv, keys.counter + j) {
      NonceInjective(keys.iv, keys.counter + i, keys.counter + j);
    }
  }
}
