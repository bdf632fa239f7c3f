/**
 The two halves of the record layer against each other: what a writer session
 sends, a reader with the same keys takes in again, whatever the fragments and
 however the caller reads.
 */
module TlsRoundTrip {
  import opened Bytes
  import opened TlsReading
  import opened TlsRecords
  import opened TlsWriting
  import opened Transport
  import opened Wrappers
  import opened WriteCalls

  /** Application records that fit the reader's buffer and a 16-bit length, then the goodbye. */
  ghost predicate Closing(records: seq<Inner>, capacity: nat) {
    && records != [] && records[|records| - 1] == Inner([1, 0], 21)
    && AppRecords(records[..|records| - 1], MaxSealed(capacity) - 1 - TAG_SIZE)
    && 2 + 1 + TAG_SIZE <= capacity
  }

  /** The longest sealed payload that fits both the buffer and a 16-bit length. */
  function MaxSealed(capacity: nat): nat {
    if capacity < 0xffff then capacity else 0xffff
  }

  function DropEmpty(records: seq<Inner>): seq<Inner> {
    if records == [] || records[0].data != [] then records else DropEmpty(records[1..])
  }

  lemma ClosingTail(records: seq<Inner>, capacity: nat)
    requires Closing(records, capacity) && |records| > 1
    ensures Closing(records[1..], capacity) && records[0].contentType == 23
    ensures records[0].contentType != 0 && |records[0].data| + 1 + TAG_SIZE <= MaxSealed(capacity)
  {
    var apps, tail := records[..|records| - 1], records[1..];
    assert apps[0] == records[0];
    assert tail[|tail| - 1] == records[|records| - 1];
    assert tail[..|tail| - 1] == apps[1..];
  }

  /** A sealed record at the head of the stream is parsed and opened to what was sealed. */
  lemma SealedRecordArrives(tickets: Tickets, keys: Keys, inner: Inner, rest: seq<byte>, capacity: nat)
    requires Lawful(keys.aead) && IsContentType(inner.contentType) && inner.contentType != 0
    requires |inner.data| + 1 + TAG_SIZE <= MaxSealed(capacity)
    ensures NextArrival(tickets, keys, SealRecord(keys, inner) + rest, capacity)
            == Arriving(Content(tickets, inner), Advance(keys, 1), rest)
  {
    hide Content, Unwrap, Nonce;
    var w := SealRecord(keys, inner) + rest;
    var header, cipher := Header(|inner.data| + 1 + TAG_SIZE), Ciphertext(keys, inner);
    HeaderLength(|inner.data| + 1 + TAG_SIZE);
    SealedParts(header, cipher, rest);
    assert ParseRecord(w, capacity) == Ok(Parsed(header, cipher, rest));
    UnwrapPadded(inner, 0);
    assert inner.data + [inner.contentType] + Zeros(0) == inner.data + [inner.contentType];
  }

  /** What a record carries on the wire: its ciphertext, or its payload in the clear. */
  function Carried(keys: Keys, header: ClientRecordHeader, payload: seq<byte>): seq<byte> {
    if IsEncrypted(header) then Ciphertext(keys, Inner(payload, TrailerContentType(header))) else payload
  }

  /**
   Any record the client writes is split off the stream again exactly if its length
   fits 16 bits and the reader's buffer.
   */
  lemma WrittenRecordParses(keys: Keys, header: ClientRecordHeader, payload: seq<byte>, rest: seq<byte>, capacity: nat)
    requires Lawful(keys.aead)
    ensures var carried := Carried(keys, header, payload);
            (ParseRecord(RecordBytes(keys, header, payload) + rest, capacity)
             == Ok(Parsed(HeaderBytes(header) + U16Bytes(|carried|), carried, rest)))
            <==> |carried| < 0x1_0000 && |carried| <= capacity
  {
    hide Nonce, ParseRecord;
    var carried := Carried(keys, header, payload);
    assert RecordBytes(keys, header, payload) == HeaderBytes(header) + U16Bytes(|carried|) + carried;
    CarriedParses(HeaderBytes(header), carried, rest, capacity);
  }

  lemma CarriedParses(start: seq<byte>, carried: seq<byte>, rest: seq<byte>, capacity: nat)
    requires |start| == 3 && IsContentType(start[0])
    ensures (ParseRecord(start + U16Bytes(|carried|) + carried + rest, capacity)
             == Ok(Parsed(start + U16Bytes(|carried|), carried, rest)))
            <==> |carried| < 0x1_0000 && |carried| <= capacity
  {
    var head := start + U16Bytes(|carried|);
    SealedParts(head, carried, rest);
    HeaderLength(|carried|);
    assert ContentLength(head) == ContentLength(Header(|carried|));
  }

  lemma SealedParts(header: seq<byte>, cipher: seq<byte>, rest: seq<byte>)
    requires |header| == 5
    ensures (header + cipher + rest)[..5] == header
    ensures (header + cipher + rest)[5..5 + |cipher|] == cipher
    ensures (header + cipher + rest)[5 + |cipher|..] == rest
  {}

  /** The next data of a sealed stream is that of its first record with any. */
  lemma {:induction false} StreamData(tickets: Tickets, keys: Keys, records: seq<Inner>, rest: seq<byte>, capacity: nat)
    requires Lawful(keys.aead) && Closing(records, capacity)
    ensures var full := DropEmpty(records);
            var n := |records| - |full|;
            n >= 0 && Closing(full, capacity) && AppData(full) == AppData(records) &&
            NextData(tickets, keys, SealStream(keys, records) + rest, capacity) ==
              if |full| == 1 then Err(ConnectionClosed)
              else Ok(Arrival(full[0].data, Advance(keys, n + 1), SealStream(Advance(keys, n + 1), full[1..]) + rest))
    ensures |DropEmpty(records)| > 1 ==>
            AppData(records) == DropEmpty(records)[0].data + AppData(DropEmpty(records)[1..])
                                         && DropEmpty(records)[0].data != []
    decreases |records|
  {
    hide NextArrival, SealRecord, Content, Nonce, Lawful, AppRecords;
    var first, tail := records[0], records[1..];
    var after := SealStream(Advance(keys, 1), tail) + rest;
    FirstRecord(keys, records);
    SeqRegroup(SealRecord(keys, first), SealStream(Advance(keys, 1), tail), rest);
    if |records| == 1 {
      assert first == Inner([1, 0], 21);
      SealedRecordArrives(tickets, keys, first, after, capacity);
      GoodbyeCloses(tickets);
    } else {
      ClosingTail(records, capacity);
      SealedRecordArrives(tickets, keys, first, after, capacity);
      AppDataFirst(records);
      DataDelivers(tickets, first);
      if first.data == [] {
        StreamData(tickets, Advance(keys, 1), tail, rest, capacity);
        assert forall k: nat :: Advance(Advance(keys, 1), k) == Advance(keys, k + 1);
      }
    }
  }

  lemma GoodbyeCloses(tickets: Tickets)
    ensures Content(tickets, Inner([1, 0], 21)) == Err(ConnectionClosed)
  {}

  lemma DataDelivers(tickets: Tickets, inner: Inner)
    requires inner.contentType == 23
    ensures Content(tickets, inner) == Ok(inner.data)
  {}

  lemma {:induction false} AppDataFirst(records: seq<Inner>)
    requires records != [] && records[0].contentType == 23
    ensures AppData(records) == records[0].data + AppData(records[1..])
  {
    var n := |records| - 1;
    if n == 0 {
      assert records[..0] == [] && records[1..] == [];
    } else {
      AppDataFirst(records[..n]);
      var mid := records[1..n];
      assert records[..n][1..] == mid && records[1..] == mid + [records[n]];
      AppDataPush(mid, records[n]);
    }
  }

  /** What a read draws on takes its bytes off the front of what the records still carry. */
  lemma Draw(unread: seq<byte>, tickets: Tickets, keys: Keys, records: seq<Inner>, rest: seq<byte>, capacity: nat)
    returns (next: seq<Inner>)
    requires Lawful(keys.aead) && Closing(records, capacity)
    ensures var a := Available(unread, tickets, keys, SealStream(keys, records) + rest, capacity);
            if a.Err? then a.error == ConnectionClosed && unread == AppData(records) == []
            else Closing(next, capacity) && unread + AppData(records) == a.value.data + AppData(next)
                 && a.value.rest == SealStream(a.value.keys, next) + rest && |next| <= |records|
                 && (next == records ==> a.value.data == unread) && (|next| == |records| ==> next == records)
  {
    hide SealStream, AppData, DropEmpty, Closing, Lawful, NextData;
    next := records;
    if unread == [] {
      StreamData(tickets, keys, records, rest, capacity);
      var full := DropEmpty(records);
      if |full| > 1 {
        next := full[1..];
        ClosingTail(full, capacity);
      } else {
        GoodbyeIsNoData(full, capacity);
      }
    }
  }

  lemma GoodbyeIsNoData(records: seq<Inner>, capacity: nat)
    requires Closing(records, capacity) && |records| <= 1
    ensures |records| == 1 && AppData(records) == []
  {}

  /** Reads until the connection ends, by copying or by borrowing, in portions of any size. */
  method Drain(r: TlsReader, ghost records: seq<Inner>, ghost rest: seq<byte>) returns (out: seq<byte>, error: TlsError)
    requires r.Valid() && r.isOpen && r.Unread() == []
    requires Closing(records, r.recordReader.buf.Length)
    requires r.transport.data == SealStream(r.keys, records) + rest
    modifies r`keys, r`isOpen, r`offset, r`len, r`consumed, r.recordReader, r.recordReader.buf, r.transport
    ensures out == AppData(records) && error == ConnectionClosed && !r.isOpen
  {
    hide SealStream, AppData, DropEmpty, Closing, Lawful, NextData, Available;
    out := [];
    ghost var left := records;
    while true
      invariant r.Valid() && r.isOpen && Closing(left, r.recordReader.buf.Length)
      invariant r.transport.data == SealStream(r.keys, left) + rest
      invariant AppData(records) == out + (r.Unread() + AppData(left))
      decreases |left|, |r.Unread()|
    {
      ghost var next := Draw(r.Unread(), r.tickets, r.keys, left, rest, r.recordReader.buf.Length);
      var size: nat :| size > 0;
      var borrowing: bool :| true;
      var got;
      if borrowing {
        got := r.FillBuf();
      } else {
        got := r.Read(size);
      }
      if got.Err? {
        return out, got.error;
      }
      var part := got.value;
      if borrowing {
        var portion := if size < |part| then size else |part|;
        part := part[..portion];
        ghost var shown := r.Unread();
        r.Consume(portion);
        assert shown == part + r.Unread();
      }
      SeqRegroup(part, r.Unread(), AppData(next));
      SeqRegroup(out, part, r.Unread() + AppData(next));
      out := out + part;
      left := next;
    }
  }

  /**
   Any sequence of writes and flushes, any reader buffer the records fit in, any
   fragmentation: the reader gets exactly the bytes the calls took, then the end.
   */
  method Transfer(out: array<byte>, inBuf: array<byte>, keys: Keys, tickets: Tickets, calls: seq<Call>, rest: seq<byte>)
    returns (ns: seq<nat>, received: seq<byte>, error: TlsError)
    requires TLS_RECORD_OVERHEAD + 5 < out.Length && Lawful(keys.aead) && keys.counter + Cost(calls) + 2 <= U64_MAX
    requires 2 + 1 + TAG_SIZE <= inBuf.Length
    requires out.Length - TLS_RECORD_OVERHEAD - 5 + 1 + TAG_SIZE <= MaxSealed(inBuf.Length)
    requires out != inBuf
    modifies out, inBuf
    ensures MayAnswer(calls, ns) && received == TakenOf(calls, ns) && error == ConnectionClosed
  {
    hide SealStream, AppData, Lawful, MayAnswer, TakenOf, Cost;
    var sent;
    ghost var records;
    sent, ns, records := Session(out, keys, calls);
    var source := new Source(sent + rest);
    var reader := new TlsReader(inBuf, source, keys, tickets);
    received, error := Drain(reader, records, rest);
  }
}
