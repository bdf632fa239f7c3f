/**
 What a client makes of the server's records while it shakes hands: the byte
 stream cut into records, records opened under the counter of their place, and
 the handshake messages coalesced in them told apart.
 */
module TlsServerRecords {
  import opened Bytes
  import opened TlsCompleting
  import opened TlsHandshake
  import opened TlsKeySchedule
  import TlsReading
  import opened TlsRecords
  import opened Wrappers

  // ---------- messages ----------

  predicate IsHandshakeType(kind: byte) {
    kind in {1, 2, 4, 5, 8, 11, 13, 15, 20, 24, 254}
  }

  /**
   How many bytes the handshake message at the front takes. Its length field is
   read but its body ends where parsing it ends; that of a Finished is as long
   as a hash.
   */
  function MessageAt(p: Provider, s: Suite, data: seq<byte>): (r: TlsResult<nat>)
    ensures r.Ok? ==> 4 <= r.value <= |data|
  {
    if |data| < 4 || !IsHandshakeType(data[0]) then Err(InvalidHandshake)
    else if data[0] !in {2, 4, 8, 11, 13, 15, 20} then Err(Unimplemented)
    else if data[0] == 20 then if |data| < 4 + s.hashLen then Err(ParseError) else Ok(4 + s.hashLen)
    else
      var body := p.parse(data[0], data[4..]);
      if body.Err? then Err(body.error)
      else if 4 + body.value > |data| then Err(ParseError)
      else Ok(4 + body.value)
  }

  /** The messages one after the other, and why parsing stopped before the end of the data. */
  datatype Coalesced = Coalesced(messages: seq<Message>, stop: Option<TlsError>)

  function Coalesce(p: Provider, s: Suite, data: seq<byte>): Coalesced
    decreases |data|
  {
    if data == [] then Coalesced([], None)
    else
      match MessageAt(p, s, data)
      case Err(e) => Coalesced([], Some(e))
      case Ok(n) =>
        var later := Coalesce(p, s, data[n..]);
        later.(messages := [data[..n]] + later.messages)
  }

  /** Parsing the message ends with it, whatever follows. */
  ghost predicate Whole(p: Provider, s: Suite, m: Message) {
    forall rest :: MessageAt(p, s, m + rest) == Ok(|m|)
  }

  /** Parsing tells apart again what was put together, and goes on behind it. */
  lemma {:induction false} CoalesceJoined(p: Provider, s: Suite, ms: seq<Message>, more: seq<byte>)
    requires forall i :: 0 <= i < |ms| ==> Whole(p, s, ms[i])
    ensures var behind := Coalesce(p, s, more);
            Coalesce(p, s, Joined(ms) + more) == Coalesced(ms + behind.messages, behind.stop)
    decreases |ms|
  {
    hide MessageAt;
    var behind := Coalesce(p, s, more);
    if ms == [] {
      assert Joined(ms) + more == more && ms + behind.messages == behind.messages;
    } else {
      var tail := ms[1..];
      CoalesceJoined(p, s, tail, more);
      JoinedFirst(ms);
      SeqRegroup(ms[0], Joined(tail), more);
      var data := ms[0] + (Joined(tail) + more);
      assert data[..|ms[0]|] == ms[0] && data[|ms[0]|..] == Joined(tail) + more;
      assert [ms[0]] + (tail + behind.messages) == ms + behind.messages;
      assert Whole(p, s, ms[0]);
    }
  }

  lemma JoinedFirst(ms: seq<Message>)
    requires ms != []
    ensures Joined(ms) == ms[0] + Joined(ms[1..])
  {
    assert ms == [ms[0]] + ms[1..] && [] + [ms[0]] == [ms[0]];
    JoinedPush([], ms[0]);
    assert Joined([]) + ms[0] == ms[0];
    JoinedConcat([ms[0]], ms[1..]);
  }

  // ---------- records ----------

  type RawHeader = h: seq<byte> | |h| == 5 witness [0, 0, 0, 0, 0]

  datatype Raw = Raw(header: RawHeader, payload: seq<byte>)

  /** The records of a byte stream, as far as they can be read into the buffer. */
  function Raws(w: seq<byte>, capacity: nat): seq<Raw>
    decreases |w|
  {
    match TlsReading.ParseRecord(w, capacity)
    case Err(_) => []
    case Ok(parsed) => [Raw(parsed.header, parsed.payload)] + Raws(parsed.rest, capacity)
  }

  function Flat(raws: seq<Raw>): seq<byte> {
    if raws == [] then []
    else Flat(raws[..|raws| - 1]) + raws[|raws| - 1].header + raws[|raws| - 1].payload
  }

  lemma FlatPush(raws: seq<Raw>, raw: Raw)
    ensures Flat(raws + [raw]) == Flat(raws) + raw.header + raw.payload
  {
    assert (raws + [raw])[..|raws|] == raws;
  }

  predicate IsSealed(raw: Raw) {
    raw.header[0] == 23
  }

  /** How many of the records are encrypted. */
  function Sealed(raws: seq<Raw>): nat {
    if raws == [] then 0
    else Sealed(raws[..|raws| - 1]) + if IsSealed(raws[|raws| - 1]) then 1 else 0
  }

  lemma SealedPush(raws: seq<Raw>, raw: Raw)
    ensures Sealed(raws + [raw]) == Sealed(raws) + if IsSealed(raw) then 1 else 0
  {
    assert (raws + [raw])[..|raws|] == raws;
  }

  lemma {:induction false} SealedFirst(raw: Raw, raws: seq<Raw>)
    ensures Sealed([raw] + raws) == (if IsSealed(raw) then 1 else 0) + Sealed(raws)
  {
    if raws == [] {
      SealedPush([], raw);
      assert [raw] + raws == [] + [raw];
    } else {
      var n := |raws| - 1;
      SealedFirst(raw, raws[..n]);
      assert [raw] + raws == ([raw] + raws[..n]) + [raws[n]];
      SealedPush([raw] + raws[..n], raws[n]);
    }
  }

  /** A record as it is before anything is opened; only its first message is read. */
  function Clear(p: Provider, s: Suite, raw: Raw): Record {
    var kind := raw.header[0];
    if kind == 20 then ChangeCipherSpec
    else if kind == 21 then
      var fault := TlsReading.AlertFault(raw.payload);
      if fault.Some? then Unreadable(fault.value) else AlertReceived
    else if kind == 22 then
      var n := MessageAt(p, s, raw.payload);
      if n.Err? then Unreadable(n.error) else PlainHandshake(raw.payload[..n.value])
    else if kind == 23 then Unreadable(InvalidRecord)
    else Unreadable(Unimplemented)
  }

  /** What an opened record holds for the handshake. */
  function Inside(p: Provider, s: Suite, inner: Inner): Record {
    if inner.contentType == 22 then
      var c := Coalesce(p, s, inner.data);
      Encrypted(c.messages, c.stop)
    else if inner.contentType == 23 then Unreadable(InvalidRecord)
    else if inner.contentType == 21 then
      var fault := TlsReading.AlertFault(inner.data);
      Unreadable(if fault.Some? then fault.value else InvalidRecord)
    else Unreadable(Unimplemented)
  }

  function Unseal(p: Provider, s: Suite, keys: Keys, raw: Raw): Record {
    match TlsReading.Opened(keys, raw.header, raw.payload)
    case Err(e) => Unreadable(e)
    case Ok(inner) => Inside(p, s, inner)
  }

  function Taken(p: Provider, s: Suite, keys: Keys, raw: Raw): Record {
    if IsSealed(raw) then Unseal(p, s, keys, raw) else Clear(p, s, raw)
  }

  /** Every record opened under the counter that the encrypted ones before it make up. */
  function TakenAll(p: Provider, s: Suite, keys: Keys, raws: seq<Raw>): (records: seq<Record>)
    ensures |records| == |raws|
    ensures forall i :: 0 <= i < |raws| ==> records[i] == Taken(p, s, Advance(keys, Sealed(raws[..i])), raws[i])
  {
    seq(|raws|, i requires 0 <= i < |raws| => Taken(p, s, Advance(keys, Sealed(raws[..i])), raws[i]))
  }

  lemma NoneTaken(p: Provider, s: Suite, keys: Keys)
    ensures TakenAll(p, s, keys, []) == [] && Sealed([]) == 0
  {}

  lemma TakenPush(p: Provider, s: Suite, keys: Keys, raws: seq<Raw>, raw: Raw)
    ensures TakenAll(p, s, keys, raws + [raw])
            == TakenAll(p, s, keys, raws) + [Taken(p, s, Advance(keys, Sealed(raws)), raw)]
  {
    hide Taken, Sealed;
    var longer := raws + [raw];
    assert longer[..|raws|] == raws;
    assert forall i :: 0 <= i < |raws| ==> longer[..i] == raws[..i] && longer[i] == raws[i];
  }

  lemma TakenFirst(p: Provider, s: Suite, keys: Keys, raw: Raw, raws: seq<Raw>)
    ensures TakenAll(p, s, keys, [raw] + raws)
            == [Taken(p, s, keys, raw)] + TakenAll(p, s, Advance(keys, if IsSealed(raw) then 1 else 0), raws)
  {
    hide Taken, Sealed, IsSealed;
    var all, step := [raw] + raws, if IsSealed(raw) then 1 else 0;
    var records, later := TakenAll(p, s, keys, all), TakenAll(p, s, Advance(keys, step), raws);
    assert all[..0] == [] && all[0] == raw;
    NoneTaken(p, s, keys);
    assert Advance(keys, 0) == keys;
    forall i | 1 <= i < |all|
      ensures records[i] == later[i - 1]
    {
      assert all[..i] == [raw] + raws[..i - 1] && all[i] == raws[i - 1];
      SealedFirst(raw, raws[..i - 1]);
      assert Advance(keys, Sealed(all[..i])) == Advance(Advance(keys, step), Sealed(raws[..i - 1]));
    }
    assert records[0] == Taken(p, s, keys, raw);
  }

  lemma NoFlight(p: Provider, s: Suite, serverSecret: seq<byte>, capacity: nat, v: Verification, keys: Keys)
    ensures !FlightCompletes(p, s, serverSecret, capacity, v, TakenAll(p, s, keys, []))
  {}

  /** Completing the flight, one record at a time. */
  lemma FlightStep(p: Provider, s: Suite, serverSecret: seq<byte>, capacity: nat, v: Verification, keys: Keys,
                   raw: Raw, raws: seq<Raw>)
    ensures var took := Taken(p, s, keys, raw);
            var w := StepMessages(p, s, serverSecret, v, MessagesIn(took));
            FlightCompletes(p, s, serverSecret, capacity, v, TakenAll(p, s, keys, [raw] + raws))
            <==> Receivable(took) && w.Ok? &&
                 if w.value.finish.None?
                 then FlightCompletes(p, s, serverSecret, capacity, w.value,
                                      TakenAll(p, s, Advance(keys, if IsSealed(raw) then 1 else 0), raws))
                 else Replies(p, s, capacity, w.value.next == ClientCert, w.value.certificateRequest,
                              w.value.transcript)
  {
    hide Taken, StepMessages, Replies, TakenAll;
    TakenFirst(p, s, keys, raw, raws);
    var took, later := Taken(p, s, keys, raw), TakenAll(p, s, Advance(keys, if IsSealed(raw) then 1 else 0), raws);
    assert ([took] + later)[1..] == later;
  }

  // ---------- what the kinds of records and messages come to ----------

  /** A Finished ends where a hash does, whatever length it states. */
  lemma FinishedIsWhole(p: Provider, s: Suite, length: seq<byte>, verify: seq<byte>)
    requires |length| == 3 && |verify| == s.hashLen
    ensures Whole(p, s, [20] + length + verify)
  {
    assert forall rest :: ([20] + length + verify + rest)[0] == 20;
  }

  /**
   A message nobody knows, one a client does not get and one that is cut off stop the
   parsing; the messages before them count.
   */
  lemma StopsAt(p: Provider, s: Suite, ms: seq<Message>, kind: byte, more: seq<byte>)
    requires forall i :: 0 <= i < |ms| ==> Whole(p, s, ms[i])
    requires |more| < 3 || kind !in {2, 4, 8, 11, 13, 15, 20}
    ensures var error := if |more| < 3 || kind !in {1, 5, 24, 254} then InvalidHandshake else Unimplemented;
            Coalesce(p, s, Joined(ms) + ([kind] + more)) == Coalesced(ms, Some(error))
  {
    CoalesceJoined(p, s, ms, [kind] + more);
    assert ms + [] == ms;
  }

  /** Records in the clear: middlebox records, alerts, encrypted ones out of place, and unknown ones. */
  lemma ClearKinds(p: Provider, s: Suite, raw: Raw)
    ensures raw.header[0] == 20 ==> Clear(p, s, raw) == ChangeCipherSpec
    ensures raw.header[0] == 21 && raw.payload == [2, 40] ==> Clear(p, s, raw) == AlertReceived
    ensures raw.header[0] == 21 && |raw.payload| < 2 ==> Clear(p, s, raw) == Unreadable(ParseError)
    ensures raw.header[0] == 21 && raw.payload == [3, 40] ==> Clear(p, s, raw) == Unreadable(DecodeError)
    ensures raw.header[0] == 23 ==> Clear(p, s, raw) == Unreadable(InvalidRecord)
    ensures raw.header[0] == 0 ==> Clear(p, s, raw) == Unreadable(Unimplemented)
  {}

  /** Nothing but handshake messages has a place in an encrypted record before the handshake is over. */
  lemma InsideKinds(p: Provider, s: Suite, inner: Inner)
    ensures inner.contentType != 22 ==> Inside(p, s, inner).Unreadable?
    ensures inner.contentType == 23 ==> Inside(p, s, inner) == Unreadable(InvalidRecord)
    ensures inner.contentType == 21 && inner.data == [1, 0] ==> Inside(p, s, inner) == Unreadable(InvalidRecord)
    ensures inner.contentType == 21 && |inner.data| < 2 ==> Inside(p, s, inner) == Unreadable(ParseError)
    ensures inner.contentType in {0, 20} ==> Inside(p, s, inner) == Unreadable(Unimplemented)
  {}

  // ---------- a whole handshake's records ----------

  /** The server's handshake keys. */
  function ServerKeys(p: Provider, s: Suite, config: Config, aead: Aead, hello: Record): Keys
    requires BindersLength(config, s) + 2 <= |config.hello| && IsServerHello(p, config, hello) && LawfulSuite(s)
  {
    var t := TrafficOf(s, ServerSecret(p, s, config, hello));
    Keys(aead, t.key, t.iv, 0)
  }

  /** The server's hello, and what follows it opened with the keys it leads to. */
  function Heard(p: Provider, s: Suite, config: Config, aead: Aead, raws: seq<Raw>): seq<Record>
    requires BindersLength(config, s) + 2 <= |config.hello| && LawfulSuite(s)
  {
    if raws == [] then []
    else
      var hello := Clear(p, s, raws[0]);
      [hello] + if !IsServerHello(p, config, hello) then []
                else TakenAll(p, s, ServerKeys(p, s, config, aead, hello), raws[1..])
  }
}
