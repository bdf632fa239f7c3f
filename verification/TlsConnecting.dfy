/**
 The client's connection object and the steps of its handshake. `At(state)` is
 what holds between steps; at `ApplicationData` it says which transcripts the
 application secrets and the client's Finished cover.
 */
module TlsConnecting {
  import opened Bytes
  import opened TlsCertificate
  import opened TlsCompleting
  import opened TlsHandshake
  import opened TlsKeySchedule
  import opened TlsRecords
  import opened TlsServerRecords
  import opened TlsVerifying
  import opened TlsWriting
  import opened Transport
  import opened Wrappers

  function TrafficKeys(aead: Aead, t: Traffic): Keys
    requires |t.iv| == IV_LEN
  {
    Keys(aead, t.key, t.iv, t.counter)
  }

  function Rank(state: State): nat {
    match state
    case ClientHello => 6
    case ServerHello => 5
    case ServerVerify => 4
    case ClientCert => 3
    case ClientCertVerify => 2
    case ClientFinished => 1
    case ApplicationData => 0
  }

  /**
   The server's messages after its hello: all of them, those in the record of the
   Finished, and what followed it there.
   */
  datatype ServerFlight = ServerFlight(flight: seq<Message>, lastRecord: seq<Message>, finish: Finish, after: seq<byte>,
                                       asked: bool)   // whether the client answers a certificate request

  /** The records taken so far: the one with the server's hello and those that carry its flight. */
  ghost predicate Received(seen: seq<Record>, serverHello: Message, flight: seq<Message>) {
    seen != [] && seen[0] == PlainHandshake(serverHello) && flight == MessagesOf(seen[1..])
  }

  /** The last record taken is the first one with a Finished in it. */
  ghost predicate EndedBy(seen: seq<Record>, lastRecord: seq<Message>) {
    |seen| > 1 && lastRecord == MessagesIn(seen[|seen| - 1]) && NoFinished(MessagesOf(seen[1..|seen| - 1]))
  }

  class Connection {
    const schedule: KeySchedule
    const tx: WriteBuffer
    const aead: Aead
    const config: Config
    const provider: Provider
    const transport: Source
    const reader: TlsReading.RecordReader
    const verifier: CertVerifier?
    var sent: seq<byte>
    var secret: Option<seq<byte>>
    var trafficHash: Option<seq<byte>>
    var certificateRequest: Option<seq<byte>>

    ghost var taken: seq<Raw>         // the records read so far, as they came
    ghost var seen: seq<Record>       // and as they were understood
    ghost var serverHello: Message
    ghost var dhe: seq<byte>
    ghost var run: ServerFlight
    ghost var own: seq<Message>       // the client's messages under the handshake keys

    // ---------- derived values ----------

    ghost function Greeting(): seq<byte>
      requires BindersLength(config, schedule.suite) + 2 <= |config.hello|
      reads this
    {
      FinalHello(config, schedule.suite) + serverHello
    }

    /** The record sent before there were keys. */
    ghost function Opening(): seq<byte>
      requires BindersLength(config, schedule.suite) + 2 <= |config.hello|
    {
      var hello := FinalHello(config, schedule.suite);
      [22, 3, 1] + U16Bytes(|hello|) + hello
    }

    ghost function Traffic0(name: string): Traffic
      requires BindersLength(config, schedule.suite) + 2 <= |config.hello|
      reads this
    {
      var s := schedule.suite;
      TrafficOf(s, DeriveSecret(s, HandshakeSecret(s, PskKey(config), dhe), name, Greeting()))
    }

    /** ClientHello up to and including the server Finished. */
    ghost function ToFinished(): seq<byte>
      reads this
    {
      run.finish.before + run.finish.message
    }

    /** What the application secrets are derived from. */
    ghost function Snapshot(): seq<byte>
      reads this
    {
      ToFinished() + if run.asked then run.after else []
    }

    ghost function ServerTrafficSecret(): seq<byte>
      requires BindersLength(config, schedule.suite) + 2 <= |config.hello|
      reads this
    {
      Traffic0("s hs traffic").secret.value
    }

    /** What the verifier holds. */
    ghost function ShownNow(): Shown
      reads verifier
    {
      if verifier == null then Shown(None, None) else verifier.State()
    }

    /** The state that the server's next message acts on. */
    ghost function Now(): Verification
      reads this, schedule, verifier
    {
      Verification(schedule.transcript, trafficHash, certificateRequest, ShownNow(), ServerVerify, None)
    }

    /** The server's keys before its first encrypted record. */
    ghost function FirstKeys(): Keys
      requires BindersLength(config, schedule.suite) + 2 <= |config.hello| && LawfulSuite(schedule.suite)
      reads this
    {
      TrafficKeys(aead, Traffic0("s hs traffic"))
    }

    /** What the stream still holds, cut into records. */
    ghost function Ahead(): seq<Raw>
      reads transport
    {
      Raws(transport.data, reader.buf.Length)
    }

    // ---------- what holds between steps ----------

    ghost predicate Base()
      reads this, schedule, tx, tx.buffer, reader
    {
      && reader.Valid() && reader.pending == 0 && reader.buf != tx.buffer
      && LawfulSuite(schedule.suite) && Lawful(aead) && tx.Valid() && tx.currentHeader.None?
      && |schedule.client.iv| == IV_LEN && BindersLength(config, schedule.suite) + 2 <= |config.hello|
      && provider.judge == (if verifier == null then None else Some(verifier.judge))
      && (verifier != null ==> verifier.suite == schedule.suite)
    }

    /**
     Handshake keys in force: record i of the client's encrypted messages was sealed
     under counter i, and the server's next one is to be opened under `counter`.
     */
    ghost predicate KeyedAt(counter: nat)
      requires BindersLength(config, schedule.suite) + 2 <= |config.hello| && LawfulSuite(schedule.suite)
      reads this, schedule
    {
      && schedule.sharedSecret
         == DeriveSecret(schedule.suite, HandshakeSecret(schedule.suite, PskKey(config), dhe), "derived", [])
      && schedule.client == Traffic0("c hs traffic").(counter := |own|)
      && serverHello[0] == SERVER_HELLO && provider.sharedSecret(config.secret, serverHello) == Some(dhe)
      && secret == None && schedule.server.secret.Some?
      && schedule.server == Traffic0("s hs traffic").(counter := counter)
      && sent == Opening() + SealStream(TrafficKeys(aead, Traffic0("c hs traffic")), AsRecords(own))
    }

    /** Every record after the hello was opened under the number of encrypted ones before it. */
    ghost predicate Accounted()
      requires BindersLength(config, schedule.suite) + 2 <= |config.hello| && LawfulSuite(schedule.suite)
      reads this
    {
      && taken != [] && Clear(provider, schedule.suite, taken[0]) == PlainHandshake(serverHello)
      && seen == [PlainHandshake(serverHello)] + TakenAll(provider, schedule.suite, FirstKeys(), taken[1..])
    }

    /** The counter stands at the number of encrypted records taken, and the flight they carry is good. */
    ghost predicate HandshakeKeys()
      requires BindersLength(config, schedule.suite) + 2 <= |config.hello| && LawfulSuite(schedule.suite)
      reads this, schedule
    {
      && Accounted() && KeyedAt(Sealed(taken[1..])) && Received(seen, serverHello, run.flight)
      && GoodFlight(provider, schedule.suite, ServerTrafficSecret(), run.flight, Greeting())
    }

    ghost predicate Finished()
      requires BindersLength(config, schedule.suite) + 2 <= |config.hello|
      reads this
    {
      && Verified(schedule.suite, Traffic0("s hs traffic").secret.value, Greeting(),
                  run.flight, run.lastRecord, run.finish, run.after, run.asked)
      && EndedBy(seen, run.lastRecord) && certificateRequest == LastRequest(run.flight)
    }

    ghost predicate Answer(messages: seq<Message>)
      reads this
    {
      Answers(provider, schedule.suite, run.asked, certificateRequest, ToFinished() + run.after, messages)
    }

    /** The outcome of a completed handshake. */
    ghost predicate Done()
      requires BindersLength(config, schedule.suite) + 2 <= |config.hello| && LawfulSuite(schedule.suite)
      reads this, schedule
    {
      var s := schedule.suite;
      var master := MasterSecret(s, PskKey(config), dhe);
      && Finished() && Accounted() && Received(seen, serverHello, run.flight)
      && GoodFlight(provider, s, ServerTrafficSecret(), run.flight, Greeting())
      && serverHello[0] == SERVER_HELLO && provider.sharedSecret(config.secret, serverHello) == Some(dhe)
      && schedule.client == TrafficOf(s, DeriveSecret(s, master, "c ap traffic", Snapshot()))
      && schedule.server == TrafficOf(s, DeriveSecret(s, master, "s ap traffic", Snapshot()))
      && |own| > 0 && Answer(own[..|own| - 1]) && trafficHash == None
      && own[|own| - 1] == FinishedMessage(s, Traffic0("c hs traffic").secret.value,
                                           ToFinished() + run.after + Joined(own[..|own| - 1]))
      && sent == Opening() + SealStream(TrafficKeys(aead, Traffic0("c hs traffic")), AsRecords(own))
    }

    ghost predicate AtClientHello()
      reads this, schedule, verifier
    {
      && schedule.sharedSecret == Zeros(schedule.suite.hashLen)
      && schedule.transcript == [] && sent == [] && taken == []
      && certificateRequest == None && trafficHash == None && ShownNow() == Shown(None, None)
    }

    ghost predicate AtServerHello()
      requires BindersLength(config, schedule.suite) + 2 <= |config.hello|
      reads this, schedule, verifier
    {
      && schedule.sharedSecret
         == DeriveSecret(schedule.suite, EarlySecret(schedule.suite, PskKey(config)), "derived", [])
      && schedule.transcript == FinalHello(config, schedule.suite) && secret == Some(config.secret)
      && sent == Opening() && taken == []
      && certificateRequest == None && trafficHash == None && ShownNow() == Shown(None, None)
    }

    ghost predicate AtServerVerify()
      requires BindersLength(config, schedule.suite) + 2 <= |config.hello| && LawfulSuite(schedule.suite)
      reads this, schedule, verifier
    {
      && HandshakeKeys() && own == []
      && History(provider, schedule.suite, ServerTrafficSecret(), Now(), run.flight, Greeting())
    }

    ghost predicate AtClientCert()
      requires BindersLength(config, schedule.suite) + 2 <= |config.hello| && LawfulSuite(schedule.suite)
      reads this, schedule
    {
      && HandshakeKeys() && own == [] && Finished() && run.asked && certificateRequest.Some?
      && schedule.transcript == ToFinished() + run.after
    }

    ghost predicate AtClientCertVerify()
      requires BindersLength(config, schedule.suite) + 2 <= |config.hello| && LawfulSuite(schedule.suite)
      reads this, schedule
    {
      && HandshakeKeys() && Finished() && run.asked && certificateRequest.Some? && provider.clientCert.Some?
      && own == [CertificateMessage(certificateRequest.value, provider.clientCert)]
      && trafficHash == Some(Snapshot()) && schedule.transcript == ToFinished() + run.after + own[0]
    }

    ghost predicate AtClientFinished()
      requires BindersLength(config, schedule.suite) + 2 <= |config.hello| && LawfulSuite(schedule.suite)
      reads this, schedule
    {
      && HandshakeKeys() && Finished() && Answer(own)
      && trafficHash == Some(Snapshot()) && schedule.transcript == ToFinished() + run.after + Joined(own)
    }

    ghost predicate At(state: State)
      reads this, schedule, tx, tx.buffer, verifier, reader
    {
      Base() &&
      match state
      case ClientHello => AtClientHello()
      case ServerHello => AtServerHello()
      case ServerVerify => AtServerVerify()
      case ClientCert => AtClientCert()
      case ClientCertVerify => AtClientCertVerify()
      case ClientFinished => AtClientFinished()
      case ApplicationData => Done()
    }

    lemma HelloHasRoom(state: State)
      requires At(state)
      ensures BindersLength(config, schedule.suite) + 2 <= |config.hello| && LawfulSuite(schedule.suite)
    {}

    lemma NothingTaken()
      requires At(ServerHello)
      ensures taken == [] && Flat(taken) == []
    {}

    // ---------- what it takes to complete ----------

    /** The server's flight completes on these records. */
    ghost predicate FlightAhead(raws: seq<Raw>)
      requires BindersLength(config, schedule.suite) + 2 <= |config.hello| && LawfulSuite(schedule.suite)
      reads this, schedule, verifier
    {
      FlightCompletes(provider, schedule.suite, ServerTrafficSecret(), tx.buffer.Length, Now(),
                      TakenAll(provider, schedule.suite, FirstKeys().(counter := schedule.server.counter), raws))
    }

    lemma NothingAhead()
      requires BindersLength(config, schedule.suite) + 2 <= |config.hello| && LawfulSuite(schedule.suite)
      ensures !FlightAhead([])
    {
      NoFlight(provider, schedule.suite, ServerTrafficSecret(), tx.buffer.Length, Now(),
               FirstKeys().(counter := schedule.server.counter));
    }

    /** From here the handshake completes on what the stream still holds. */
    ghost predicate CanComplete(state: State)
      requires BindersLength(config, schedule.suite) + 2 <= |config.hello| && LawfulSuite(schedule.suite)
      reads this, schedule, verifier, transport
    {
      var s, capacity := schedule.suite, tx.buffer.Length;
      match state
      case ClientHello =>
        && HEADER_SIZE + |FinalHello(config, s)| <= capacity
        && HelloCompletes(provider, s, config, capacity, Heard(provider, s, config, aead, Ahead()))
      case ServerHello => HelloCompletes(provider, s, config, capacity, Heard(provider, s, config, aead, Ahead()))
      case ServerVerify => FlightAhead(Ahead())
      case ClientCert => Replies(provider, s, capacity, true, certificateRequest, schedule.transcript)
      case ClientCertVerify => SignatureFits(provider, s, capacity, schedule.transcript) && FinishedFits(s, capacity)
      case ClientFinished => FinishedFits(s, capacity)
      case ApplicationData => true
    }

    constructor (suite: Suite, aead: Aead, buffer: array<byte>, config: Config, provider: Provider,
                 transport: Source, readBuffer: array<byte>)
      requires LawfulSuite(suite) && Lawful(aead) && BindersLength(config, suite) + 2 <= |config.hello|
      requires buffer != readBuffer
      ensures At(ClientHello) && taken == [] && fresh(schedule) && fresh(tx) && tx.buffer == buffer && sent == []
      ensures schedule.suite == suite && this.aead == aead && this.config == config && this.provider == provider
      ensures this.transport == transport && fresh(reader) && reader.buf == readBuffer
      ensures (verifier != null ==> fresh(verifier))
    {
      if provider.judge.Some? {
        verifier := new CertVerifier(provider.judge.value, suite);
      } else {
        verifier := null;
      }
      schedule := new KeySchedule(suite);
      tx := new WriteBuffer(buffer);
      this.aead := aead;
      this.config := config;
      this.provider := provider;
      this.transport := transport;
      reader := new TlsReading.RecordReader(readBuffer);
      sent := [];
      secret, trafficHash, certificateRequest := None, None, None;
      taken := [];
    }

    // ---------- sending ----------

    /** Puts a record on the transport; every record advances the counter. */
    method Respond(slice: seq<byte>)
      modifies this`sent, schedule`client
      ensures sent == old(sent) + slice
      ensures schedule.client == old(schedule.client).(counter := old(schedule.client.counter) + 1)
    {
      sent := sent + slice;
      schedule.client := schedule.client.(counter := schedule.client.counter + 1);
    }

    /** An encrypted handshake message: into the transcript and, sealed, onto the transport. */
    method SendHandshake(m: Message) returns (r: TlsResult<()>)
      requires Base() && HandshakeKeys()
      modifies this`sent, this`own, schedule`client, schedule`transcript, tx`pos, tx`currentHeader, tx.buffer
      ensures r.Ok? <==> FitsSealed(tx.buffer.Length, m)
      ensures r.Ok? ==> Base() && HandshakeKeys() && own == old(own) + [m]
                        && schedule.transcript == old(schedule.transcript) + m
    {
      hide Lawful, LawfulSuite, SealStream, SealRecord, ExpandLabel, DeriveSecret, HandshakeSecret, FinalHello;
      hide TakenAll, Clear, Sealed, Received, GoodFlight;
      ghost var keys0, before := TrafficKeys(aead, Traffic0("c hs traffic")), sent;
      var slice := tx.WriteRecord(HandshakeRecord(true), m, TrafficKeys(aead, schedule.client));
      if slice.Err? {
        return Err(slice.error);
      }
      schedule.transcript := schedule.transcript + m;
      Respond(slice.value);
      assert AsRecords(own + [m]) == AsRecords(own) + [Inner(m, HANDSHAKE)];
      PushRecord(keys0, AsRecords(own), Inner(m, HANDSHAKE));
      SeqRegroup(Opening(), SealStream(keys0, AsRecords(own)), slice.value);
      own := own + [m];
      return Ok(());
    }

    /** A plaintext alert goes out when the handshake is aborted on this side. */
    method HandleProcessingError(result: TlsResult<State>) returns (r: TlsResult<State>)
      requires Base()
      modifies this`sent, schedule`client, tx`pos, tx`currentHeader, tx.buffer
      ensures result.Ok? ==>
              r == result && unchanged(this) && unchanged(schedule) && unchanged(tx) && unchanged(tx.buffer)
      ensures result.Err? ==> r.Err?
      ensures result.Err? && !result.error.AbortHandshake? ==> r == result && sent == old(sent)
      ensures result.Err? && result.error.AbortHandshake? ==>
                if HEADER_SIZE + 2 > tx.buffer.Length then sent == old(sent)
                else r == result && sent == old(sent) + [20, 3, 1, 0, 2, result.error.level, result.error.description]
    {
      if result.Err? && result.error.AbortHandshake? {
        var alert := [result.error.level, result.error.description];
        var slice := tx.WriteRecord(AlertRecord(false), alert, TrafficKeys(aead, schedule.client));
        if slice.Err? {
          return Err(slice.error);
        }
        assert slice.value == [20, 3, 1, 0, 2] + alert;
        Respond(slice.value);
      }
      return result;
    }

    /**
     Completes the hello in place: the truncated hello enters the transcript, then
     the binders' length and the binders.
     */
    method FinalizeHello() returns (r: TlsResult<seq<byte>>)
      requires Base() && schedule.transcript == []
      requires schedule.binderKey ==
               Some(DeriveSecret(schedule.suite, EarlySecret(schedule.suite, PskKey(config)), "ext binder", []))
      modifies schedule`transcript
      ensures r == Ok(FinalHello(config, schedule.suite)) && schedule.transcript == FinalHello(config, schedule.suite)
    {
      var enc := config.hello;
      if config.psk.None? {
        schedule.transcript := schedule.transcript + enc;
        return Ok(enc);
      }
      hide VerifyData, DeriveSecret, EarlySecret;
      var bindersPos := |enc| - config.psk.value.identities * (1 + schedule.suite.hashLen);
      schedule.transcript := schedule.transcript + enc[..bindersPos - 2];
      var binders: seq<byte> := [];
      ghost var one := [schedule.suite.hashLen % 256]
                       + VerifyData(schedule.suite, schedule.binderKey.value, enc[..bindersPos - 2]);
      assert schedule.transcript == enc[..bindersPos - 2];
      for i := 0 to config.psk.value.identities
        invariant binders == Repeat(one, i) && schedule.transcript == enc[..bindersPos - 2]
      {
        var binder := schedule.CreatePskBinder();
        binders := binders + ([schedule.suite.hashLen % 256] + binder.value);
      }
      enc := enc[..bindersPos] + binders;
      assert enc[..bindersPos - 2] + enc[bindersPos - 2..] == enc;
      assert enc[..bindersPos - 2] == config.hello[..bindersPos - 2];
      schedule.transcript := schedule.transcript + enc[bindersPos - 2..];
      return Ok(enc);
    }

    // ---------- the steps ----------

    method SendClientHello() returns (r: TlsResult<State>)
      requires At(ClientHello)
      modifies this`sent, this`secret, schedule, tx`pos, tx`currentHeader, tx.buffer
      ensures r.Ok? ==> r.value == ServerHello && At(ServerHello)
      ensures r.Ok? <==> HEADER_SIZE + |FinalHello(config, schedule.suite)| <= tx.buffer.Length
    {
      hide FinalHello, DeriveSecret, EarlySecret, HeaderBytes, Lawful, AtServerVerify, AtClientCert;
      hide AtClientCertVerify, AtClientFinished, Done;
      HeadersAre(false);
      var early := schedule.InitializeEarlySecret(if config.psk.Some? then Some(config.psk.value.key) else None);
      var hello := FinalizeHello();
      var slice := tx.WriteRecord(HandshakeRecord(false), hello.value, TrafficKeys(aead, schedule.client));
      if slice.Err? {
        return Err(slice.error);
      }
      secret := Some(config.secret);
      assert [] + slice.value == slice.value;
      Respond(slice.value);
      return Ok(ServerHello);
    }

    /** Both hellos are in the transcript: the handshake keys are derived. */
    method AdoptServerHello(message: Message, shared: seq<byte>, ghost raw: Raw)
      requires Base() && sent == Opening() && message[0] == SERVER_HELLO
      requires Clear(provider, schedule.suite, raw) == PlainHandshake(message)
      requires schedule.sharedSecret
               == DeriveSecret(schedule.suite, EarlySecret(schedule.suite, PskKey(config)), "derived", [])
      requires schedule.transcript == FinalHello(config, schedule.suite) + message
      requires certificateRequest == None && trafficHash == None && secret == None && ShownNow() == Shown(None, None)
      requires provider.sharedSecret(config.secret, message) == Some(shared)
      modifies this`taken, this`seen, this`serverHello, this`dhe, this`own, this`run
      modifies schedule`hkdf, schedule`sharedSecret, schedule`client, schedule`server
      ensures Base() && AtServerVerify() && taken == [raw] && schedule.server.counter == 0
      ensures Now() == Fresh(FinalHello(config, schedule.suite) + message) && dhe == shared && serverHello == message
    {
      hide FinalHello, DeriveSecret, EarlySecret, HandshakeSecret, ExpandLabel, Lawful, LawfulSuite, Clear, Sealed;
      hide TakenAll, SealStream, AsRecords, Received, GoodFlight, History, AtServerVerify;
      serverHello := message;
      var initialized := schedule.InitializeHandshakeSecret(shared, PskKey(config));
      dhe := shared;
      own := [];
      ghost var s := schedule.suite;
      ExpandedIv(s, DeriveSecret(s, HandshakeSecret(s, PskKey(config), dhe), "c hs traffic", Greeting()));
      NothingSealed(TrafficKeys(aead, Traffic0("c hs traffic")), Opening());
      NoteHello(raw);
    }

    /** Notes the server's hello as taken, and nothing of its flight yet. */
    ghost method NoteHello(raw: Raw)
      requires Base() && KeyedAt(0) && own == [] && Now() == Fresh(Greeting())
      requires Clear(provider, schedule.suite, raw) == PlainHandshake(serverHello)
      modifies this`taken, this`seen, this`run
      ensures AtServerVerify() && taken == [raw]
    {
      hide FinalHello, DeriveSecret, HandshakeSecret, TrafficOf, Lawful, Clear, Sealed, TakenAll, SealStream, AsRecords;
      hide Received, GoodFlight, History;
      run := run.(flight := []);
      taken := [raw];
      seen := [PlainHandshake(serverHello)];
      assert taken[1..] == [] && seen == [PlainHandshake(serverHello)] + [];
      NoneTaken(provider, schedule.suite, FirstKeys());
      NothingReceived(serverHello);
      FreshHistory(provider, schedule.suite, ServerTrafficSecret(), Greeting());
      NothingGood(provider, schedule.suite, ServerTrafficSecret(), Greeting());
    }

    method ProcessServerHello(raw: Raw) returns (r: TlsResult<State>)
      requires At(ServerHello)
      modifies this`secret, this`taken, this`seen, this`serverHello, this`dhe, this`own, this`run, schedule
      ensures Base()
      ensures r.Ok? ==> r.value == ServerVerify && At(ServerVerify) && taken == [raw] && schedule.server.counter == 0
      ensures var record := Clear(provider, schedule.suite, raw);
              r == match record
                   case Unreadable(e) => Err(e)
                   case AlertReceived => Err(HandshakeAborted)
                   case PlainHandshake(message) =>
                     if message[0] != SERVER_HELLO then Err(InvalidHandshake)
                     else if provider.sharedSecret(config.secret, message).None? then Err(InvalidKeyShare)
                     else Ok(ServerVerify)
                   case _ => Err(InvalidRecord)
      ensures var record := Clear(provider, schedule.suite, raw);
              r.Ok? ==> IsServerHello(provider, config, record)
                        && Now() == Fresh(FinalHello(config, schedule.suite) + record.message)
                        && ServerTrafficSecret() == ServerSecret(provider, schedule.suite, config, record)
                        && FirstKeys() == ServerKeys(provider, schedule.suite, config, aead, record)
    {
      hide FinalHello, DeriveSecret, EarlySecret, HandshakeSecret, Lawful, Clear, TakenAll;
      hide AtClientHello, AtServerVerify, AtClientCert, AtClientCertVerify, AtClientFinished, Done;
      var record := Clear(provider, schedule.suite, raw);
      match record
      case PlainHandshake(message) =>
        schedule.transcript := schedule.transcript + message;
        if message[0] != SERVER_HELLO {
          return Err(InvalidHandshake);
        }
        var own := secret.value;
        secret := None;
        var shared := provider.sharedSecret(own, message);
        if shared.None? {
          return Err(InvalidKeyShare);
        }
        AdoptServerHello(message, shared.value, raw);
        return Ok(ServerVerify);
      case AlertReceived => return Err(HandshakeAborted);
      case Unreadable(e) => return Err(e);
      case _ => return Err(InvalidRecord);
    }

    /** Acts on one handshake message. */
    method HandleMessage(m: Message, state: State, ghost was: Option<Finish>)
      returns (r: TlsResult<State>, ghost fin: Option<Finish>)
      requires Base() && schedule.server.secret.Some?
      modifies this`trafficHash, this`certificateRequest, schedule`transcript, verifier
      ensures var w := StepMessage(provider, schedule.suite, schedule.server.secret.value,
                                   old(Now()).(next := state, finish := was), m);
              if w.Err? then r == Err(w.error) else r.Ok? && w.value == Now().(next := r.value, finish := fin)
    {
      fin := was;
      ghost var before := schedule.transcript;
      var hash := schedule.suite.hash(schedule.transcript);
      schedule.transcript := schedule.transcript + m;
      if m[0] == ENCRYPTED_EXTENSIONS {
      } else if m[0] == CERTIFICATE {
        if verifier != null {
          var shown := verifier.VerifyCertificate(schedule.transcript, m);
          if shown.Err? {
            return Err(shown.error), fin;
          }
        }
      } else if m[0] == CERTIFICATE_VERIFY {
        if verifier != null {
          var shown := verifier.VerifySignature(m);
          if shown.Err? {
            return Err(shown.error), fin;
          }
        }
      } else if m[0] == CERTIFICATE_REQUEST {
        if RequestContext(m).None? {
          return Err(InvalidHandshake), fin;
        }
        certificateRequest := RequestContext(m);
      } else if m[0] == FINISHED {
        var verified := schedule.VerifyServerFinished(m[4..], hash);
        if !verified.value {
          return Err(InvalidSignature), fin;
        }
        fin := Some(Finish(before, m));
        if certificateRequest.Some? {
          return Ok(ClientCert), fin;
        }
        trafficHash := Some(schedule.transcript);
        return Ok(ClientFinished), fin;
      } else {
        return Err(InvalidHandshake), fin;
      }
      return Ok(state), fin;
    }

    /** Acts on the messages coalesced in one record, in order, up to one that cannot be parsed. */
    method ProcessMessages(data: seq<byte>) returns (r: TlsResult<State>, ghost fin: Option<Finish>)
      requires Base() && schedule.server.secret.Some?
      modifies this`trafficHash, this`certificateRequest, schedule`transcript, verifier
      ensures var c := Coalesce(provider, schedule.suite, data);
              var w := StepMessages(provider, schedule.suite, schedule.server.secret.value, old(Now()), c.messages);
              if w.Err? then r == Err(w.error)
              else if c.stop.Some? then r == Err(c.stop.value)
              else r == Ok(w.value.next) && w.value == Now().(next := w.value.next, finish := fin)
    {
      hide MessageAt, StepMessage, Lawful, LawfulSuite;
      var state := ServerVerify;
      fin := None;
      ghost var serverSecret, v, all := schedule.server.secret.value, Now(), Coalesce(provider, schedule.suite, data);
      var pos := 0;
      assert data[0..] == data;
      while pos < |data|
        invariant pos <= |data| && schedule.server == old(schedule.server) && Base()
        invariant Coalesce(provider, schedule.suite, data[pos..]).stop == all.stop
        invariant StepMessages(provider, schedule.suite, serverSecret, v, all.messages) ==
                  StepMessages(provider, schedule.suite, serverSecret, Now().(next := state, finish := fin),
                               Coalesce(provider, schedule.suite, data[pos..]).messages)
        decreases |data| - pos
      {
        var n := MessageAt(provider, schedule.suite, data[pos..]);
        if n.Err? {
          return Err(n.error), fin;
        }
        var m: Message := data[pos..pos + n.value];
        assert data[pos..][..n.value] == m && data[pos..][n.value..] == data[pos + n.value..];
        ghost var later := Coalesce(provider, schedule.suite, data[pos + n.value..]).messages;
        assert ([m] + later)[1..] == later;
        r, fin := HandleMessage(m, state, fin);
        if r.Err? {
          return;
        }
        state := r.value;
        pos := pos + n.value;
      }
      assert data[pos..] == [];
      return Ok(state), fin;
    }

    /** Acts on a record that was not encrypted: its first message, if it is a handshake record. */
    method ProcessPlain(record: Record) returns (r: TlsResult<State>, ghost fin: Option<Finish>)
      requires Base() && schedule.server.secret.Some? && !record.Encrypted?
      modifies this`trafficHash, this`certificateRequest, schedule`transcript, verifier
      ensures record.Unreadable? ==> r == Err(record.error)
      ensures record.AlertReceived? ==> r == Err(InvalidRecord)
      ensures !record.Unreadable? && !record.AlertReceived? ==>
                var w := StepMessages(provider, schedule.suite, schedule.server.secret.value, old(Now()),
                                      MessagesIn(record));
                if w.Err? then r == Err(w.error)
                else r == Ok(w.value.next) && w.value == Now().(next := w.value.next, finish := fin)
    {
      hide StepMessage, Lawful, LawfulSuite;
      fin := None;
      match record
      case PlainHandshake(m) =>
        assert [m][1..] == [];
        r, fin := HandleMessage(m, ServerVerify, None);
      case ChangeCipherSpec => return Ok(ServerVerify), fin;
      case Unreadable(e) => return Err(e), fin;
      case _ => return Err(InvalidRecord), fin;
    }

    /** Opens the record if it is encrypted, where it lies in the buffer, and acts on its messages. */
    method DecryptRecord(record: TlsReading.Record) returns (r: TlsResult<State>, ghost fin: Option<Finish>)
      requires Base() && schedule.server.secret.Some? && |schedule.server.iv| == IV_LEN
      requires |record.header| == 5 && record.start + record.len <= reader.buf.Length
      modifies this`trafficHash, this`certificateRequest, schedule`transcript, schedule`server, verifier, reader.buf
      ensures Base()
      ensures var raw := Raw(record.header, old(reader.buf[..][record.start..record.start + record.len]));
              var took := Taken(provider, schedule.suite, TrafficKeys(aead, old(schedule.server)), raw);
              var w := StepMessages(provider, schedule.suite, old(schedule.server).secret.value, old(Now()),
                                    MessagesIn(took));
              && (took.Unreadable? ==> r == Err(took.error))
              && (took.AlertReceived? ==> r == Err(InvalidRecord))
              && (!took.Unreadable? && !took.AlertReceived? ==>
                    if w.Err? then r == Err(w.error)
                    else if took.Encrypted? && took.stop.Some? then r == Err(took.stop.value)
                    else r == Ok(w.value.next) && w.value == Now().(next := w.value.next, finish := fin))
              && (r.Ok? ==> schedule.server
                            == old(schedule.server).(counter :=
                                 old(schedule.server).counter + if IsSealed(raw) then 1 else 0))
    {
      hide StepMessages, Lawful, LawfulSuite, Clear, Coalesce, Unwrap, Nonce;
      var payload := reader.buf[..][record.start..record.start + record.len];
      fin := None;
      if record.header[0] != APPLICATION_DATA {
        ClearIsPlain(provider, schedule.suite, Raw(record.header, payload));
        r, fin := ProcessPlain(Clear(provider, schedule.suite, Raw(record.header, payload)));
        return;
      }
      var inner := TlsReading.OpenInPlace(TrafficKeys(aead, schedule.server), reader.buf, record);
      if inner.Err? {
        return Err(inner.error), fin;
      }
      if inner.value.contentType != HANDSHAKE {
        InsideKinds(provider, schedule.suite, inner.value);
        var inside := Inside(provider, schedule.suite, inner.value);
        return Err(inside.error), fin;
      }
      r, fin := ProcessMessages(inner.value.data);
      if r.Ok? {
        schedule.server := schedule.server.(counter := schedule.server.counter + 1);
      }
    }

    /** Takes one record of the server's flight; the Finished moves on. */
    method ReceiveServerFlight(record: TlsReading.Record, ghost raw: Raw) returns (r: TlsResult<State>)
      requires At(ServerVerify)
      requires raw.header == record.header && record.start + record.len <= reader.buf.Length
      requires raw.payload == reader.buf[..][record.start..record.start + record.len]
      modifies this`trafficHash, this`certificateRequest, this`taken, this`seen, this`run
      modifies schedule`transcript, schedule`server, verifier, reader.buf
      ensures Base()
      ensures r.Ok? ==>
              r.value in {ServerVerify, ClientCert, ClientFinished} && At(r.value) && taken == old(taken) + [raw]
      ensures var took := Taken(provider, schedule.suite, old(FirstKeys().(counter := schedule.server.counter)), raw);
              var w := StepMessages(provider, schedule.suite, old(ServerTrafficSecret()), old(Now()), MessagesIn(took));
              && (took.Unreadable? ==> r == Err(took.error))
              && (took.AlertReceived? ==> r == Err(InvalidRecord))
              && (!took.Unreadable? && !took.AlertReceived? ==>
                    if w.Err? then r == Err(w.error)
                    else if took.Encrypted? && took.stop.Some? then r == Err(took.stop.value)
                    else r == Ok(w.value.next) && ServerTrafficSecret() == old(ServerTrafficSecret())
                         && FirstKeys() == old(FirstKeys())
                         && schedule.server.counter == old(schedule.server.counter) + (if IsSealed(raw) then 1 else 0)
                         && Now() == w.value.(next := ServerVerify, finish := None)
                         && (w.value.finish.None? <==> w.value.next == ServerVerify))
    {
      hide FinalHello, DeriveSecret, HandshakeSecret, TrafficOf, SealStream, VerifyData, Lawful;
      hide StepMessages, Joined, GoodFlight, Received, History, Clear, Taken, TakenAll;
      hide MasterSecret, AtClientHello, AtServerHello, AtClientCert, AtClientCertVerify, AtClientFinished, Done;
      ghost var s, v := schedule.suite, Now();
      ExpandedIv(s, DeriveSecret(s, HandshakeSecret(s, PskKey(config), dhe), "s hs traffic", Greeting()));
      ghost var took := Taken(provider, s, FirstKeys().(counter := schedule.server.counter), raw);
      assert took == Taken(provider, s, Advance(FirstKeys(), Sealed(taken[1..])), raw);
      ghost var fin;
      r, fin := DecryptRecord(record);
      if r.Ok? {
        ghost var w := Now().(next := r.value, finish := fin);
        if fin.None? {
          NoteMore(raw, v, w);
        } else {
          NoteFinish(raw, v, w);
        }
      }
    }

    /** What the record `raw` holds, opened as the next one. */
    ghost function NextRecord(raw: Raw): Record
      requires BindersLength(config, schedule.suite) + 2 <= |config.hello| && LawfulSuite(schedule.suite) && taken != []
      reads this
    {
      Taken(provider, schedule.suite, Advance(FirstKeys(), Sealed(taken[1..])), raw)
    }

    /** The record's messages were acted on from `v`, with this outcome, and its place was counted. */
    ghost predicate ActedOn(raw: Raw, v: Verification, w: Verification)
      requires BindersLength(config, schedule.suite) + 2 <= |config.hello| && LawfulSuite(schedule.suite)
      reads this, schedule, verifier
    {
      && Accounted() && own == [] && Received(seen, serverHello, run.flight)
      && KeyedAt(Sealed(taken[1..]) + if IsSealed(raw) then 1 else 0)
      && History(provider, schedule.suite, ServerTrafficSecret(), v, run.flight, Greeting())
      && v.finish.None? && v.next == ServerVerify && w == Now().(next := w.next, finish := w.finish)
      && StepMessages(provider, schedule.suite, ServerTrafficSecret(), v, MessagesIn(NextRecord(raw))) == Ok(w)
    }

    /** Notes the record as taken and its messages as received, none of them a Finished. */
    ghost method NoteMore(raw: Raw, v: Verification, w: Verification)
      requires Base() && ActedOn(raw, v, w) && w.finish.None?
      modifies this`taken, this`seen, this`run
      ensures w.next == ServerVerify && AtServerVerify() && taken == old(taken) + [raw]
    {
      hide FinalHello, DeriveSecret, HandshakeSecret, TrafficOf, SealStream, VerifyData, Lawful, Taken, Sealed;
      hide StepMessages, Joined, After, Verified, GoodFlight, Holds, NoFinished, Received, EndedBy, FinishWithin;
      hide Requested, LastRequest, Clear, TakenAll;
      var record, ms, s := NextRecord(raw), MessagesIn(NextRecord(raw)), schedule.suite;
      TakeRecord(seen, serverHello, run.flight, record);
      FlightOutcome(provider, s, ServerTrafficSecret(), v, ms, Greeting(), run.flight);
      OneMoreTaken(provider, s, FirstKeys(), taken, raw, PlainHandshake(serverHello));
      seen := seen + [record];
      taken := taken + [raw];
      run := run.(flight := run.flight + ms);
    }

    /** Notes the record with the Finished: the client answers next. */
    ghost method NoteFinish(raw: Raw, v: Verification, w: Verification)
      requires Base() && ActedOn(raw, v, w) && w.finish.Some?
      modifies this`taken, this`seen, this`run
      ensures w.next in {ClientCert, ClientFinished} && At(w.next) && taken == old(taken) + [raw]
    {
      hide FinalHello, DeriveSecret, HandshakeSecret, TrafficOf, SealStream, VerifyData, Lawful, Taken, Sealed;
      hide StepMessages, Joined, After, Verified, GoodFlight, Holds, NoFinished, Received, EndedBy, FinishWithin;
      hide Requested, LastRequest, Answers, MasterSecret, AtClientHello, AtServerHello, AtClientCertVerify, Done;
      hide Clear, TakenAll, AtServerVerify;
      var record, ms, s := NextRecord(raw), MessagesIn(NextRecord(raw)), schedule.suite;
      TakeRecord(seen, serverHello, run.flight, record);
      FlightOutcome(provider, s, ServerTrafficSecret(), v, ms, Greeting(), run.flight);
      OneMoreTaken(provider, s, FirstKeys(), taken, raw, PlainHandshake(serverHello));
      seen := seen + [record];
      taken := taken + [raw];
      run := ServerFlight(run.flight + ms, ms, w.finish.value, After(w), w.next == ClientCert);
      NothingSent(ToFinished(), run.after);
      NoAnswer(provider, s, certificateRequest, ToFinished() + run.after);
    }

    method SendCertificate() returns (r: TlsResult<State>)
      requires At(ClientCert)
      modifies this`trafficHash, this`sent, this`own, schedule`client, schedule`transcript
      modifies tx`pos, tx`currentHeader, tx.buffer
      ensures r.Ok? ==>
              r.value == (if provider.clientCert.Some? then ClientCertVerify else ClientFinished) && At(r.value)
      ensures certificateRequest.Some? &&
              var certificate := CertificateMessage(certificateRequest.value, provider.clientCert);
              (r.Ok? <==> FitsSealed(tx.buffer.Length, certificate))
              && (r.Ok? ==> schedule.transcript == old(schedule.transcript) + certificate)
    {
      hide FinalHello, DeriveSecret, HandshakeSecret, SealStream, VerifyData, Lawful, CertificateMessage;
      hide Verified, Received, EndedBy, GoodFlight, LastRequest, TakenAll, Clear, Sealed;
      trafficHash := Some(schedule.transcript);
      var entries := if provider.clientCert.Some? then [X509(provider.clientCert.value)] else [];
      var certificate := Handshake(CERTIFICATE, CertificateBytes(certificateRequest.value, entries));
      var nextState := if provider.clientCert.Some? then ClientCertVerify else ClientFinished;
      var done := SendHandshake(certificate);
      if done.Err? {
        return Err(done.error);
      }
      assert own == [certificate];
      JoinedPush([], certificate);
      assert [] + [certificate] == [certificate] && Joined([]) + certificate == certificate;
      return Ok(nextState);
    }

    /** The signature over the transcript so far, in its message. */
    method SignTranscript(sign: seq<byte> -> seq<byte>) returns (verify: Message)
      ensures verify == CertificateVerifyMessage(provider, schedule.suite, sign, schedule.transcript)
    {
      var msg := seq(64, _ => 32);
      msg := msg + Ascii("TLS 1.3, client CertificateVerify\0");
      msg := msg + schedule.suite.hash(schedule.transcript);
      assert "TLS 1.3, client CertificateVerify" + "\0" == "TLS 1.3, client CertificateVerify\0";
      ContentIs(schedule.suite, "TLS 1.3, client CertificateVerify", schedule.transcript);
      var signature := sign(msg);
      VerifyMessageIs(provider, schedule.suite, sign, schedule.transcript, signature);
      return Handshake(CERTIFICATE_VERIFY, U16Bytes(provider.scheme) + U16Bytes(|signature|) + signature);
    }

    /** Signs the transcript; without a signing key the connection says goodbye and fails. */
    method SendCertificateVerify() returns (r: TlsResult<State>)
      requires At(ClientCertVerify)
      modifies this`sent, this`own, schedule`client, schedule`transcript, tx`pos, tx`currentHeader, tx.buffer
      ensures r.Ok? ==> r.value == ClientFinished && At(ClientFinished)
      ensures r.Ok? <==> SignatureFits(provider, schedule.suite, tx.buffer.Length, old(schedule.transcript))
      ensures provider.signer.None? && HEADER_SIZE + 2 + 1 + TAG_SIZE <= tx.buffer.Length ==>
                r == Err(SigningFailed) &&
                sent == old(sent) + SealRecord(TrafficKeys(aead, old(schedule.client)), Inner([1, 0], 21))
    {
      hide FinalHello, DeriveSecret, HandshakeSecret, SealStream, VerifyData, Lawful, RecordBytes;
      hide CertificateMessage, CertificateVerifyMessage, Verified, Received, EndedBy, GoodFlight, LastRequest;
      hide Accounted, Sealed;
      if provider.signer.None? {
        var slice := tx.WriteRecord(AlertRecord(true), CLOSE_NOTIFY, TrafficKeys(aead, schedule.client));
        if slice.Ok? {
          GoodbyeBytes(TrafficKeys(aead, schedule.client));
          Respond(slice.value);
        }
        return Err(if slice.Err? then slice.error else SigningFailed);
      }
      ghost var certificate := own[0];
      var verify := SignTranscript(provider.signer.value);
      var done := SendHandshake(verify);
      if done.Err? {
        return Err(done.error);
      }
      assert own == [certificate, verify];
      JoinedTwo(certificate, verify);
      SeqRegroup(ToFinished() + run.after, certificate, verify);
      return Ok(ClientFinished);
    }

    /** Sends the client Finished, then derives the application keys from the snapshot. */
    method SendFinished() returns (r: TlsResult<State>)
      requires At(ClientFinished)
      modifies this`trafficHash, this`sent, this`own, schedule, tx`pos, tx`currentHeader, tx.buffer
      ensures r.Ok? ==> r.value == ApplicationData && At(ApplicationData)
      ensures r.Ok? <==> FinishedFits(schedule.suite, tx.buffer.Length)
    {
      hide FinalHello, DeriveSecret, HandshakeSecret, MasterSecret, SealStream, VerifyData, Lawful, Joined;
      hide Verified, Answers;
      hide Received, EndedBy, GoodFlight, LastRequest;
      ghost var answer := own;
      var verify := schedule.CreateClientFinished();
      if verify.Err? {
        return Err(InvalidHandshake);
      }
      FinishedLength(schedule.suite, schedule.client.secret.value, schedule.transcript);
      var done := SendHandshake(Handshake(FINISHED, verify.value));
      if done.Err? {
        return Err(done.error);
      }
      assert own[..|own| - 1] == answer;
      schedule.transcript := trafficHash.value;
      trafficHash := None;
      var initialized := schedule.InitializeMasterSecret(PskKey(config), dhe);
      ghost var s := schedule.suite;
      ExpandedIv(s, DeriveSecret(s, MasterSecret(s, PskKey(config), dhe), "c ap traffic", Snapshot()));
      return Ok(ApplicationData);
    }

    /** Reads the record with the server's hello. */
    method TakeServerHello() returns (r: TlsResult<State>)
      requires At(ServerHello)
      modifies this, schedule, tx, tx.buffer, transport, reader, reader.buf
      ensures old(CanComplete(ServerHello)) <==> r.Ok? && CanComplete(r.value)
      ensures r.Ok? ==> r.value == ServerVerify && At(ServerVerify)
                        && Flat(taken) + transport.data == old(Flat(taken) + transport.data)
      ensures r.Ok? ==> |transport.data| < old(|transport.data|)
    {
      hide At, Base, FlightCompletes, ServerSecret, FinalHello, TrafficOf, DeriveSecret, HandshakeSecret, Clear, Taken;
      hide TakenAll, Raws;
      HelloHasRoom(ServerHello);
      NothingTaken();
      var record := ReadRecord(ServerHello);
      if record.Err? {
        return Err(record.error);
      }
      var payload := reader.buf[..][record.value.start..record.value.start + record.value.len];
      ghost var raw := Raw(record.value.header, payload);
      FlatPush([], raw);
      assert [] + [raw] == [raw] && [] + raw.header == raw.header;
      var result := ProcessServerHello(Raw(record.value.header, payload));
      r := HandleProcessingError(result);
    }

    /** Takes a record of the flight that was just read: in vain only if completing is out of reach. */
    method AcceptServerFlight(record: TlsReading.Record, ghost raw: Raw) returns (r: TlsResult<State>)
      requires At(ServerVerify)
      requires raw.header == record.header && record.start + record.len <= reader.buf.Length
      requires raw.payload == reader.buf[..][record.start..record.start + record.len]
      modifies this`trafficHash, this`certificateRequest, this`taken, this`seen, this`run
      modifies schedule`transcript, schedule`server, verifier, reader.buf
      ensures Base()
      ensures old(FlightAhead([raw] + Ahead())) <==> r.Ok? && CanComplete(r.value)
      ensures r.Ok? ==>
              r.value in {ServerVerify, ClientCert, ClientFinished} && At(r.value) && taken == old(taken) + [raw]
    {
      hide At, Base, StepMessages, CertificateFits, FinishedFits, TrafficOf, DeriveSecret, HandshakeSecret, FinalHello;
      hide Clear, Taken, TakenAll, FlightCompletes, Raws, LawfulSuite, Lawful;
      HelloHasRoom(ServerVerify);
      FlightStep(provider, schedule.suite, ServerTrafficSecret(), tx.buffer.Length, Now(),
                 FirstKeys().(counter := schedule.server.counter), raw, Ahead());
      r := ReceiveServerFlight(record, raw);
    }

    method TakeServerFlight() returns (r: TlsResult<State>)
      requires At(ServerVerify)
      modifies this, schedule, tx, tx.buffer, transport, reader, reader.buf, verifier
      ensures old(CanComplete(ServerVerify)) <==> r.Ok? && CanComplete(r.value)
      ensures r.Ok? ==> r.value in {ServerVerify, ClientCert, ClientFinished} && At(r.value)
      ensures r.Ok? ==> Flat(taken) + transport.data == old(Flat(taken) + transport.data)
                        && |transport.data| < old(|transport.data|)
    {
      hide At, Base, CertificateFits, FinishedFits, TrafficOf, DeriveSecret, HandshakeSecret, FinalHello;
      hide TakenAll, FlightCompletes, FlightAhead, Raws, LawfulSuite, Lawful;
      HelloHasRoom(ServerVerify);
      NothingAhead();
      var record := ReadRecord(ServerVerify);
      if record.Err? {
        return Err(record.error);
      }
      ghost var raw := Raw(record.value.header,
                           reader.buf[..][record.value.start..record.value.start + record.value.len]);
      FlatPush(taken, raw);
      var result := AcceptServerFlight(record.value, raw);
      r := HandleProcessingError(result);
    }

    /** Reads one record into the buffer. */
    method ReadRecord(ghost state: State) returns (r: TlsResult<TlsReading.Record>)
      requires At(state)
      modifies transport, reader, reader.buf
      ensures r.Err? ==> old(Ahead()) == []
      ensures r.Ok? ==>
                && At(state) && |r.value.header| == 5 && r.value.start + r.value.len <= reader.buf.Length
                && var payload := reader.buf[..][r.value.start..r.value.start + r.value.len];
                   && old(Ahead()) == [Raw(r.value.header, payload)] + Ahead()
                   && old(transport.data) == r.value.header + payload + transport.data
    {
      hide Lawful, LawfulSuite, AtClientHello, AtServerHello, AtServerVerify, AtClientCert, AtClientCertVerify;
      hide AtClientFinished, Done;
      r := reader.ReadBlocking(transport);
    }

    /**
     One step of the state machine; reading steps take a record from the stream. It
     fails only where completing is out of reach.
     */
    method Process(state: State) returns (r: TlsResult<State>)
      requires At(state)
      modifies this, schedule, tx, tx.buffer, transport, reader, reader.buf, verifier
      ensures old(CanComplete(state)) <==> r.Ok? && CanComplete(r.value)
      ensures r.Ok? ==> At(r.value) && Flat(taken) + transport.data == old(Flat(taken) + transport.data)
      ensures r.Ok? ==> |transport.data| <= old(|transport.data|)
      ensures r.Ok? && state != ApplicationData ==>
              |transport.data| < old(|transport.data|) || Rank(r.value) < Rank(state)
    {
      hide At, Base, FlightCompletes, HelloCompletes, FinalHello, TrafficOf, DeriveSecret, HandshakeSecret;
      hide CertificateVerifyMessage, CertificateMessage, Heard, TakenAll, Raws;
      HelloHasRoom(state);
      match state
      case ClientHello => r := SendClientHello();
      case ServerHello => r := TakeServerHello();
      case ServerVerify => r := TakeServerFlight();
      case ClientCert => r := SendCertificate();
      case ClientCertVerify => r := SendCertificateVerify();
      case ClientFinished => r := SendFinished();
      case ApplicationData => r := Ok(ApplicationData);
    }

    /**
     The whole handshake, over the bytes the server sends. It succeeds exactly if
     some front part of their records completes it, and then ends with the keys and
     messages of `Done` over those; the bytes behind them are left in the stream.
     */
    method Open() returns (r: TlsResult<()>)
      requires At(ClientHello) && taken == []
      modifies this, schedule, tx, tx.buffer, transport, reader, reader.buf, verifier
      ensures r.Ok? <==> exists n: nat ::
                Completes(provider, schedule.suite, config, tx.buffer.Length,
                          Heard(provider, schedule.suite, config, aead, old(Ahead())), n)
      ensures r.Ok? ==> At(ApplicationData) && Flat(taken) + transport.data == old(transport.data)
    {
      hide At, Base, Heard;
      var state := ClientHello;
      assert Flat(taken) + transport.data == transport.data;
      HelloHasRoom(ClientHello);
      HelloCompletesIff(provider, schedule.suite, config, tx.buffer.Length,
                        Heard(provider, schedule.suite, config, aead, Ahead()));
      while state != ApplicationData
        invariant CanComplete(state) == old(CanComplete(ClientHello))
        invariant At(state) && Flat(taken) + transport.data == old(transport.data)
        decreases |transport.data|, Rank(state)
      {
        var next := Process(state);
        if next.Err? {
          return Err(next.error);
        }
        state := next.value;
      }
      return Ok(());
    }
  }

  lemma FinishedLength(s: Suite, secret: seq<byte>, transcript: seq<byte>)
    requires LawfulSuite(s)
    ensures |VerifyData(s, secret, transcript)| == s.hashLen
  {}

  lemma NothingSealed(keys: Keys, opening: seq<byte>)
    ensures opening + SealStream(keys, AsRecords([])) == opening
  {}

  lemma VerifyMessageIs(p: Provider, s: Suite, sign: seq<byte> -> seq<byte>, transcript: seq<byte>,
                        signature: seq<byte>)
    requires signature == sign(SignedContent(s, "TLS 1.3, client CertificateVerify", transcript))
    ensures Handshake(CERTIFICATE_VERIFY, U16Bytes(p.scheme) + U16Bytes(|signature|) + signature)
            == CertificateVerifyMessage(p, s, sign, transcript)
  {
    hide SignedContent;
    var body := U16Bytes(p.scheme) + U16Bytes(|signature|) + signature;
    assert |body| == 4 + |signature|;
  }

  lemma NothingGood(p: Provider, s: Suite, serverSecret: seq<byte>, g: seq<byte>)
    ensures GoodFlight(p, s, serverSecret, [], g)
  {}

  lemma NothingReceived(message: Message)
    ensures Received([PlainHandshake(message)], message, [])
  {
    assert [PlainHandshake(message)][1..] == [];
  }

  lemma TakeRecord(seen: seq<Record>, serverHello: Message, flight: seq<Message>, record: Record)
    requires Received(seen, serverHello, flight)
    ensures Received(seen + [record], serverHello, flight + MessagesIn(record))
    ensures NoFinished(flight) ==> EndedBy(seen + [record], MessagesIn(record))
  {
    var longer := seen + [record];
    assert longer[1..] == seen[1..] + [record] && longer[1..|seen|] == seen[1..];
    MessagesPush(seen[1..], record);
  }

  lemma ExpandedIv(s: Suite, secret: seq<byte>)
    requires LawfulSuite(s)
    ensures |TrafficOf(s, secret).iv| == IV_LEN && TrafficOf(s, secret).counter == 0
  {}

  lemma OneMoreTaken(p: Provider, s: Suite, keys: Keys, taken: seq<Raw>, raw: Raw, hello: Record)
    requires taken != []
    ensures var record := Taken(p, s, Advance(keys, Sealed(taken[1..])), raw);
            [hello] + TakenAll(p, s, keys, (taken + [raw])[1..])
            == [hello] + TakenAll(p, s, keys, taken[1..]) + [record]
    ensures Sealed((taken + [raw])[1..]) == Sealed(taken[1..]) + if IsSealed(raw) then 1 else 0
  {
    assert (taken + [raw])[1..] == taken[1..] + [raw];
    SealedPush(taken[1..], raw);
    TakenPush(p, s, keys, taken[1..], raw);
    var record := Taken(p, s, Advance(keys, Sealed(taken[1..])), raw);
    SeqRegroup([hello], TakenAll(p, s, keys, taken[1..]), [record]);
  }

  lemma ClearIsPlain(p: Provider, s: Suite, raw: Raw)
    ensures !Clear(p, s, raw).Encrypted?
  {}

  lemma NothingSent(upTo: seq<byte>, after: seq<byte>)
    ensures Joined([]) == [] && upTo + [] == upTo && upTo + after + Joined([]) == upTo + after
  {}

  lemma NoAnswer(p: Provider, s: Suite, request: Option<seq<byte>>, transcript: seq<byte>)
    ensures Answers(p, s, false, request, transcript, [])
  {}

  lemma JoinedTwo(a: Message, b: Message)
    ensures Joined([a, b]) == a + b && Joined([a]) == a
  {
    JoinedPush([], a);
    JoinedPush([a], b);
    assert [] + [a] == [a] && [a] + [b] == [a, b] && Joined([]) + a == a;
  }

  // ---------- what the records say about the outcome ----------

  /** The messages `ms` up to and including their `k`-th, the client's hello in front. */
  ghost function UpTo(c: Connection, ms: seq<Message>, k: nat): seq<byte>
    requires BindersLength(c.config, c.schedule.suite) + 2 <= |c.config.hello| && k < |ms|
  {
    FinalHello(c.config, c.schedule.suite) + Joined(ms[..k + 1])
  }

  /** The messages taken are the server's hello and its flight. */
  lemma AllTaken(c: Connection)
    requires Received(c.seen, c.serverHello, c.run.flight)
    ensures MessagesOf(c.seen) == [c.serverHello] + c.run.flight
  {
    MessagesFirst(c.seen);
  }

  lemma ContainsFirst(first: Message, flight: seq<Message>, kind: byte)
    ensures Contains([first] + flight, kind) <==> first[0] == kind || Contains(flight, kind)
  {
    var ms := [first] + flight;
    if i :| 0 <= i < |flight| && flight[i][0] == kind {
      assert ms[i + 1][0] == kind;
    }
    if first[0] == kind {
      assert ms[0][0] == kind;
    }
    if i :| 0 <= i < |ms| && ms[i][0] == kind && i > 0 {
      assert flight[i - 1][0] == kind;
    }
  }

  /** What the flight of a completed handshake went through. */
  lemma FlightIsGood(c: Connection)
    requires c.At(ApplicationData)
    ensures BindersLength(c.config, c.schedule.suite) + 2 <= |c.config.hello| && LawfulSuite(c.schedule.suite)
    ensures Received(c.seen, c.serverHello, c.run.flight) && c.serverHello[0] == SERVER_HELLO
    ensures GoodFlight(c.provider, c.schedule.suite, c.ServerTrafficSecret(), c.run.flight, c.Greeting())
  {}

  /** Where the Finished stands among all messages, and what comes after it. */
  lemma FinishPlace(hello: seq<byte>, serverHello: Message, flight: seq<Message>, f: Finish, after: seq<byte>,
                    asked: bool, i: nat)
    requires serverHello[0] == SERVER_HELLO && FinishAt(f, asked, flight, hello + serverHello, i)
    requires f.before + f.message + after == hello + serverHello + Joined(flight)
    ensures var ms := [serverHello] + flight;
            && f.before + f.message == hello + Joined(ms[..i + 2])
            && f.before + f.message + after == hello + Joined(ms)
            && (asked <==> Requested(ms[..i + 1]))
            && (after == [] <==> i + 1 == |ms| - 1)
  {
    hide Joined, Requested;
    var ms, upTo := [serverHello] + flight, flight[..i + 1];
    JoinedPush([], serverHello);
    assert [] + [serverHello] == [serverHello] && Joined([]) + serverHello == serverHello by { EmptyJoined(); }
    assert upTo == flight[..i] + [flight[i]] && ms[..i + 2] == [serverHello] + upTo
           && ms[..i + 1] == [serverHello] + flight[..i];
    JoinedPush(flight[..i], flight[i]);
    JoinedConcat([serverHello], upTo);
    JoinedConcat([serverHello], flight);
    assert flight == upTo + flight[i + 1..];
    JoinedConcat(upTo, flight[i + 1..]);
    JoinedIsLong(flight[i + 1..]);
    SeqRegroup(hello, serverHello, Joined(flight));
    SeqRegroup(hello, serverHello, Joined(upTo));
    SeqRegroup(hello + serverHello, Joined(flight[..i]), f.message);
    SeqRegroup(hello + serverHello, Joined(upTo), Joined(flight[i + 1..]));
    assert after == (f.before + f.message + after)[|f.before + f.message|..];
    assert Joined(flight[i + 1..]) == (f.before + f.message + Joined(flight[i + 1..]))[|f.before + f.message|..];
    RequestedFirst(serverHello, flight[..i]);
  }

  lemma EmptyJoined()
    ensures Joined([]) == []
  {}

  lemma RequestedFirst(first: Message, flight: seq<Message>)
    requires first[0] == SERVER_HELLO
    ensures Requested([first] + flight) <==> Requested(flight)
  {
    var ms := [first] + flight;
    if i :| 0 <= i < |flight| && flight[i][0] == CERTIFICATE_REQUEST {
      assert ms[i + 1][0] == CERTIFICATE_REQUEST;
    }
    if i :| 0 <= i < |ms| && ms[i][0] == CERTIFICATE_REQUEST {
      assert flight[i - 1][0] == CERTIFICATE_REQUEST;
    }
  }

  /**
   After any successful handshake, with `ms` the messages of the records it took
   and `k` the place of the last Finished among them: the standard has both
   application secrets and the client Finished cover everything up to that
   Finished. The secrets do exactly if the Finished is the last message or the
   client was not asked for a certificate before it; the client Finished does
   exactly if the Finished is the last message.
   */
  lemma TranscriptsIff(c: Connection, k: nat)
    requires c.At(ApplicationData)
    requires k < |MessagesOf(c.seen)| && MessagesOf(c.seen)[k][0] == FINISHED && NoFinished(MessagesOf(c.seen)[k + 1..])
    ensures var ms := MessagesOf(c.seen);
            var ends, asked := k == |ms| - 1, Requested(ms[..k]);
            var answer := c.own[..|c.own| - 1];
            && c.run.asked == asked && c.ToFinished() == UpTo(c, ms, k)
            && c.Snapshot() == (if asked then UpTo(c, ms, |ms| - 1) else UpTo(c, ms, k))
            && (c.Snapshot() == UpTo(c, ms, k) <==> ends || !asked)
            && (c.ToFinished() + c.run.after + Joined(answer) == UpTo(c, ms, k) + Joined(answer) <==> ends)
  {
    hide TrafficOf, DeriveSecret, MasterSecret, HandshakeSecret, SealStream, VerifyData, Answers, GoodFlight;
    hide FinalHello;
    hide MessagesOf, Joined, Requested, LastRequest, Received, EndedBy, NoFinished;
    var ms, flight, hello := MessagesOf(c.seen), c.run.flight, FinalHello(c.config, c.schedule.suite);
    AllTaken(c);
    assert k > 0 && flight[k - 1] == ms[k] && ms[k + 1..] == flight[k..];
    var i: nat :| FinishAt(c.run.finish, c.run.asked, flight, c.Greeting(), i);
    OnlyLast(flight, i, k - 1);
    FinishPlace(hello, c.serverHello, flight, c.run.finish, c.run.after, c.run.asked, i);
    assert ms[..|ms| - 1 + 1] == ms;
    var answer := c.own[..|c.own| - 1];
    assert |c.ToFinished() + c.run.after + Joined(answer)| == |c.ToFinished() + Joined(answer)| + |c.run.after|;
    assert |c.Snapshot()| == |c.ToFinished()| + if c.run.asked then |c.run.after| else 0;
    if c.run.after == [] {
      assert c.ToFinished() + c.run.after == c.ToFinished();
    }
  }

  /**
   With a verifier, a completed handshake has authenticated the server exactly if a
   CertificateVerify was received.
   */
  lemma ServerAuthenticatedIff(c: Connection)
    requires c.At(ApplicationData) && c.provider.judge.Some?
    ensures Authenticated(c.provider, c.schedule.suite, c.run.flight, c.Greeting())
            <==> Contains(MessagesOf(c.seen), CERTIFICATE_VERIFY)
  {
    hide TrafficOf, MasterSecret, HandshakeSecret, SealStream, VerifyData, Answers, GoodFlight, FinalHello;
    hide MessagesOf, Joined, Contains, Authenticated, Verified, Connection.At, LawfulSuite;
    FlightIsGood(c);
    AllTaken(c);
    AuthenticatedIff(c.provider, c.schedule.suite, c.ServerTrafficSecret(), c.run.flight, c.Greeting());
    ContainsFirst(c.serverHello, c.run.flight, CERTIFICATE_VERIFY);
  }

  /**
   Every signature a completed handshake received with a verifier was checked
   with the certificate before it, over the handshake up to that certificate.
   */
  lemma ServerSignatureChecked(c: Connection, j: nat) returns (i: nat)
    requires c.At(ApplicationData) && c.provider.judge.Some?
    requires j < |MessagesOf(c.seen)| && MessagesOf(c.seen)[j][0] == CERTIFICATE_VERIFY
    ensures j > 0 && i + 1 < j && SignedBy(c.provider, c.schedule.suite, c.run.flight, c.Greeting(), i, j - 1)
    ensures c.Greeting() + Joined(c.run.flight[..i + 1]) == UpTo(c, MessagesOf(c.seen), i + 1)
  {
    hide TrafficOf, MasterSecret, HandshakeSecret, SealStream, VerifyData, Answers, GoodFlight, FinalHello;
    hide MessagesOf, Joined, Verified, SignedBy, Connection.At, LawfulSuite;
    FlightIsGood(c);
    AllTaken(c);
    var ms, flight := MessagesOf(c.seen), c.run.flight;
    assert j > 0 && flight[j - 1] == ms[j];
    i := EverySignatureChecked(c.provider, c.schedule.suite, c.ServerTrafficSecret(), flight, c.Greeting(), j - 1);
    SignedInOrder(c.provider, c.schedule.suite, flight, c.Greeting(), i, j - 1);
    assert ms[..i + 2] == [c.serverHello] + flight[..i + 1];
    JoinedAfter(FinalHello(c.config, c.schedule.suite), c.serverHello, flight[..i + 1]);
  }

  lemma SignedInOrder(p: Provider, s: Suite, flight: seq<Message>, g: seq<byte>, c: nat, j: nat)
    requires SignedBy(p, s, flight, g, c, j)
    ensures c < j < |flight|
  {}

  lemma JoinedAfter(hello: seq<byte>, serverHello: Message, flight: seq<Message>)
    ensures hello + serverHello + Joined(flight) == hello + Joined([serverHello] + flight)
  {
    JoinedPush([], serverHello);
    assert [] + [serverHello] == [serverHello] && Joined([]) + serverHello == serverHello;
    JoinedConcat([serverHello], flight);
    SeqRegroup(hello, serverHello, Joined(flight));
  }

  /**
   The flight of a completed handshake came encrypted exactly if no record after
   the server's hello was a plaintext one.
   */
  lemma FlightEncryptedIff(c: Connection)
    requires c.At(ApplicationData)
    ensures |c.seen| > 0
    ensures c.run.flight == Protected(c.seen[1..]) <==> forall i :: 1 <= i < |c.seen| ==> !c.seen[i].PlainHandshake?
  {
    hide TrafficOf, DeriveSecret, MasterSecret, HandshakeSecret, SealStream, VerifyData, Answers, GoodFlight;
    hide FinalHello;
    hide MessagesOf, Protected, Joined, Verified;
    ProtectedIff(c.seen[1..]);
    assert forall i :: 1 <= i < |c.seen| ==> c.seen[i] == c.seen[1..][i - 1];
  }
}
