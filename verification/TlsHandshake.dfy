/**
 The client handshake: a state machine over one connection object. Records
 arrive already framed and opened, as the handshake messages they carry; what is
 sent goes through the real write buffer. Parsing verdicts, certificate checks,
 key agreement and signing are parameters.
 */
module TlsHandshake {
  import opened Bytes
  import opened ParseBuffers
  import opened TlsCertificate
  import opened TlsKeySchedule
  import opened TlsRecords
  import opened TlsVerifying
  import opened Wrappers

  const SERVER_HELLO: byte := 2
  const ENCRYPTED_EXTENSIONS: byte := 8
  const CERTIFICATE: byte := 11
  const CERTIFICATE_REQUEST: byte := 13
  const CERTIFICATE_VERIFY: byte := 15
  const FINISHED: byte := 20

  /** A whole handshake message: type, 24-bit length and body. */
  type Message = s: seq<byte> | |s| >= 4 witness [0, 0, 0, 0]

  datatype Record =
    | PlainHandshake(message: Message)
    | Encrypted(messages: seq<Message>, stop: Option<TlsError>)   // and why no more could be parsed
    | ChangeCipherSpec
    | AlertReceived
    | Unreadable(error: TlsError)

  datatype State =
    ClientHello | ServerHello | ServerVerify | ClientCert | ClientCertVerify | ClientFinished | ApplicationData

  datatype Psk = Psk(key: seq<byte>, identities: nat)

  datatype Config = Config(psk: Option<Psk>, hello: seq<byte>, secret: seq<byte>)

  datatype Provider = Provider(
    parse: (byte, seq<byte>) -> TlsResult<nat>,   // how long a message's body is, given its type and what follows
    sharedSecret: (seq<byte>, Message) -> Option<seq<byte>>,
    judge: Option<Judge>,   // how the server's certificate is judged, if it is
    clientCert: Option<seq<byte>>,
    scheme: nat,
    signer: Option<seq<byte> -> seq<byte>>)

  // ---------- what the client sends ----------

  function Handshake(kind: byte, body: seq<byte>): Message {
    [kind] + U24Bytes(|body|) + body
  }

  /** The client's Certificate (RFC 8446, section 4.4.2): the request's context, and one entry or none. */
  function CertificateMessage(context: seq<byte>, cert: Option<seq<byte>>): (m: Message)
    ensures m == Handshake(CERTIFICATE, CertificateBytes(context, if cert.Some? then [X509(cert.value)] else []))
  {
    var list := if cert.Some? then BeBytes(|cert.value|, 3) + cert.value + [0, 0] else [];
    var body := [|context| % 256] + context + BeBytes(|list|, 3) + list;
    assert cert.Some? ==> [X509(cert.value)][1..] == [] && EntriesBytes([X509(cert.value)]) == list;
    [11] + BeBytes(|body|, 3) + body
  }

  /** Its CertificateVerify (section 4.4.3). */
  function CertificateVerifyMessage(p: Provider, s: Suite, sign: seq<byte> -> seq<byte>,
                                    transcript: seq<byte>): Message
  {
    var signature := sign(SignedContent(s, "TLS 1.3, client CertificateVerify", transcript));
    [15] + BeBytes(4 + |signature|, 3) + BeBytes(p.scheme, 2) + BeBytes(|signature|, 2) + signature
  }

  /** Its Finished (section 4.4.4). */
  function FinishedMessage(s: Suite, secret: seq<byte>, transcript: seq<byte>): Message {
    var verify := VerifyData(s, secret, transcript);
    [20] + BeBytes(|verify|, 3) + verify
  }

  function Joined(messages: seq<Message>): seq<byte> {
    if messages == [] then [] else Joined(messages[..|messages| - 1]) + messages[|messages| - 1]
  }

  lemma JoinedPush(messages: seq<Message>, m: Message)
    ensures Joined(messages + [m]) == Joined(messages) + m
  {
    assert (messages + [m])[..|messages|] == messages;
  }

  lemma {:induction false} JoinedConcat(a: seq<Message>, b: seq<Message>)
    ensures Joined(a + b) == Joined(a) + Joined(b)
    decreases |b|
  {
    if b == [] {
      assert a + b == a;
    } else {
      var n := |b| - 1;
      JoinedConcat(a, b[..n]);
      assert a + b == (a + b[..n]) + [b[n]] && b == b[..n] + [b[n]];
      JoinedPush(a + b[..n], b[n]);
      JoinedPush(b[..n], b[n]);
      SeqRegroup(Joined(a), Joined(b[..n]), b[n]);
    }
  }

  function AsRecords(messages: seq<Message>): seq<Inner> {
    seq(|messages|, i requires 0 <= i < |messages| => Inner(messages[i], HANDSHAKE))
  }

  // ---------- what the server's flight does ----------

  /** A server Finished and the transcript it was checked against. */
  datatype Finish = Finish(before: seq<byte>, message: seq<byte>)

  datatype Verification = Verification(
    transcript: seq<byte>, trafficHash: Option<seq<byte>>, certificateRequest: Option<seq<byte>>, shown: Shown,
    next: State, finish: Option<Finish>)

  function RequestContext(m: Message): Option<seq<byte>> {
    if |m| < 5 || |m| < 5 + m[4] as int then None else Some(m[5..5 + m[4] as int])
  }

  /** The context of a well-formed request is the bytes its first byte counts. */
  lemma RequestContextIs(context: seq<byte>, extensions: seq<byte>)
    requires |context| < 256
    ensures RequestContext(Handshake(13, [|context|] + context + extensions)) == Some(context)
    ensures RequestContext([13, 0, 0, 0]) == None
    ensures context != [] ==> RequestContext(Handshake(13, [|context|] + context[1..])) == None
  {
    var body := [|context|] + context + extensions;
    var m := Handshake(13, body);
    assert m == [13] + U24Bytes(|body|) + body && m[4..] == body && m[4] == |context|;
    assert m[5..5 + |context|] == m[4..][1..1 + |context|] == context;
  }

  /** One message: it enters the transcript, then it is acted on. */
  function StepMessage(p: Provider, s: Suite, serverSecret: seq<byte>, v: Verification,
                       m: Message): TlsResult<Verification>
  {
    var read := v.(transcript := v.transcript + m);
    if m[0] == ENCRYPTED_EXTENSIONS then Ok(read)
    else if m[0] == CERTIFICATE then
      if p.judge.None? then Ok(read)
      else
        var shown := TakeCertificate(p.judge.value, v.shown, read.transcript, m);
        if shown.Err? then Err(shown.error) else Ok(read.(shown := shown.value))
    else if m[0] == CERTIFICATE_VERIFY then
      if p.judge.None? then Ok(read)
      else
        var shown := TakeSignature(p.judge.value, s, v.shown, m);
        if shown.Err? then Err(shown.error) else Ok(read.(shown := shown.value))
    else if m[0] == CERTIFICATE_REQUEST then
      if RequestContext(m).None? then Err(InvalidHandshake) else Ok(read.(certificateRequest := RequestContext(m)))
    else if m[0] == FINISHED then
      if m[4..] != VerifyData(s, serverSecret, v.transcript) then Err(InvalidSignature)
      else if v.certificateRequest.Some? then Ok(read.(next := ClientCert, finish := Some(Finish(v.transcript, m))))
      else Ok(read.(next := ClientFinished, trafficHash := Some(read.transcript),
                    finish := Some(Finish(v.transcript, m))))
    else Err(InvalidHandshake)
  }

  function StepMessages(p: Provider, s: Suite, serverSecret: seq<byte>, v: Verification,
                        ms: seq<Message>): TlsResult<Verification>
    decreases |ms|
  {
    if ms == [] then Ok(v)
    else
      var first := StepMessage(p, s, serverSecret, v, ms[0]);
      if first.Err? then first else StepMessages(p, s, serverSecret, first.value, ms[1..])
  }

  /** The transcript ends with the last Finished followed by `After(v)`. */
  function After(v: Verification): seq<byte>
    requires v.finish.Some? && |v.finish.value.before| + |v.finish.value.message| <= |v.transcript|
  {
    v.transcript[|v.finish.value.before| + |v.finish.value.message|..]
  }

  /** What holds after any messages: nothing finished yet, or a verified Finished that fixed the next state. */
  ghost predicate Sound(s: Suite, serverSecret: seq<byte>, v: Verification) {
    if v.finish.None? then v.next == ServerVerify
    else
      var f := v.finish.value;
      && f.before + f.message <= v.transcript
      && |f.message| >= 4 && f.message[4..] == VerifyData(s, serverSecret, f.before)
      && (v.next == ClientCert || v.next == ClientFinished)
      && (v.next == ClientCert ==> v.certificateRequest.Some?)
      && (v.next == ClientFinished ==> v.trafficHash == Some(f.before + f.message))
  }

  lemma PrefixExtends(a: seq<byte>, t: seq<byte>, m: seq<byte>)
    requires a <= t
    ensures a <= t + m
  {}

  lemma StepKeepsSound(p: Provider, s: Suite, serverSecret: seq<byte>, v: Verification, m: Message)
    requires Sound(s, serverSecret, v) && StepMessage(p, s, serverSecret, v, m).Ok?
    ensures Sound(s, serverSecret, StepMessage(p, s, serverSecret, v, m).value)
    ensures v.transcript <= StepMessage(p, s, serverSecret, v, m).value.transcript
  {
    hide VerifyData;
    if v.finish.Some? {
      PrefixExtends(v.finish.value.before + v.finish.value.message, v.transcript, m);
    }
  }

  lemma {:induction false} StepsKeepSound(p: Provider, s: Suite, serverSecret: seq<byte>, v: Verification,
                                          ms: seq<Message>)
    requires Sound(s, serverSecret, v) && StepMessages(p, s, serverSecret, v, ms).Ok?
    ensures Sound(s, serverSecret, StepMessages(p, s, serverSecret, v, ms).value)
    ensures v.transcript <= StepMessages(p, s, serverSecret, v, ms).value.transcript
    decreases |ms|
  {
    hide StepMessage, Sound;
    if ms != [] {
      StepKeepsSound(p, s, serverSecret, v, ms[0]);
      StepsKeepSound(p, s, serverSecret, StepMessage(p, s, serverSecret, v, ms[0]).value, ms[1..]);
    }
  }

  predicate Requested(ms: seq<Message>) {
    exists i :: 0 <= i < |ms| && ms[i][0] == CERTIFICATE_REQUEST
  }

  /** The context of the last certificate request. */
  function LastRequest(ms: seq<Message>): Option<seq<byte>> {
    if ms == [] then None
    else if ms[|ms| - 1][0] == CERTIFICATE_REQUEST then RequestContext(ms[|ms| - 1])
    else LastRequest(ms[..|ms| - 1])
  }

  lemma LastRequestPush(ms: seq<Message>, m: Message)
    ensures LastRequest(ms + [m]) == if m[0] == CERTIFICATE_REQUEST then RequestContext(m) else LastRequest(ms)
  {
    assert (ms + [m])[..|ms|] == ms;
  }

  /**
   The last Finished was the `k`-th message of the flight; the client is asked for
   a certificate if a request came before it.
   */
  predicate FinishAt(f: Finish, asked: bool, flight: seq<Message>, g: seq<byte>, k: nat) {
    && k < |flight| && flight[k] == f.message && f.message[0] == FINISHED && NoFinished(flight[k + 1..])
    && f.before == g + Joined(flight[..k]) && (asked <==> Requested(flight[..k]))
  }

  predicate NoFinished(ms: seq<Message>) {
    forall i :: 0 <= i < |ms| ==> ms[i][0] != FINISHED
  }

  predicate IsAuthentication(m: Message) {
    m[0] == CERTIFICATE || m[0] == CERTIFICATE_VERIFY
  }

  /** The `c`-th message is the last of certificates and signatures, and a certificate: it waits for its signature. */
  predicate Pending(ms: seq<Message>, c: nat) {
    c < |ms| && ms[c][0] == CERTIFICATE && forall i :: c < i < |ms| ==> !IsAuthentication(ms[i])
  }

  /** The `c`-th message waits, and `m` is a good signature with its key over the transcript up to it. */
  predicate Signs(judge: Judge, s: Suite, before: seq<Message>, m: Message, g: seq<byte>, c: nat) {
    Pending(before, c)
    && judge.signature(before[c], SignedContent(s, "TLS 1.3, server CertificateVerify", g + Joined(before[..c + 1])), m)
  }

  predicate HeldAt(shown: Shown, flight: seq<Message>, g: seq<byte>, c: nat) {
    Pending(flight, c) && shown == Shown(Some(g + Joined(flight[..c + 1])), Some(flight[c]))
  }

  /** The verifier holds the waiting certificate and the transcript up to it, if one is waiting. */
  ghost predicate Holds(shown: Shown, flight: seq<Message>, g: seq<byte>) {
    if shown.transcript.None? then forall c: nat :: !Pending(flight, c)
    else exists c: nat :: HeldAt(shown, flight, g, c)
  }

  /**
   What the message `m` has to be to be accepted behind the messages `before`, each
   kind by its number in RFC 8446, section 4: EncryptedExtensions, Certificate,
   CertificateRequest, CertificateVerify, Finished.
   */
  ghost predicate Good(p: Provider, s: Suite, serverSecret: seq<byte>, before: seq<Message>, m: Message, g: seq<byte>) {
    && m[0] in {8, 11, 13, 15, 20}
    && (m[0] == 11 && p.judge.Some? ==> p.judge.value.certificate(m))
    && (m[0] == 15 && p.judge.Some? ==>
          exists c: nat :: Signs(p.judge.value, s, before, m, g, c))
    && (m[0] == 13 ==> RequestContext(m).Some?)
    && (m[0] == 20 ==> m[4..] == VerifyData(s, serverSecret, g + Joined(before)))
  }

  /** Every message is good at its place. */
  ghost predicate GoodFlight(p: Provider, s: Suite, serverSecret: seq<byte>, flight: seq<Message>, g: seq<byte>) {
    forall i :: 0 <= i < |flight| ==> Good(p, s, serverSecret, flight[..i], flight[i], g)
  }

  ghost predicate FinishWithin(f: Finish, asked: bool, flight: seq<Message>, g: seq<byte>) {
    exists k: nat :: FinishAt(f, asked, flight, g, k)
  }

  /** The state after the hellos `g` and the messages of the flight so far. */
  ghost predicate History(p: Provider, s: Suite, serverSecret: seq<byte>, v: Verification, flight: seq<Message>,
                          g: seq<byte>)
  {
    && v.transcript == g + Joined(flight)
    && (v.certificateRequest.Some? <==> Requested(flight)) && v.certificateRequest == LastRequest(flight)
    && GoodFlight(p, s, serverSecret, flight, g) && (p.judge.Some? ==> Holds(v.shown, flight, g))
    && (v.finish.None? <==> NoFinished(flight))
    && (v.finish.Some? ==> FinishWithin(v.finish.value, v.next == ClientCert, flight, g))
  }

  lemma RequestedPush(ms: seq<Message>, m: Message)
    ensures Requested(ms + [m]) <==> Requested(ms) || m[0] == CERTIFICATE_REQUEST
  {
    if i :| 0 <= i < |ms| && ms[i][0] == CERTIFICATE_REQUEST {
      assert (ms + [m])[i] == ms[i];
    }
    if m[0] == CERTIFICATE_REQUEST {
      assert (ms + [m])[|ms|] == m;
    }
  }

  lemma NoFinishedPush(ms: seq<Message>, m: Message)
    ensures NoFinished([]) && (NoFinished(ms + [m]) <==> NoFinished(ms) && m[0] != FINISHED)
  {
    assert (ms + [m])[|ms|] == m;
    if NoFinished(ms + [m]) {
      forall i | 0 <= i < |ms|
        ensures ms[i][0] != FINISHED
      {
        assert (ms + [m])[i] == ms[i];
      }
    }
  }

  lemma PendingUnique(ms: seq<Message>, c: nat, d: nat)
    requires Pending(ms, c) && Pending(ms, d)
    ensures c == d
  {}

  lemma PendingPush(ms: seq<Message>, m: Message, c: nat)
    ensures Pending(ms + [m], c) <==>
            if m[0] == CERTIFICATE then c == |ms| else !IsAuthentication(m) && Pending(ms, c)
  {
    var longer := ms + [m];
    assert longer[|ms|] == m;
    assert forall i :: 0 <= i < |ms| ==> longer[i] == ms[i];
  }

  /** The verifier accepts a signature exactly if it is good for the waiting certificate. */
  lemma SignatureIff(judge: Judge, s: Suite, shown: Shown, m: Message, flight: seq<Message>, g: seq<byte>)
    requires Holds(shown, flight, g)
    ensures TakeSignature(judge, s, shown, m).Ok? <==>
            exists c: nat :: Signs(judge, s, flight, m, g, c)
  {
    hide Joined, SignedContent;
    if shown.transcript.Some? {
      var c: nat :| HeldAt(shown, flight, g, c);
      assert TakeSignature(judge, s, shown, m).Ok? ==> Signs(judge, s, flight, m, g, c);
      forall d: nat | Pending(flight, d)
        ensures d == c
      {
        PendingUnique(flight, c, d);
      }
    }
  }

  lemma HoldsPush(p: Provider, s: Suite, serverSecret: seq<byte>, v: Verification, m: Message,
                  flight: seq<Message>, g: seq<byte>)
    requires p.judge.Some? && Holds(v.shown, flight, g) && v.transcript == g + Joined(flight)
    requires StepMessage(p, s, serverSecret, v, m).Ok?
    ensures Holds(StepMessage(p, s, serverSecret, v, m).value.shown, flight + [m], g)
  {
    hide VerifyData, Joined, SignedContent;
    var longer := flight + [m];
    JoinedPush(flight, m);
    SeqRegroup(g, Joined(flight), m);
    forall c: nat
      ensures Pending(longer, c)
              <==> if m[0] == CERTIFICATE then c == |flight| else !IsAuthentication(m) && Pending(flight, c)
    {
      PendingPush(flight, m, c);
    }
    if m[0] == CERTIFICATE {
      assert longer[..|flight| + 1] == longer && longer[|flight|] == m;
      assert HeldAt(StepMessage(p, s, serverSecret, v, m).value.shown, longer, g, |flight|);
    } else if m[0] != CERTIFICATE_VERIFY && v.shown.transcript.Some? {
      var c: nat :| HeldAt(v.shown, flight, g, c);
      PendingIsCertificate(flight, c);
      assert longer[..c + 1] == flight[..c + 1] && longer[c] == flight[c];
      assert HeldAt(v.shown, longer, g, c);
    }
  }

  lemma GoodPush(p: Provider, s: Suite, serverSecret: seq<byte>, flight: seq<Message>, m: Message, g: seq<byte>)
    ensures GoodFlight(p, s, serverSecret, flight + [m], g) <==>
            GoodFlight(p, s, serverSecret, flight, g) && Good(p, s, serverSecret, flight, m, g)
  {
    hide Good;
    var longer := flight + [m];
    assert longer[..|flight|] == flight && longer[|flight|] == m;
    assert forall i :: 0 <= i < |flight| ==> longer[..i] == flight[..i] && longer[i] == flight[i];
  }

  /** One message is accepted exactly if it is good at its place. */
  lemma StepIff(p: Provider, s: Suite, serverSecret: seq<byte>, v: Verification, m: Message,
                flight: seq<Message>, g: seq<byte>)
    requires v.transcript == g + Joined(flight) && (p.judge.Some? ==> Holds(v.shown, flight, g))
    ensures StepMessage(p, s, serverSecret, v, m).Ok? <==> Good(p, s, serverSecret, flight, m, g)
  {
    hide VerifyData, Joined, Pending, Holds, SignedContent, TakeSignature;
    if p.judge.Some? {
      SignatureIff(p.judge.value, s, v.shown, m, flight, g);
    }
  }

  /** The messages of a record are accepted exactly if the flight with them is good. */
  lemma {:induction false} StepsIff(p: Provider, s: Suite, serverSecret: seq<byte>, v: Verification, ms: seq<Message>,
                                    flight: seq<Message>, g: seq<byte>)
    requires History(p, s, serverSecret, v, flight, g)
    ensures StepMessages(p, s, serverSecret, v, ms).Ok? <==> GoodFlight(p, s, serverSecret, flight + ms, g)
    decreases |ms|
  {
    hide StepMessage, Good, Holds, Requested, LastRequest, NoFinished, FinishWithin, Joined, GoodFlight;
    if ms == [] {
      assert flight + ms == flight;
    } else {
      var longer := flight + [ms[0]];
      assert longer + ms[1..] == flight + ms;
      StepIff(p, s, serverSecret, v, ms[0], flight, g);
      GoodPush(p, s, serverSecret, flight, ms[0], g);
      var first := StepMessage(p, s, serverSecret, v, ms[0]);
      if first.Ok? {
        StepHistory(p, s, serverSecret, v, ms[0], flight, g);
        StepsIff(p, s, serverSecret, first.value, ms[1..], longer, g);
      } else {
        GoodFront(p, s, serverSecret, longer, ms[1..], g);
      }
    }
  }

  lemma GoodFront(p: Provider, s: Suite, serverSecret: seq<byte>, front: seq<Message>, back: seq<Message>, g: seq<byte>)
    ensures GoodFlight(p, s, serverSecret, front + back, g) ==> GoodFlight(p, s, serverSecret, front, g)
  {
    hide Good;
    var all := front + back;
    assert forall i :: 0 <= i < |front| ==> all[..i] == front[..i] && all[i] == front[i];
  }

  /** Every message of the server extends the history by exactly itself. */
  lemma StepHistory(p: Provider, s: Suite, serverSecret: seq<byte>, v: Verification, m: Message,
                    flight: seq<Message>, g: seq<byte>)
    requires History(p, s, serverSecret, v, flight, g) && StepMessage(p, s, serverSecret, v, m).Ok?
    ensures History(p, s, serverSecret, StepMessage(p, s, serverSecret, v, m).value, flight + [m], g)
  {
    hide VerifyData, Requested, LastRequest, Joined, Good, GoodFlight, Holds, NoFinished, TakeCertificate;
    hide TakeSignature;
    var w := StepMessage(p, s, serverSecret, v, m).value;
    var longer := flight + [m];
    JoinedPush(flight, m);
    SeqRegroup(g, Joined(flight), m);
    RequestedPush(flight, m);
    LastRequestPush(flight, m);
    StepIff(p, s, serverSecret, v, m, flight, g);
    GoodPush(p, s, serverSecret, flight, m, g);
    if p.judge.Some? {
      HoldsPush(p, s, serverSecret, v, m, flight, g);
    }
    NoFinishedPush(flight, m);
    if m[0] == FINISHED {
      assert longer[..|flight|] == flight && longer[|flight| + 1..] == [];
      assert FinishAt(w.finish.value, w.next == ClientCert, longer, g, |flight|);
    } else if v.finish.Some? {
      var k: nat :| FinishAt(v.finish.value, v.next == ClientCert, flight, g, k);
      assert longer[..k] == flight[..k] && longer[k + 1..] == flight[k + 1..] + [m];
      NoFinishedPush(flight[k + 1..], m);
      assert FinishAt(w.finish.value, w.next == ClientCert, longer, g, k);
    }
  }

  lemma {:induction false} StepsHistory(p: Provider, s: Suite, serverSecret: seq<byte>, v: Verification,
                                        ms: seq<Message>, flight: seq<Message>, g: seq<byte>)
    requires History(p, s, serverSecret, v, flight, g) && StepMessages(p, s, serverSecret, v, ms).Ok?
    ensures History(p, s, serverSecret, StepMessages(p, s, serverSecret, v, ms).value, flight + ms, g)
    decreases |ms|
  {
    hide History, StepMessage;
    if ms == [] {
      assert flight + ms == flight;
    } else {
      StepHistory(p, s, serverSecret, v, ms[0], flight, g);
      StepsHistory(p, s, serverSecret, StepMessage(p, s, serverSecret, v, ms[0]).value, ms[1..], flight + [ms[0]], g);
      assert flight + [ms[0]] + ms[1..] == flight + ms;
    }
  }

  lemma {:induction false} StepsPush(p: Provider, s: Suite, serverSecret: seq<byte>, v: Verification,
                                     ms: seq<Message>, m: Message)
    ensures StepMessages(p, s, serverSecret, v, ms + [m]) ==
            (var so := StepMessages(p, s, serverSecret, v, ms);
             if so.Err? then so else StepMessage(p, s, serverSecret, so.value, m))
    decreases |ms|
  {
    hide StepMessage;
    if ms == [] {
      assert [m][1..] == [];
    } else {
      assert (ms + [m])[1..] == ms[1..] + [m];
      var first := StepMessage(p, s, serverSecret, v, ms[0]);
      if first.Ok? {
        StepsPush(p, s, serverSecret, first.value, ms[1..], m);
      }
    }
  }

  /** Nothing follows the accepted Finished exactly when it is the last message of its record. */
  lemma NothingAfterIff(p: Provider, s: Suite, serverSecret: seq<byte>, v: Verification, ms: seq<Message>)
    requires v.finish.None? && v.next == ServerVerify && StepMessages(p, s, serverSecret, v, ms).Ok?
    requires StepMessages(p, s, serverSecret, v, ms).value.finish.Some?
    ensures var w := StepMessages(p, s, serverSecret, v, ms).value;
            Sound(s, serverSecret, w) && ms != [] && (After(w) == [] <==> ms[|ms| - 1][0] == FINISHED)
  {
    hide VerifyData;
    StepsKeepSound(p, s, serverSecret, v, ms);
    assert ms != [];
    var init, last := ms[..|ms| - 1], ms[|ms| - 1];
    assert ms == init + [last];
    if last[0] == FINISHED {
      FinishedEndsRecord(p, s, serverSecret, v, init, last);
    } else {
      StepsPush(p, s, serverSecret, v, init, last);
      StepsKeepSound(p, s, serverSecret, v, init);
    }
  }

  /** A record whose last message is the Finished leaves nothing after it. */
  lemma FinishedEndsRecord(p: Provider, s: Suite, serverSecret: seq<byte>, v: Verification, ms: seq<Message>,
                           f: Message)
    requires Sound(s, serverSecret, v) && f[0] == FINISHED && StepMessages(p, s, serverSecret, v, ms + [f]).Ok?
    ensures var w := StepMessages(p, s, serverSecret, v, ms + [f]).value;
            Sound(s, serverSecret, w) && w.finish.Some? && After(w) == []
  {
    hide VerifyData;
    StepsPush(p, s, serverSecret, v, ms, f);
    StepsKeepSound(p, s, serverSecret, v, ms + [f]);
  }

  /**
   The server Finished `f` was checked against the transcript before it: the
   hellos `g` and the flight up to it. Together with what followed it in its
   record it makes up the flight, and nothing did exactly if it ended its record.
   */
  ghost predicate Verified(s: Suite, serverSecret: seq<byte>, g: seq<byte>, flight: seq<Message>,
                           lastRecord: seq<Message>, f: Finish, after: seq<byte>, asked: bool)
  {
    && f.before + f.message + after == g + Joined(flight)
    && FinishWithin(f, asked, flight, g)
    && |f.message| >= 4 && f.message[4..] == VerifyData(s, serverSecret, f.before)
    && lastRecord != [] && (after == [] <==> lastRecord[|lastRecord| - 1][0] == FINISHED)
  }

  /**
   The client's certificate messages: none unless asked, and signed over everything
   before when there is a certificate.
   */
  ghost predicate Answers(p: Provider, s: Suite, asked: bool, request: Option<seq<byte>>,
                          transcript: seq<byte>, messages: seq<Message>)
  {
    if !asked then messages == []
    else
      request.Some? &&
      var certificate := CertificateMessage(request.value, p.clientCert);
      if p.clientCert.None? then messages == [certificate]
      else p.signer.Some? &&
           messages == [certificate, CertificateVerifyMessage(p, s, p.signer.value, transcript + certificate)]
  }

  /** All that one record of the server's flight brings about. */
  lemma FlightOutcome(p: Provider, s: Suite, serverSecret: seq<byte>, v: Verification, ms: seq<Message>,
                      g: seq<byte>, flight: seq<Message>)
    requires v.finish.None? && v.next == ServerVerify && History(p, s, serverSecret, v, flight, g)
    requires StepMessages(p, s, serverSecret, v, ms).Ok?
    ensures var w := StepMessages(p, s, serverSecret, v, ms).value;
            History(p, s, serverSecret, w, flight + ms, g) && Sound(s, serverSecret, w)
    ensures var w := StepMessages(p, s, serverSecret, v, ms).value;
            w.finish.Some? ==>
              w.finish.value.before + w.finish.value.message + After(w) == w.transcript
              && Verified(s, serverSecret, g, flight + ms, ms, w.finish.value, After(w), w.next == ClientCert)
  {
    hide StepMessages, VerifyData, Joined, FinishWithin;
    StepsKeepSound(p, s, serverSecret, v, ms);
    StepsHistory(p, s, serverSecret, v, ms, flight, g);
    if StepMessages(p, s, serverSecret, v, ms).value.finish.Some? {
      NothingAfterIff(p, s, serverSecret, v, ms);
    }
  }

  // ---------- what a completed flight says about the server ----------

  /**
   The `j`-th message is a good signature with the key of the `c`-th, a good
   certificate, over the transcript up to that.
   */
  predicate SignedBy(p: Provider, s: Suite, flight: seq<Message>, g: seq<byte>, c: nat, j: nat) {
    && p.judge.Some? && c < j < |flight| && flight[j][0] == CERTIFICATE_VERIFY && Pending(flight[..j], c)
    && p.judge.value.certificate(flight[c])
    && p.judge.value.signature(
         flight[c], SignedContent(s, "TLS 1.3, server CertificateVerify", g + Joined(flight[..c + 1])), flight[j])
  }

  /** A certificate and a signature under its key over the handshake were shown and found good. */
  ghost predicate Authenticated(p: Provider, s: Suite, flight: seq<Message>, g: seq<byte>) {
    exists c: nat, j: nat :: SignedBy(p, s, flight, g, c, j)
  }

  predicate Contains(flight: seq<Message>, kind: byte) {
    exists i :: 0 <= i < |flight| && flight[i][0] == kind
  }

  /** Every signature of an accepted flight was checked with the certificate before it and the transcript up to that. */
  lemma EverySignatureChecked(p: Provider, s: Suite, serverSecret: seq<byte>, flight: seq<Message>, g: seq<byte>,
                              j: nat)
    returns (c: nat)
    requires p.judge.Some? && GoodFlight(p, s, serverSecret, flight, g)
    requires j < |flight| && flight[j][0] == CERTIFICATE_VERIFY
    ensures SignedBy(p, s, flight, g, c, j)
  {
    hide Joined, VerifyData, SignedContent;
    var before := flight[..j];
    assert Good(p, s, serverSecret, before, flight[j], g);
    c :| Signs(p.judge.value, s, before, flight[j], g, c);
    PendingIsCertificate(before, c);
    assert before[c] == flight[c] && before[..c + 1] == flight[..c + 1];
    assert Good(p, s, serverSecret, flight[..c], flight[c], g);
  }

  lemma PendingIsCertificate(ms: seq<Message>, c: nat)
    requires Pending(ms, c)
    ensures c < |ms| && ms[c][0] == CERTIFICATE
  {}

  /** The signature covers everything before it exactly if the certificate comes right before it. */
  lemma SignatureCoversIff(p: Provider, s: Suite, flight: seq<Message>, g: seq<byte>, c: nat, j: nat)
    requires SignedBy(p, s, flight, g, c, j)
    ensures g + Joined(flight[..c + 1]) == g + Joined(flight[..j]) <==> c + 1 == j
  {
    hide Pending, SignedContent;
    assert flight[..j] == flight[..c + 1] + flight[c + 1..j];
    JoinedConcat(flight[..c + 1], flight[c + 1..j]);
    JoinedIsLong(flight[c + 1..j]);
    assert |g + Joined(flight[..j])| == |g + Joined(flight[..c + 1])| + |Joined(flight[c + 1..j])|;
  }

  lemma JoinedIsLong(ms: seq<Message>)
    ensures Joined(ms) == [] <==> ms == []
  {}

  /** With a verifier, an accepted flight authenticates the server exactly if it holds a CertificateVerify. */
  lemma AuthenticatedIff(p: Provider, s: Suite, serverSecret: seq<byte>, flight: seq<Message>, g: seq<byte>)
    requires p.judge.Some? && GoodFlight(p, s, serverSecret, flight, g)
    ensures Authenticated(p, s, flight, g) <==> Contains(flight, CERTIFICATE_VERIFY)
  {
    hide Joined, Pending, Good, GoodFlight, SignedContent;
    if Contains(flight, CERTIFICATE_VERIFY) {
      var j: nat :| j < |flight| && flight[j][0] == CERTIFICATE_VERIFY;
      var c := EverySignatureChecked(p, s, serverSecret, flight, g, j);
    }
  }

  /** A flight without either completes all the same: the state machine asks for the Finished only. */
  lemma FinishedIsEnough(p: Provider, s: Suite, serverSecret: seq<byte>, v: Verification, e: Message, f: Message)
    requires e[0] == ENCRYPTED_EXTENSIONS && f[0] == FINISHED
    requires f[4..] == VerifyData(s, serverSecret, v.transcript + e) && v.certificateRequest.None?
    ensures var w := StepMessages(p, s, serverSecret, v, [e, f]);
            w.Ok? && w.value.next == ClientFinished
            && !Contains([e, f], CERTIFICATE) && !Contains([e, f], CERTIFICATE_VERIFY)
  {
    hide VerifyData;
    var w1 := StepMessage(p, s, serverSecret, v, e).value;
    assert StepMessage(p, s, serverSecret, w1, f).value.next == ClientFinished;
    assert [e, f][1..] == [f] && [f][1..] == [];
    assert StepMessages(p, s, serverSecret, w1, [f]) == StepMessage(p, s, serverSecret, w1, f);
  }

  // ---------- the records the messages come in ----------

  /** The handshake messages a record carries. */
  function MessagesIn(record: Record): seq<Message> {
    match record
    case PlainHandshake(message) => [message]
    case Encrypted(messages, _) => messages
    case _ => []
  }

  function MessagesOf(records: seq<Record>): seq<Message> {
    if records == [] then [] else MessagesOf(records[..|records| - 1]) + MessagesIn(records[|records| - 1])
  }

  /** The messages that came encrypted. */
  function Protected(records: seq<Record>): seq<Message> {
    if records == [] then []
    else
      var last := records[|records| - 1];
      Protected(records[..|records| - 1]) + if last.Encrypted? then last.messages else []
  }

  /** All messages came encrypted exactly if no record was a plaintext one. */
  lemma {:induction false} ProtectedIff(records: seq<Record>)
    ensures |Protected(records)| <= |MessagesOf(records)|
    ensures Protected(records) == MessagesOf(records)
            <==> forall i :: 0 <= i < |records| ==> !records[i].PlainHandshake?
  {
    if records != [] {
      var n := |records| - 1;
      var init, last := records[..n], records[n];
      ProtectedIff(init);
      assert forall i :: 0 <= i < n ==> records[i] == init[i];
      if |Protected(init)| == |MessagesOf(init)| && !last.PlainHandshake? && Protected(records) == MessagesOf(records) {
        assert Protected(init) == Protected(records)[..|Protected(init)|] == MessagesOf(records)[..|MessagesOf(init)|];
      }
    }
  }

  lemma MessagesPush(records: seq<Record>, record: Record)
    ensures MessagesOf(records + [record]) == MessagesOf(records) + MessagesIn(record)
  {
    assert (records + [record])[..|records|] == records;
  }

  lemma {:induction false} MessagesFirst(records: seq<Record>)
    requires records != []
    ensures MessagesOf(records) == MessagesIn(records[0]) + MessagesOf(records[1..])
  {
    hide MessagesIn;
    var n := |records| - 1;
    if n == 0 {
      assert records[..0] == [] && records[1..] == [];
    } else {
      var init, last := records[..n], records[n];
      MessagesFirst(init);
      assert init[1..] == records[1..n] && records[1..] == records[1..n] + [last] && records == init + [last];
      MessagesPush(records[1..n], last);
      MessagesPush(init, last);
      SeqRegroup(MessagesIn(records[0]), MessagesOf(records[1..n]), MessagesIn(last));
    }
  }

  /** A message after the Finished in its record is in the transcript but not in the snapshot. */
  lemma TrailingMessage(p: Provider, s: Suite, serverSecret: seq<byte>, v: Verification, f: Message, e: Message)
    requires f[0] == FINISHED && e[0] == ENCRYPTED_EXTENSIONS
    requires f[4..] == VerifyData(s, serverSecret, v.transcript) && v.certificateRequest.None?
    ensures var w := StepMessages(p, s, serverSecret, v, [f, e]);
            w.Ok? && w.value.next == ClientFinished && w.value.trafficHash == Some(v.transcript + f)
            && w.value.transcript == v.transcript + f + e && w.value.transcript != v.transcript + f
  {
    hide VerifyData;
    var w1 := StepMessage(p, s, serverSecret, v, f).value;
    assert StepMessage(p, s, serverSecret, w1, e) == Ok(w1.(transcript := w1.transcript + e));
    assert [f, e][1..] == [e] && [e][1..] == [];
    assert StepMessages(p, s, serverSecret, w1, [e]) == StepMessage(p, s, serverSecret, w1, e);
    assert |v.transcript + f + e| > |v.transcript + f|;
  }
}
