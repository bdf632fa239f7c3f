/**
 When a handshake completes: a condition on the records the server sends and on
 the size of the write buffer, first step by step and then in one piece.
 */
module TlsCompleting {
  import opened Bytes
  import opened TlsHandshake
  import opened TlsKeySchedule
  import opened TlsRecords
  import opened TlsVerifying
  import opened Wrappers

  // ---------- the client's hello ----------

  function PskKey(config: Config): Option<seq<byte>> {
    if config.psk.Some? then Some(config.psk.value.key) else None
  }

  function BindersLength(config: Config, s: Suite): nat {
    if config.psk.Some? then config.psk.value.identities * (1 + s.hashLen) else 0
  }

  function Repeat(part: seq<byte>, n: nat): (r: seq<byte>)
    ensures |r| == n * |part|
  {
    if n == 0 then [] else Repeat(part, n - 1) + part
  }

  /** The hello as sent: each binder covers everything before the binders' length (RFC 8446, section 4.2.11.2). */
  function FinalHello(config: Config, s: Suite): seq<byte>
    requires BindersLength(config, s) + 2 <= |config.hello|
  {
    if config.psk.None? then config.hello
    else
      var pos := |config.hello| - BindersLength(config, s);
      var binderKey := DeriveSecret(s, EarlySecret(s, PskKey(config)), "ext binder", []);
      var binder := VerifyData(s, binderKey, config.hello[..pos - 2]);
      config.hello[..pos] + Repeat([s.hashLen % 256] + binder, config.psk.value.identities)
  }

  // ---------- what the client needs of the server ----------

  predicate Receivable(record: Record) {
    !record.Unreadable? && !record.AlertReceived? && (record.Encrypted? ==> record.stop.None?)
  }

  predicate IsServerHello(p: Provider, config: Config, record: Record) {
    && record.PlainHandshake? && record.message[0] == 2
    && p.sharedSecret(config.secret, record.message).Some?
  }

  /** The server's handshake traffic secret, over both hellos. */
  function ServerSecret(p: Provider, s: Suite, config: Config, hello: Record): seq<byte>
    requires BindersLength(config, s) + 2 <= |config.hello| && IsServerHello(p, config, hello)
  {
    var dhe := p.sharedSecret(config.secret, hello.message).value;
    DeriveSecret(s, HandshakeSecret(s, PskKey(config), dhe), "s hs traffic", FinalHello(config, s) + hello.message)
  }

  // ---------- what the client's own messages need ----------

  predicate FitsSealed(capacity: nat, m: Message) {
    HEADER_SIZE + |m| + 1 + TAG_SIZE <= capacity
  }

  predicate SignatureFits(p: Provider, s: Suite, capacity: nat, transcript: seq<byte>) {
    p.signer.Some? && FitsSealed(capacity, CertificateVerifyMessage(p, s, p.signer.value, transcript))
  }

  predicate CertificateFits(p: Provider, s: Suite, capacity: nat, request: Option<seq<byte>>, transcript: seq<byte>) {
    request.Some? &&
    var certificate := CertificateMessage(request.value, p.clientCert);
    FitsSealed(capacity, certificate)
      && (p.clientCert.Some? ==> SignatureFits(p, s, capacity, transcript + certificate))
  }

  predicate FinishedFits(s: Suite, capacity: nat) {
    HEADER_SIZE + 4 + s.hashLen + 1 + TAG_SIZE <= capacity
  }

  predicate Replies(p: Provider, s: Suite, capacity: nat, asked: bool, request: Option<seq<byte>>,
                    transcript: seq<byte>)
  {
    (asked ==> CertificateFits(p, s, capacity, request, transcript)) && FinishedFits(s, capacity)
  }

  // ---------- step by step ----------

  function Fresh(g: seq<byte>): Verification {
    Verification(g, None, None, Shown(None, None), ServerVerify, None)
  }

  predicate FlightCompletes(p: Provider, s: Suite, serverSecret: seq<byte>, capacity: nat, v: Verification,
                            records: seq<Record>)
    decreases |records|
  {
    records != [] && Receivable(records[0]) &&
    var w := StepMessages(p, s, serverSecret, v, MessagesIn(records[0]));
    w.Ok? &&
    if w.value.finish.None? then FlightCompletes(p, s, serverSecret, capacity, w.value, records[1..])
    else Replies(p, s, capacity, w.value.next == ClientCert, w.value.certificateRequest, w.value.transcript)
  }

  predicate HelloCompletes(p: Provider, s: Suite, config: Config, capacity: nat, records: seq<Record>)
    requires BindersLength(config, s) + 2 <= |config.hello|
  {
    && records != [] && IsServerHello(p, config, records[0])
    && FlightCompletes(p, s, ServerSecret(p, s, config, records[0]), capacity,
                       Fresh(FinalHello(config, s) + records[0].message), records[1..])
  }

  // ---------- in one piece ----------

  /** A certificate request came before the last Finished. */
  ghost predicate Asked(flight: seq<Message>) {
    exists k: nat :: AskedAt(flight, k)
  }

  predicate AskedAt(flight: seq<Message>, k: nat) {
    k < |flight| && flight[k][0] == FINISHED && NoFinished(flight[k + 1..]) && Requested(flight[..k])
  }

  /**
   The first `n` records are received, the last of them the first with a
   Finished, all messages are good at their places, and the client's answer fits
   its buffer; `front` are messages received before.
   */
  ghost predicate Ends(p: Provider, s: Suite, serverSecret: seq<byte>, capacity: nat, g: seq<byte>, front: seq<Message>,
                       records: seq<Record>, n: nat)
  {
    && 1 <= n <= |records| && (forall i :: 0 <= i < n ==> Receivable(records[i]))
    && NoFinished(front + MessagesOf(records[..n - 1])) && !NoFinished(MessagesIn(records[n - 1]))
    && var flight := front + MessagesOf(records[..n]);
       && GoodFlight(p, s, serverSecret, flight, g)
       && Replies(p, s, capacity, Asked(flight), LastRequest(flight), g + Joined(flight))
  }

  /** The records complete the handshake, the hello and `n` more of them. */
  ghost predicate Completes(p: Provider, s: Suite, config: Config, capacity: nat, records: seq<Record>, n: nat)
    requires BindersLength(config, s) + 2 <= |config.hello|
  {
    && HEADER_SIZE + |FinalHello(config, s)| <= capacity && records != [] && IsServerHello(p, config, records[0])
    && Ends(p, s, ServerSecret(p, s, config, records[0]), capacity, FinalHello(config, s) + records[0].message, [],
            records[1..], n)
  }

  /** The place of the last Finished decides, whichever way it is named. */
  lemma AskedIff(f: Finish, asked: bool, flight: seq<Message>, g: seq<byte>)
    requires FinishWithin(f, asked, flight, g)
    ensures Asked(flight) <==> asked
  {
    hide Joined, Requested, NoFinished;
    var k: nat :| FinishAt(f, asked, flight, g, k);
    if asked {
      assert AskedAt(flight, k);
    }
    if i: nat :| AskedAt(flight, i) {
      OnlyLast(flight, i, k);
    }
  }

  lemma FinishedBehind(flight: seq<Message>, i: nat, k: nat)
    requires i < k < |flight| && flight[k][0] == FINISHED
    ensures !NoFinished(flight[i + 1..])
  {
    assert flight[i + 1..][k - i - 1] == flight[k];
  }

  lemma OnlyLast(flight: seq<Message>, i: nat, k: nat)
    requires i < |flight| && k < |flight| && flight[i][0] == FINISHED && flight[k][0] == FINISHED
    requires NoFinished(flight[i + 1..]) && NoFinished(flight[k + 1..])
    ensures i == k
  {
    if i < k {
      FinishedBehind(flight, i, k);
    } else if k < i {
      FinishedBehind(flight, k, i);
    }
  }

  lemma NoFinishedConcat(a: seq<Message>, b: seq<Message>)
    ensures NoFinished(a + b) <==> NoFinished(a) && NoFinished(b)
  {
    var all := a + b;
    if NoFinished(all) {
      assert forall i :: 0 <= i < |a| ==> a[i] == all[i];
      assert forall i :: 0 <= i < |b| ==> b[i] == all[|a| + i];
    }
  }

  /** Messages of the first records, with the first record taken off. */
  lemma FrontMessages(front: seq<Message>, records: seq<Record>, n: nat)
    requires 1 <= n <= |records|
    ensures front + MessagesOf(records[..n]) == front + MessagesIn(records[0]) + MessagesOf(records[1..][..n - 1])
  {
    MessagesFirst(records[..n]);
    assert records[..n][1..] == records[1..][..n - 1];
    SeqRegroup(front, MessagesIn(records[0]), MessagesOf(records[1..][..n - 1]));
  }

  lemma NoMessages(front: seq<Message>, records: seq<Record>)
    ensures front + MessagesOf(records[..0]) == front
  {}

  /** The first record has the Finished: nothing more is read. */
  lemma EndsNow(p: Provider, s: Suite, serverSecret: seq<byte>, capacity: nat, v: Verification, g: seq<byte>,
                front: seq<Message>, records: seq<Record>)
    requires records != [] && History(p, s, serverSecret, v, front, g) && v.finish.None? && v.next == ServerVerify
    requires !NoFinished(MessagesIn(records[0]))
    ensures FlightCompletes(p, s, serverSecret, capacity, v, records)
            <==> Ends(p, s, serverSecret, capacity, g, front, records, 1)
  {
    hide StepMessages, Joined, Good, GoodFlight, Holds, Requested, LastRequest, NoFinished, FinishWithin;
    hide Replies, Receivable;
    hide MessagesOf, MessagesIn, Asked, Sound, Verified, VerifyData;
    var ms := MessagesIn(records[0]);
    FrontMessages(front, records, 1);
    assert front + ms + MessagesOf(records[1..][..0]) == front + ms by { NoMessages(front + ms, records[1..]); }
    NoMessages(front, records);
    StepsIff(p, s, serverSecret, v, ms, front, g);
    if StepMessages(p, s, serverSecret, v, ms).Ok? {
      var w := StepMessages(p, s, serverSecret, v, ms).value;
      FlightOutcome(p, s, serverSecret, v, ms, g, front);
      NoFinishedConcat(front, ms);
      AskedIff(w.finish.value, w.next == ClientCert, front + ms, g);
    }
  }

  lemma EndsLater(p: Provider, s: Suite, serverSecret: seq<byte>, capacity: nat, g: seq<byte>,
                  front: seq<Message>, records: seq<Record>, n: nat)
    requires records != [] && NoFinished(front) && NoFinished(MessagesIn(records[0])) && Receivable(records[0])
    ensures Ends(p, s, serverSecret, capacity, g, front, records, n + 1)
            <==> Ends(p, s, serverSecret, capacity, g, front + MessagesIn(records[0]), records[1..], n)
  {
    hide Joined, Good, GoodFlight, Requested, LastRequest, NoFinished, Replies, Receivable, MessagesOf;
    hide MessagesIn, Asked;
    if 1 <= n <= |records[1..]| {
      FrontMessages(front, records, n + 1);
      FrontMessages(front, records, n);
      assert records[1..][n - 1] == records[n];
      assert (forall i :: 0 <= i < n ==> Receivable(records[1..][i]))
             ==> forall i :: 0 <= i < n + 1 ==> Receivable(records[i]) by {
        assert forall i :: 0 < i < n + 1 ==> records[i] == records[1..][i - 1];
      }
    }
  }

  lemma EndsBounds(p: Provider, s: Suite, serverSecret: seq<byte>, capacity: nat, g: seq<byte>,
                   front: seq<Message>, records: seq<Record>, n: nat)
    requires Ends(p, s, serverSecret, capacity, g, front, records, n)
    ensures 1 <= n <= |records| && Receivable(records[0])
    ensures n == 1 <==> !NoFinished(MessagesIn(records[0]))
    ensures GoodFlight(p, s, serverSecret, front + MessagesIn(records[0]), g)
  {
    hide Joined, Good, GoodFlight, Requested, LastRequest, NoFinished, Replies, Receivable, MessagesOf;
    hide MessagesIn, Asked;
    FrontMessages(front, records, n);
    GoodFront(p, s, serverSecret, front + MessagesIn(records[0]), MessagesOf(records[1..][..n - 1]), g);
    if n > 1 {
      FrontMessages(front, records, n - 1);
      NoFinishedConcat(front + MessagesIn(records[0]), MessagesOf(records[1..][..n - 2]));
      NoFinishedConcat(front, MessagesIn(records[0]));
    }
  }

  /** The records complete the handshake step by step exactly if some number of them does in one piece. */
  lemma {:induction false} FlightCompletesIff(p: Provider, s: Suite, serverSecret: seq<byte>, capacity: nat,
                                              v: Verification, g: seq<byte>, front: seq<Message>, records: seq<Record>)
    requires History(p, s, serverSecret, v, front, g) && v.finish.None? && v.next == ServerVerify
    ensures FlightCompletes(p, s, serverSecret, capacity, v, records)
            <==> exists n: nat :: Ends(p, s, serverSecret, capacity, g, front, records, n)
    decreases |records|
  {
    hide StepMessages, Joined, Good, GoodFlight, Holds, Requested, LastRequest, NoFinished, FinishWithin, Replies;
    hide Receivable, MessagesOf, MessagesIn, Asked, Sound, Verified, VerifyData, Ends;
    forall n: nat | Ends(p, s, serverSecret, capacity, g, front, records, n)
      ensures records != [] && n >= 1 && Receivable(records[0]) && (n == 1 <==> !NoFinished(MessagesIn(records[0])))
      ensures GoodFlight(p, s, serverSecret, front + MessagesIn(records[0]), g)
    {
      EndsBounds(p, s, serverSecret, capacity, g, front, records, n);
    }
    if records != [] && Receivable(records[0]) {
      var ms := MessagesIn(records[0]);
      StepsIff(p, s, serverSecret, v, ms, front, g);
      if !NoFinished(ms) {
        EndsNow(p, s, serverSecret, capacity, v, g, front, records);
      } else if StepMessages(p, s, serverSecret, v, ms).Ok? {
        var w := StepMessages(p, s, serverSecret, v, ms).value;
        FlightOutcome(p, s, serverSecret, v, ms, g, front);
        NoFinishedConcat(front, ms);
        StillOpen(s, serverSecret, w);
        FlightCompletesIff(p, s, serverSecret, capacity, w, g, front + ms, records[1..]);
        if n: nat :| Ends(p, s, serverSecret, capacity, g, front + ms, records[1..], n) {
          EndsLater(p, s, serverSecret, capacity, g, front, records, n);
        }
        if n: nat :| Ends(p, s, serverSecret, capacity, g, front, records, n) {
          EndsLater(p, s, serverSecret, capacity, g, front, records, n - 1);
        }
      }
    }
  }

  lemma StillOpen(s: Suite, serverSecret: seq<byte>, w: Verification)
    requires Sound(s, serverSecret, w) && w.finish.None?
    ensures w.next == ServerVerify
  {}

  /** Nothing is received yet. */
  lemma FreshHistory(p: Provider, s: Suite, serverSecret: seq<byte>, g: seq<byte>)
    ensures History(p, s, serverSecret, Fresh(g), [], g)
  {
    assert g + Joined([]) == g;
  }

  lemma HelloCompletesIff(p: Provider, s: Suite, config: Config, capacity: nat, records: seq<Record>)
    requires BindersLength(config, s) + 2 <= |config.hello|
    ensures HEADER_SIZE + |FinalHello(config, s)| <= capacity && HelloCompletes(p, s, config, capacity, records)
            <==> exists n: nat :: Completes(p, s, config, capacity, records, n)
  {
    hide FlightCompletes, Ends, History, FinalHello, ServerSecret;
    if records != [] && IsServerHello(p, config, records[0]) {
      var secret, g := ServerSecret(p, s, config, records[0]), FinalHello(config, s) + records[0].message;
      FreshHistory(p, s, secret, g);
      FlightCompletesIff(p, s, secret, capacity, Fresh(g), g, [], records[1..]);
      if n: nat :| Ends(p, s, secret, capacity, g, [], records[1..], n) {
        assert HEADER_SIZE + |FinalHello(config, s)| <= capacity ==> Completes(p, s, config, capacity, records, n);
      }
    }
  }

  /** The shortest handshake: EncryptedExtensions and a Finished over it, whoever checks certificates. */
  lemma ShortestHandshake(p: Provider, s: Suite, config: Config, capacity: nat, hello: Record, e: Message, f: Message)
    requires BindersLength(config, s) + 2 <= |config.hello| && IsServerHello(p, config, hello)
    requires HEADER_SIZE + |FinalHello(config, s)| <= capacity && FinishedFits(s, capacity)
    requires e[0] == ENCRYPTED_EXTENSIONS && f[0] == FINISHED
    requires f[4..] == VerifyData(s, ServerSecret(p, s, config, hello), FinalHello(config, s) + hello.message + e)
    ensures Completes(p, s, config, capacity, [hello, Encrypted([e, f], None)], 1)
  {
    hide VerifyData, ServerSecret, FinalHello, Joined, Ends, Good;
    var records, secret := [hello, Encrypted([e, f], None)], ServerSecret(p, s, config, hello);
    var g, v := FinalHello(config, s) + hello.message, Fresh(FinalHello(config, s) + hello.message);
    assert records[1..] == [Encrypted([e, f], None)];
    FinishedIsEnough(p, s, secret, v, e, f);
    FreshHistory(p, s, secret, g);
    FlightOutcome(p, s, secret, v, [e, f], g, []);
    assert [] + [e, f] == [e, f] && [e, f][1] == f;
    FlightCompletesIff(p, s, secret, capacity, v, g, [], records[1..]);
    var n: nat :| Ends(p, s, secret, capacity, g, [], records[1..], n);
    EndsBounds(p, s, secret, capacity, g, [], records[1..], n);
  }

  // ---------- protection makes no difference ----------

  /** Records that carry the same messages, each in the clear or encrypted as it may be. */
  predicate SameMessages(records: seq<Record>, others: seq<Record>) {
    |records| == |others| && forall i :: 0 <= i < |records| ==>
      MessagesIn(records[i]) == MessagesIn(others[i]) && (Receivable(records[i]) <==> Receivable(others[i]))
  }

  lemma {:induction false} SameFlight(records: seq<Record>, others: seq<Record>)
    requires SameMessages(records, others)
    ensures MessagesOf(records) == MessagesOf(others)
  {
    hide MessagesIn, Receivable;
    if records != [] {
      SameFlight(records[..|records| - 1], others[..|others| - 1]);
    }
  }

  /** The server's flight completes a handshake in the clear exactly if it does encrypted. */
  lemma PlainFlightIff(p: Provider, s: Suite, config: Config, capacity: nat, hello: Record,
                       records: seq<Record>, others: seq<Record>, n: nat)
    requires BindersLength(config, s) + 2 <= |config.hello| && SameMessages(records, others)
    ensures Completes(p, s, config, capacity, [hello] + records, n)
            <==> Completes(p, s, config, capacity, [hello] + others, n)
  {
    hide MessagesIn, MessagesOf, Receivable, GoodFlight, Replies, NoFinished, FinalHello, ServerSecret;
    hide IsServerHello, Joined;
    hide LastRequest, Asked;
    assert ([hello] + records)[1..] == records && ([hello] + others)[1..] == others;
    if 1 <= n <= |records| {
      SameFlight(records[..n], others[..n]);
      SameFlight(records[..n - 1], others[..n - 1]);
    }
  }
}
