/**
 The stream of a server that follows the standard, byte by byte: it is understood
 as the messages the server meant, and it completes the handshake whenever they do.
 */
module TlsHonestServer {
  import opened Bytes
  import opened TlsCompleting
  import opened TlsHandshake
  import opened TlsKeySchedule
  import opened TlsRecords
  import opened TlsRoundTrip
  import opened TlsServerRecords
  import opened Wrappers

  /** The hello's record: a handshake record in the clear. */
  function HelloBytes(hello: Message): seq<byte> {
    [22, 3, 3, |hello| / 256 % 256, |hello| % 256] + hello
  }

  /** Each group of messages is one encrypted record. */
  function Protecting(groups: seq<seq<Message>>): (inners: seq<Inner>)
    ensures |inners| == |groups| && forall i :: 0 <= i < |groups| ==> inners[i] == Inner(Joined(groups[i]), 22)
  {
    seq(|groups|, i requires 0 <= i < |groups| => Inner(Joined(groups[i]), 22))
  }

  function AsSent(groups: seq<seq<Message>>): (records: seq<Record>)
    ensures |records| == |groups| && forall i :: 0 <= i < |groups| ==> records[i] == Encrypted(groups[i], None)
  {
    seq(|groups|, i requires 0 <= i < |groups| => Encrypted(groups[i], None))
  }

  /** The messages can be parsed, and fit a record and the client's buffer. */
  ghost predicate Sendable(p: Provider, s: Suite, ms: seq<Message>, capacity: nat) {
    && |Joined(ms)| + 1 + TAG_SIZE <= MaxSealed(capacity)
    && forall i :: 0 <= i < |ms| ==> Whole(p, s, ms[i])
  }

  /** Sealed under the counter it is opened with, a record is split off and opened again. */
  lemma SealedRecordOpens(keys: Keys, inner: Inner, rest: seq<byte>, capacity: nat)
    requires Lawful(keys.aead) && inner.contentType == 22 && |inner.data| + 1 + TAG_SIZE <= MaxSealed(capacity)
    ensures var header, cipher := Header(|inner.data| + 1 + TAG_SIZE), Ciphertext(keys, inner);
            && TlsReading.ParseRecord(SealRecord(keys, inner) + rest, capacity)
               == Ok(TlsReading.Parsed(header, cipher, rest))
            && TlsReading.Opened(keys, header, cipher) == Ok(inner)
  {
    hide Nonce, Unwrap, TlsReading.ParseRecord;
    var cipher := Ciphertext(keys, inner);
    CarriedParses([23, 3, 3], cipher, rest, capacity);
    UnwrapPadded(inner, 0);
    assert inner.data + [inner.contentType] + Zeros(0) == inner.data + [inner.contentType];
  }

  /** And arrives with its messages. */
  lemma SealedRecordTaken(p: Provider, s: Suite, keys: Keys, ms: seq<Message>, rest: seq<byte>, capacity: nat)
    returns (raw: Raw)
    requires Lawful(keys.aead) && Sendable(p, s, ms, capacity)
    ensures Raws(SealRecord(keys, Inner(Joined(ms), 22)) + rest, capacity) == [raw] + Raws(rest, capacity)
    ensures IsSealed(raw) && Taken(p, s, keys, raw) == Encrypted(ms, None)
  {
    hide Nonce, Joined, Whole, SealRecord, Ciphertext, TlsReading.ParseRecord, TlsReading.Opened, Lawful;
    var inner := Inner(Joined(ms), 22);
    raw := Raw(Header(|inner.data| + 1 + TAG_SIZE), Ciphertext(keys, inner));
    SealedRecordOpens(keys, inner, rest, capacity);
    CoalesceJoined(p, s, ms, []);
    assert Joined(ms) + [] == Joined(ms) && ms + [] == ms && Coalesce(p, s, []) == Coalesced([], None);
  }

  /** So does a whole stream of them, the i-th sealed under counter i. */
  lemma {:induction false} StreamTaken(p: Provider, s: Suite, keys: Keys, groups: seq<seq<Message>>, rest: seq<byte>,
                                       capacity: nat)
    requires Lawful(keys.aead) && forall i :: 0 <= i < |groups| ==> Sendable(p, s, groups[i], capacity)
    ensures TakenAll(p, s, keys, Raws(SealStream(keys, Protecting(groups)) + rest, capacity))
            == AsSent(groups) + TakenAll(p, s, Advance(keys, |groups|), Raws(rest, capacity))
    decreases |groups|
  {
    hide Sendable, Raws, Taken, Nonce, SealRecord, SealStream, TakenAll, Protecting, AsSent, Lawful;
    if groups == [] {
      NothingSealed(keys);
      assert [] + rest == rest && Advance(keys, 0) == keys && AsSent(groups) == [];
    } else {
      var tail, behind := groups[1..], Advance(keys, |groups|);
      var first := SealRecord(keys, Inner(Joined(groups[0]), 22));
      var sealed := SealStream(Advance(keys, 1), Protecting(tail));
      GroupsTail(groups);
      FirstRecord(keys, Protecting(groups));
      SeqRegroup(first, sealed, rest);
      var raw := SealedRecordTaken(p, s, keys, groups[0], sealed + rest, capacity);
      TakenFirst(p, s, keys, raw, Raws(sealed + rest, capacity));
      StreamTaken(p, s, Advance(keys, 1), tail, rest, capacity);
      assert Advance(Advance(keys, 1), |tail|) == behind;
      SeqRegroup([Encrypted(groups[0], None)], AsSent(tail), TakenAll(p, s, behind, Raws(rest, capacity)));
    }
  }

  lemma NothingSealed(keys: Keys)
    ensures SealStream(keys, Protecting([])) == []
  {}

  lemma GroupsTail(groups: seq<seq<Message>>)
    requires groups != []
    ensures Protecting(groups)[0] == Inner(Joined(groups[0]), 22)
    ensures Protecting(groups)[1..] == Protecting(groups[1..])
    ensures AsSent(groups) == [Encrypted(groups[0], None)] + AsSent(groups[1..])
  {}

  lemma HelloTaken(p: Provider, s: Suite, hello: Message, rest: seq<byte>, capacity: nat) returns (raw: Raw)
    requires Whole(p, s, hello) && |hello| <= 0xffff && |hello| <= capacity
    ensures Raws(HelloBytes(hello) + rest, capacity) == [raw] + Raws(rest, capacity)
    ensures Clear(p, s, raw) == PlainHandshake(hello)
  {
    var header := [22, 3, 3] + U16Bytes(|hello|);
    raw := Raw(header, hello);
    CarriedParses([22, 3, 3], hello, rest, capacity);
    assert HelloBytes(hello) == header + hello;
    assert MessageAt(p, s, hello + []) == Ok(|hello|) && hello + [] == hello;
  }

  /** All the server sends up to its Finished. */
  function ServerBytes(keys: Keys, hello: Message, groups: seq<seq<Message>>): seq<byte> {
    HelloBytes(hello) + SealStream(keys, Protecting(groups))
  }

  /** The client hears the hello and the groups of messages as they were sent, whatever comes behind them. */
  lemma HeardAsSent(p: Provider, s: Suite, config: Config, aead: Aead, hello: Message, groups: seq<seq<Message>>,
                    rest: seq<byte>, capacity: nat)
    requires BindersLength(config, s) + 2 <= |config.hello| && LawfulSuite(s) && Lawful(aead)
    requires IsServerHello(p, config, PlainHandshake(hello))
    requires Whole(p, s, hello) && |hello| <= 0xffff && |hello| <= capacity
    requires forall i :: 0 <= i < |groups| ==> Sendable(p, s, groups[i], capacity)
    ensures var keys := ServerKeys(p, s, config, aead, PlainHandshake(hello));
            Heard(p, s, config, aead, Raws(ServerBytes(keys, hello, groups) + rest, capacity))
            == [PlainHandshake(hello)] + AsSent(groups)
               + TakenAll(p, s, Advance(keys, |groups|), Raws(rest, capacity))
  {
    hide Lawful, LawfulSuite, Whole, Sendable, Clear, TakenAll, Raws, SealStream, IsServerHello;
    var keys := ServerKeys(p, s, config, aead, PlainHandshake(hello));
    var later := SealStream(keys, Protecting(groups)) + rest;
    SeqRegroup(HelloBytes(hello), SealStream(keys, Protecting(groups)), rest);
    var raw := HelloTaken(p, s, hello, later, capacity);
    StreamTaken(p, s, keys, groups, rest, capacity);
    assert ([raw] + Raws(later, capacity))[1..] == Raws(later, capacity);
    SeqRegroup([PlainHandshake(hello)], AsSent(groups), TakenAll(p, s, Advance(keys, |groups|), Raws(rest, capacity)));
  }

  /** What comes after the last record that is taken makes no difference. */
  lemma CompletesEarly(p: Provider, s: Suite, config: Config, capacity: nat, records: seq<Record>, more: seq<Record>,
                       n: nat)
    requires BindersLength(config, s) + 2 <= |config.hello| && n < |records|
    ensures Completes(p, s, config, capacity, records + more, n) <==> Completes(p, s, config, capacity, records, n)
  {
    hide Receivable, MessagesOf, MessagesIn, NoFinished, GoodFlight, Replies, FinalHello, ServerSecret, Joined, Asked;
    hide IsServerHello, LastRequest;
    var all, flight := (records + more)[1..], records[1..];
    assert all[..n] == flight[..n];
    assert forall i :: 0 <= i < n ==> all[i] == flight[i];
    if n > 0 {
      assert all[..n - 1] == flight[..n - 1];
    }
  }

  /**
   On the bytes of an honest server the handshake completes exactly if it does on
   the messages they carry.
   */
  lemma HonestServerIff(p: Provider, s: Suite, config: Config, aead: Aead, hello: Message, groups: seq<seq<Message>>,
                        rest: seq<byte>, sendCapacity: nat, capacity: nat, n: nat)
    requires BindersLength(config, s) + 2 <= |config.hello| && LawfulSuite(s) && Lawful(aead)
    requires IsServerHello(p, config, PlainHandshake(hello)) && n <= |groups|
    requires Whole(p, s, hello) && |hello| <= 0xffff && |hello| <= capacity
    requires forall i :: 0 <= i < |groups| ==> Sendable(p, s, groups[i], capacity)
    ensures var keys := ServerKeys(p, s, config, aead, PlainHandshake(hello));
            var heard := Heard(p, s, config, aead, Raws(ServerBytes(keys, hello, groups) + rest, capacity));
            Completes(p, s, config, sendCapacity, heard, n)
            <==> Completes(p, s, config, sendCapacity, [PlainHandshake(hello)] + AsSent(groups), n)
  {
    hide Lawful, LawfulSuite, Whole, Sendable, TakenAll, Raws, SealStream, IsServerHello, Completes, Heard;
    HeardAsSent(p, s, config, aead, hello, groups, rest, capacity);
    var keys := ServerKeys(p, s, config, aead, PlainHandshake(hello));
    CompletesEarly(p, s, config, sendCapacity, [PlainHandshake(hello)] + AsSent(groups),
                   TakenAll(p, s, Advance(keys, |groups|), Raws(rest, capacity)), n);
  }

  // ---------- records that say nothing ----------

  lemma {:induction false} TakenAppend(p: Provider, s: Suite, keys: Keys, a: seq<Raw>, b: seq<Raw>)
    ensures TakenAll(p, s, keys, a + b) == TakenAll(p, s, keys, a) + TakenAll(p, s, Advance(keys, Sealed(a)), b)
    decreases |b|
  {
    hide Taken, Sealed, TakenAll;
    if b == [] {
      assert a + b == a;
    } else {
      var init, last := b[..|b| - 1], b[|b| - 1];
      TakenAppend(p, s, keys, a, init);
      assert b == init + [last] && a + b == (a + init) + [last];
      TakenPush(p, s, keys, a + init, last);
      TakenPush(p, s, Advance(keys, Sealed(a)), init, last);
      SealedAppend(a, init);
      assert Advance(Advance(keys, Sealed(a)), Sealed(init)) == Advance(keys, Sealed(a + init));
    }
  }

  lemma {:induction false} SealedAppend(a: seq<Raw>, b: seq<Raw>)
    ensures Sealed(a + b) == Sealed(a) + Sealed(b)
    decreases |b|
  {
    if b == [] {
      assert a + b == a;
    } else {
      var init, last := b[..|b| - 1], b[|b| - 1];
      SealedAppend(a, init);
      assert b == init + [last] && a + b == (a + init) + [last];
      SealedPush(a + init, last);
    }
  }

  /** A ChangeCipherSpec record anywhere in the flight changes neither the messages nor how the others are opened. */
  lemma ChangeCipherSpecIgnored(p: Provider, s: Suite, keys: Keys, a: seq<Raw>, raw: Raw, b: seq<Raw>)
    requires raw.header[0] == 20
    ensures TakenAll(p, s, keys, a + [raw] + b) ==
            TakenAll(p, s, keys, a) + [ChangeCipherSpec] + TakenAll(p, s, keys, a + b)[|a|..]
    ensures MessagesIn(ChangeCipherSpec) == [] && Receivable(ChangeCipherSpec)
  {
    hide Sealed, Clear;
    ClearKinds(p, s, raw);
    TakenAppend(p, s, keys, a, b);
    TakenPush(p, s, keys, a, raw);
    SealedPush(a, raw);
    TakenAppend(p, s, keys, a + [raw], b);
  }
}
