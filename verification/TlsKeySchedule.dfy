/**
 The key schedule of RFC 8446, section 7.1, and the object that walks along it:
 early, handshake and master secret, and for each direction the traffic keys of
 the current stage with their counter. Hash, HMAC and HKDF are parameters.
 */
module TlsKeySchedule {
  import opened Bytes
  import opened TlsRecords
  import opened Wrappers

  const MAX_HASH_LEN: nat := 48
  const MAX_LABEL_BUFFER: nat := 70

  datatype Suite = Suite(
    hashLen: nat,
    keyLen: nat,
    hash: seq<byte> -> seq<byte>,
    hmac: (seq<byte>, seq<byte>) -> seq<byte>,
    extract: (seq<byte>, seq<byte>) -> seq<byte>,
    expand: (seq<byte>, seq<byte>, nat) -> seq<byte>)

  ghost predicate LawfulSuite(s: Suite) {
    && s.hashLen <= MAX_HASH_LEN
    && (forall m :: |s.hash(m)| == s.hashLen)
    && (forall k, m :: |s.hmac(k, m)| == s.hashLen)
    && (forall prk, info, n :: |s.expand(prk, info, n)| == n)
  }

  // ---------- the standard's functions ----------

  function Ascii(s: string): (b: seq<byte>)
    ensures |b| == |s|
  {
    seq(|s|, i requires 0 <= i < |s| => s[i] as int % 256)
  }

  /** The HkdfLabel structure. */
  function HkdfLabel(len: nat, name: string, context: seq<byte>): (s: seq<byte>)
    ensures |s| == 10 + |name| + |context|
  {
    U16Bytes(len) + [(6 + |name|) % 256] + Ascii("tls13 ") + Ascii(name) + [|context| % 256] + context
  }

  /** Two of the labels byte by byte: "tls13 key" without context, and "tls13 c hs traffic" with one. */
  lemma LabelBytes(len: nat, context: seq<byte>)
    requires |context| < 256
    ensures HkdfLabel(len, "key", []) == BeBytes(len, 2) + [9, 116, 108, 115, 49, 51, 32, 107, 101, 121, 0]
    ensures HkdfLabel(len, "c hs traffic", context)
            == BeBytes(len, 2) + [18, 116, 108, 115, 49, 51, 32]
               + [99, 32, 104, 115, 32, 116, 114, 97, 102, 102, 105, 99] + [|context|] + context
  {
    assert Ascii("tls13 ") == [116, 108, 115, 49, 51, 32] && Ascii("key") == [107, 101, 121];
    assert Ascii("c hs traffic") == [99, 32, 104, 115, 32, 116, 114, 97, 102, 102, 105, 99];
  }

  function ExpandLabel(s: Suite, secret: seq<byte>, name: string, context: seq<byte>, len: nat): seq<byte> {
    s.expand(secret, HkdfLabel(len, name, context), len)
  }

  function DeriveSecret(s: Suite, secret: seq<byte>, name: string, messages: seq<byte>): seq<byte> {
    ExpandLabel(s, secret, name, s.hash(messages), s.hashLen)
  }

  function EarlySecret(s: Suite, psk: Option<seq<byte>>): seq<byte> {
    s.extract(Zeros(s.hashLen), if psk.Some? then psk.value else Zeros(s.hashLen))
  }

  function HandshakeSecret(s: Suite, psk: Option<seq<byte>>, dhe: seq<byte>): seq<byte> {
    s.extract(DeriveSecret(s, EarlySecret(s, psk), "derived", []), dhe)
  }

  function MasterSecret(s: Suite, psk: Option<seq<byte>>, dhe: seq<byte>): seq<byte> {
    s.extract(DeriveSecret(s, HandshakeSecret(s, psk, dhe), "derived", []), Zeros(s.hashLen))
  }

  /** The contents of a Finished message: a MAC over the transcript under the sender's traffic secret. */
  function VerifyData(s: Suite, trafficSecret: seq<byte>, transcript: seq<byte>): seq<byte> {
    s.hmac(ExpandLabel(s, trafficSecret, "finished", [], s.hashLen), s.hash(transcript))
  }

  /** One direction's secret with the key and IV expanded from it and its record counter. */
  datatype Traffic = Traffic(secret: Option<seq<byte>>, key: seq<byte>, iv: seq<byte>, counter: nat)

  function TrafficOf(s: Suite, secret: seq<byte>): Traffic {
    Traffic(Some(secret), ExpandLabel(s, secret, "key", [], s.keyLen), ExpandLabel(s, secret, "iv", [], IV_LEN), 0)
  }

  // ---------- the object ----------

  /** The bounded vector a label is written to. */
  class LabelBuffer {
    var bytes: seq<byte>

    constructor ()
      ensures bytes == []
    {
      bytes := [];
    }

    method ExtendFromSlice(data: seq<byte>) returns (r: TlsResult<()>)
      modifies this
      ensures r == if |old(bytes)| + |data| > MAX_LABEL_BUFFER then Err(InternalError) else Ok(())
      ensures bytes == if r.Ok? then old(bytes) + data else old(bytes)
    {
      if |bytes| + |data| > MAX_LABEL_BUFFER {
        return Err(InternalError);
      }
      bytes := bytes + data;
      return Ok(());
    }

    method WriteContext(context: Option<seq<byte>>) returns (r: TlsResult<()>)
      modifies this
      ensures r == if |old(bytes)| + 1 + |ContextBytes(context)| > MAX_LABEL_BUFFER then Err(InternalError) else Ok(())
      ensures r.Ok? ==> bytes == old(bytes) + [|ContextBytes(context)| % 256] + ContextBytes(context)
    {
      match context
      case None =>
        r := ExtendFromSlice([0]);
      case Some(hash) =>
        r := ExtendFromSlice([|hash| % 256]);
        if r.Ok? {
          r := ExtendFromSlice(hash);
        }
    }
  }

  lemma LabelParts(len: nat, name: string, context: seq<byte>, head: seq<byte>, all: seq<byte>)
    requires |name| < 250 && head == [] + U16Bytes(len) + [6 + |name|] + Ascii("tls13 ")
    requires all == head + Ascii(name) + [|context| % 256] + context
    ensures all == HkdfLabel(len, name, context)
  {}

  /** What a label says about the context: nothing is written like an empty hash. */
  function ContextBytes(context: Option<seq<byte>>): seq<byte> {
    if context.Some? then context.value else []
  }

  class KeySchedule {
    const suite: Suite
    var sharedSecret: seq<byte>
    var hkdf: Option<seq<byte>>
    var binderKey: Option<seq<byte>>
    var client: Traffic
    var server: Traffic
    var transcript: seq<byte>      // everything fed to the hash so far

    constructor (suite: Suite)
      ensures this.suite == suite && sharedSecret == Zeros(suite.hashLen) && transcript == []
      ensures client.secret == server.secret == hkdf == binderKey == None && client.counter == server.counter == 0
      ensures |client.iv| == |server.iv| == IV_LEN
    {
      this.suite := suite;
      sharedSecret := Zeros(suite.hashLen);
      hkdf := None;
      binderKey := None;
      client := Traffic(None, Zeros(suite.keyLen), Zeros(IV_LEN), 0);
      server := Traffic(None, Zeros(suite.keyLen), Zeros(IV_LEN), 0);
      transcript := [];
    }

    /** Writes the label piece by piece into the buffer; what is expanded is the standard's HkdfLabel. */
    method MakeExpandedHkdfLabel(secret: Option<seq<byte>>, name: string, context: Option<seq<byte>>, len: nat)
      returns (r: TlsResult<seq<byte>>)
      requires |name| < 250
      ensures r == if 10 + |name| + |ContextBytes(context)| > 70 || secret.None? then Err(InternalError)
                   else Ok(ExpandLabel(suite, secret.value, name, ContextBytes(context), len))
    {
      var hkdfLabel := new LabelBuffer();
      var done := hkdfLabel.ExtendFromSlice(U16Bytes(len));
      done := hkdfLabel.ExtendFromSlice([6 + |name|]);
      done := hkdfLabel.ExtendFromSlice(Ascii("tls13 "));
      ghost var head := hkdfLabel.bytes;
      done := hkdfLabel.ExtendFromSlice(Ascii(name));
      if done.Err? {
        return Err(done.error);
      }
      done := hkdfLabel.WriteContext(context);
      if done.Err? || secret.None? {
        return Err(InternalError);
      }
      LabelParts(len, name, ContextBytes(context), head, hkdfLabel.bytes);
      return Ok(suite.expand(secret.value, hkdfLabel.bytes, len));
    }

    method Initialize(ikm: seq<byte>)
      modifies this`hkdf, this`sharedSecret
      ensures sharedSecret == suite.extract(old(sharedSecret), ikm) && hkdf == Some(sharedSecret)
    {
      sharedSecret := suite.extract(sharedSecret, ikm);
      hkdf := Some(sharedSecret);
    }

    method Derived() returns (r: TlsResult<()>)
      requires LawfulSuite(suite) && hkdf.Some?
      modifies this`sharedSecret
      ensures r.Ok? && sharedSecret == DeriveSecret(suite, hkdf.value, "derived", [])
    {
      var derived := MakeExpandedHkdfLabel(hkdf, "derived", Some(suite.hash([])), suite.hashLen);
      sharedSecret := derived.value;
      return Ok(());
    }

    method CalculateTrafficSecret(name: string) returns (r: TlsResult<Traffic>)
      requires LawfulSuite(suite) && hkdf.Some? && |name| <= 12
      ensures r == Ok(TrafficOf(suite, DeriveSecret(suite, hkdf.value, name, transcript)))
    {
      var secret := MakeExpandedHkdfLabel(hkdf, name, Some(suite.hash(transcript)), suite.hashLen);
      var key := MakeExpandedHkdfLabel(Some(secret.value), "key", None, suite.keyLen);
      var iv := MakeExpandedHkdfLabel(Some(secret.value), "iv", None, IV_LEN);
      return Ok(Traffic(Some(secret.value), key.value, iv.value, 0));
    }

    method CalculateTrafficSecrets(clientName: string, serverName: string) returns (r: TlsResult<()>)
      requires LawfulSuite(suite) && hkdf.Some? && |clientName| <= 12 && |serverName| <= 12
      modifies this`client, this`server
      ensures r.Ok? && client == TrafficOf(suite, DeriveSecret(suite, hkdf.value, clientName, transcript))
      ensures server == TrafficOf(suite, DeriveSecret(suite, hkdf.value, serverName, transcript))
    {
      var c := CalculateTrafficSecret(clientName);
      client := c.value;
      var s := CalculateTrafficSecret(serverName);
      server := s.value;
      return Ok(());
    }

    method InitializeEarlySecret(psk: Option<seq<byte>>) returns (r: TlsResult<()>)
      requires LawfulSuite(suite) && sharedSecret == Zeros(suite.hashLen)
      modifies this`hkdf, this`sharedSecret, this`binderKey
      ensures r.Ok? && sharedSecret == DeriveSecret(suite, EarlySecret(suite, psk), "derived", [])
      ensures binderKey == Some(DeriveSecret(suite, EarlySecret(suite, psk), "ext binder", []))
    {
      Initialize(if psk.Some? then psk.value else Zeros(suite.hashLen));
      var key := MakeExpandedHkdfLabel(hkdf, "ext binder", Some(suite.hash([])), suite.hashLen);
      binderKey := Some(key.value);
      r := Derived();
    }

    method InitializeHandshakeSecret(ikm: seq<byte>, ghost psk: Option<seq<byte>>) returns (r: TlsResult<()>)
      requires LawfulSuite(suite) && sharedSecret == DeriveSecret(suite, EarlySecret(suite, psk), "derived", [])
      modifies this`hkdf, this`sharedSecret, this`client, this`server
      ensures r.Ok? && sharedSecret == DeriveSecret(suite, HandshakeSecret(suite, psk, ikm), "derived", [])
      ensures client
              == TrafficOf(suite, DeriveSecret(suite, HandshakeSecret(suite, psk, ikm), "c hs traffic", transcript))
      ensures server
              == TrafficOf(suite, DeriveSecret(suite, HandshakeSecret(suite, psk, ikm), "s hs traffic", transcript))
    {
      Initialize(ikm);
      var calculated := CalculateTrafficSecrets("c hs traffic", "s hs traffic");
      r := Derived();
    }

    method InitializeMasterSecret(ghost psk: Option<seq<byte>>, ghost dhe: seq<byte>) returns (r: TlsResult<()>)
      requires LawfulSuite(suite)
               && sharedSecret == DeriveSecret(suite, HandshakeSecret(suite, psk, dhe), "derived", [])
      modifies this`hkdf, this`sharedSecret, this`client, this`server
      ensures r.Ok?
      ensures client == TrafficOf(suite, DeriveSecret(suite, MasterSecret(suite, psk, dhe), "c ap traffic", transcript))
      ensures server == TrafficOf(suite, DeriveSecret(suite, MasterSecret(suite, psk, dhe), "s ap traffic", transcript))
    {
      Initialize(Zeros(suite.hashLen));
      var calculated := CalculateTrafficSecrets("c ap traffic", "s ap traffic");
      r := Derived();
    }

    /** The client's Finished covers the transcript so far, under its traffic secret of the moment. */
    method CreateClientFinished() returns (r: TlsResult<seq<byte>>)
      requires LawfulSuite(suite)
      ensures r == if client.secret.None? then Err(InternalError)
              else Ok(VerifyData(suite, client.secret.value, transcript))
    {
      var key := MakeExpandedHkdfLabel(client.secret, "finished", None, suite.hashLen);
      if key.Err? {
        return key;
      }
      return Ok(suite.hmac(key.value, suite.hash(transcript)));
    }

    /** Checks a server Finished against the transcript as it was before that message. */
    method VerifyServerFinished(verify: seq<byte>, hash: seq<byte>) returns (r: TlsResult<bool>)
      requires LawfulSuite(suite)
      ensures server.secret.None? ==> r == Err(InternalError)
      ensures server.secret.Some? ==>
                var key := ExpandLabel(suite, server.secret.value, "finished", [], suite.hashLen);
                r == Ok(verify == suite.hmac(key, hash))
    {
      var key := MakeExpandedHkdfLabel(server.secret, "finished", None, suite.hashLen);
      if key.Err? {
        return Err(key.error);
      }
      return Ok(verify == suite.hmac(key.value, hash));
    }

    /** A binder covers the hello up to the binders, under the binder key. */
    method CreatePskBinder() returns (r: TlsResult<seq<byte>>)
      requires LawfulSuite(suite)
      ensures r == if binderKey.None? then Err(InternalError) else Ok(VerifyData(suite, binderKey.value, transcript))
    {
      var key := MakeExpandedHkdfLabel(binderKey, "finished", None, suite.hashLen);
      if key.Err? {
        return key;
      }
      return Ok(suite.hmac(key.value, suite.hash(transcript)));
    }
  }
}
