/**
 Values of the TLS 1.3 record layer: headers, nonces (RFC 8446, section 5.3),
 sealed records (section 5.2) and streams of them. The AEAD is any pair of
 functions in which opening undoes sealing and sealing adds a 16-byte tag.
 */
module TlsRecords {
  import opened Bytes
  import opened Powers
  import opened Wrappers

  datatype TlsError =
    | InsufficientSpace | EncodeError | InvalidApplicationData | InternalError | IoError | InvalidRecord
    | CryptoError | Unimplemented | MissingHandshake | ConnectionClosed
    | ParseError | DecodeError | EmptyPlaintext | InvalidCertificate | InvalidCertificateEntry
    | InvalidExtensionsLength | ExtensionRejected | InvalidHandshake | InvalidKeyShare | InvalidSignature
    | CertificateRejected | SigningFailed | HandshakeAborted
    | AbortHandshake(level: byte, description: byte)

  type TlsResult<T> = Result<T, TlsError>

  const IV_LEN: nat := 12
  const TAG_SIZE: nat := 16
  const HEADER_SIZE: nat := 5

  const CHANGE_CIPHER_SPEC: byte := 20
  const ALERT: byte := 21
  const HANDSHAKE: byte := 22
  const APPLICATION_DATA: byte := 23

  /** Invalid, ChangeCipherSpec, alert, handshake and application data (RFC 8446, appendix B.1). */
  predicate IsContentType(b: byte) {
    b in {0, 20, 21, 22, 23}
  }

  // ---------- nonces ----------

  type Iv = s: seq<byte> | |s| == 12 witness seq(12, _ => 0)

  function XorSeq(s: seq<byte>, t: seq<byte>): (x: seq<byte>)
    requires |s| == |t|
    ensures |x| == |s| && forall i :: 0 <= i < |s| ==> x[i] == XorByte(s[i], t[i])
  {
    seq(|s|, i requires 0 <= i < |s| => XorByte(s[i], t[i]))
  }

  /** The counter as 64-bit big-endian number, padded on the left to the IV's length. */
  function PaddedCounter(counter: nat): (p: Iv) {
    Zeros(4) + BeBytes(counter, 8)
  }

  function Nonce(iv: Iv, counter: nat): (n: Iv) {
    XorSeq(iv, PaddedCounter(counter))
  }

  /** Right-aligns the input in `n` bytes. */
  method Pad(input: seq<byte>, n: nat) returns (padded: array<byte>)
    requires |input| <= n
    ensures fresh(padded) && padded[..] == Zeros(n - |input|) + input
  {
    padded := new byte[n](_ => 0);
    for index := 0 to |input|
      invariant forall k :: 0 <= k < n - index ==> padded[k] == 0
      invariant forall k :: n - index <= k < n ==> padded[k] == input[k - (n - |input|)]
    {
      padded[(n - index) - 1] := input[|input| - 1 - index];
    }
  }

  method GetNonce(counter: nat, iv: Iv) returns (nonce: array<byte>)
    ensures fresh(nonce) && nonce[..] == Nonce(iv, counter)
  {
    var padded := Pad(BeBytes(counter, 8), IV_LEN);
    assert padded[..] == PaddedCounter(counter);
    nonce := new byte[IV_LEN](_ => 0);
    for index := 0 to IV_LEN
      invariant padded[..] == PaddedCounter(counter)
      invariant forall k :: 0 <= k < index ==> nonce[k] == XorByte(iv[k], PaddedCounter(counter)[k])
    {
      assert padded[index] == padded[..][index];
      nonce[index] := XorByte(iv[index], padded[index]);
    }
  }

  lemma XorSeqInjective(iv: seq<byte>, s: seq<byte>, t: seq<byte>)
    requires |iv| == |s| == |t| && XorSeq(iv, s) == XorSeq(iv, t)
    ensures s == t
  {
    forall i | 0 <= i < |s|
      ensures s[i] == t[i]
    {
      XorCommutes(iv[i], s[i]);
      XorCommutes(iv[i], t[i]);
      XorCancels(s[i], iv[i]);
      XorCancels(t[i], iv[i]);
      assert XorSeq(iv, s)[i] == XorSeq(iv, t)[i];
    }
  }

  lemma {:induction false} XorCommutes(a: nat, b: nat)
    ensures Xor(a, b) == Xor(b, a)
    decreases a + b
  {
    if a != 0 || b != 0 {
      XorCommutes(a / 2, b / 2);
    }
  }

  /** Under one IV, different 64-bit counters give different nonces. */
  lemma NonceInjective(iv: Iv, c: nat, d: nat)
    requires c <= U64_MAX && d <= U64_MAX && Nonce(iv, c) == Nonce(iv, d)
    ensures c == d
  {
    XorSeqInjective(iv, PaddedCounter(c), PaddedCounter(d));
    assert PaddedCounter(c)[4..] == BeBytes(c, 8) && PaddedCounter(d)[4..] == BeBytes(d, 8);
    SixtyFourBits();
    BeBytesVal(c, 8);
    BeBytesVal(d, 8);
  }

  lemma SixtyFourBits()
    ensures Pow(256, 8) == U64_MAX + 1
  {
    PowAdd(256, 4, 4);
    assert Pow(256, 4) == 256 * (256 * (256 * (256 * Pow(256, 0))));
  }

  // ---------- sealed records ----------

  type Key = seq<byte>

  datatype Aead = Aead(
    seal: (Key, seq<byte>, seq<byte>, seq<byte>) -> seq<byte>,
    open: (Key, seq<byte>, seq<byte>, seq<byte>) -> Option<seq<byte>>)

  /** Opening with the same key, nonce and additional data gives the sealed bytes back; the tag is 16 bytes. */
  ghost predicate Lawful(aead: Aead) {
    && (forall key, nonce, ad, plain ::
          |aead.seal(key, nonce, ad, plain)| == |plain| + 16 &&
          aead.open(key, nonce, ad, aead.seal(key, nonce, ad, plain)) == Some(plain))
    && (forall key, nonce, ad, cipher ::
          aead.open(key, nonce, ad, cipher).Some? ==> |aead.open(key, nonce, ad, cipher).value| + 16 == |cipher|)
  }

  /** One direction's key, IV and sequence counter. */
  datatype Keys = Keys(aead: Aead, key: Key, iv: Iv, counter: nat)

  function U16Bytes(n: nat): (s: seq<byte>)
    ensures s == BeBytes(n, 2)
  {
    assert BeBytes(n / 256, 1) == BeBytes(n / 256 / 256, 0) + [n / 256 % 256];
    [n / 256 % 256, n % 256]
  }

  /** The five header bytes of an encrypted record, its length kept to 16 bits. */
  function Header(len: nat): seq<byte> {
    [23, 3, 3] + U16Bytes(len)
  }

  function ContentLength(header: seq<byte>): nat
    requires |header| == 5
  {
    header[3] as int * 256 + header[4]
  }

  lemma HeaderLength(len: nat)
    ensures ContentLength(Header(len)) == len % 0x1_0000
  {
    var a := len / 256;
    RemainderIs(len, 0x1_0000, a / 256, a % 256 * 256 + len % 256);
  }

  /** What one record protects: its bytes and their real content type. */
  datatype Inner = Inner(data: seq<byte>, contentType: byte)

  function Ciphertext(keys: Keys, inner: Inner): seq<byte> {
    keys.aead.seal(keys.key, Nonce(keys.iv, keys.counter), Header(|inner.data| + 1 + TAG_SIZE),
                   inner.data + [inner.contentType])
  }

  function SealRecord(keys: Keys, inner: Inner): seq<byte> {
    Header(|inner.data| + 1 + TAG_SIZE) + Ciphertext(keys, inner)
  }

  function Advance(keys: Keys, n: nat): Keys {
    keys.(counter := keys.counter + n)
  }

  /** The records in order, the i-th under counter + i. */
  function SealStream(keys: Keys, records: seq<Inner>): seq<byte> {
    if records == [] then []
    else SealStream(keys, records[..|records| - 1]) + SealRecord(Advance(keys, |records| - 1), records[|records| - 1])
  }

  lemma PushRecord(keys: Keys, records: seq<Inner>, inner: Inner)
    ensures SealStream(keys, records + [inner])
            == SealStream(keys, records) + SealRecord(Advance(keys, |records|), inner)
  {
    assert (records + [inner])[..|records|] == records;
  }

  lemma {:induction false} FirstRecord(keys: Keys, records: seq<Inner>)
    requires records != []
    ensures SealStream(keys, records) == SealRecord(keys, records[0]) + SealStream(Advance(keys, 1), records[1..])
  {
    hide SealRecord, Nonce;
    var n := |records| - 1;
    if n == 0 {
      assert records[..0] == [] && records[1..] == [];
    } else {
      FirstRecord(keys, records[..n]);
      var mid := records[1..n];
      assert records[..n][1..] == mid && records[1..] == mid + [records[n]];
      PushRecord(Advance(keys, 1), mid, records[n]);
      assert Advance(Advance(keys, 1), |mid|) == Advance(keys, n);
      SeqRegroup(SealRecord(keys, records[0]), SealStream(Advance(keys, 1), mid),
                 SealRecord(Advance(keys, n), records[n]));
    }
  }

  lemma SliceAt(w: seq<byte>, at: nat, n: nat)
    requires at + n <= |w|
    ensures w[at..][..n] == w[at..at + n] && w[at..][n..] == w[at + n..]
  {}

  // ---------- removing the padding ----------

  /** Without trailing zeros; all zeros are left alone, as the code does. */
  function StripPadding(plain: seq<byte>): seq<byte> {
    var end := LastNonZero(plain);
    if end == 0 then plain else plain[..end]
  }

  /** One past the last non-zero byte, or 0. */
  function LastNonZero(s: seq<byte>): (end: nat)
    ensures end <= |s| && (end > 0 ==> s[end - 1] != 0)
  {
    if s == [] then 0 else if s[|s| - 1] != 0 then |s| else LastNonZero(s[..|s| - 1])
  }

  /** What an opened record holds, or why it is refused. */
  function Unwrap(plain: seq<byte>): TlsResult<Inner> {
    var inner := StripPadding(plain);
    if inner == [] then Err(EmptyPlaintext)
    else if !IsContentType(inner[|inner| - 1]) then Err(InvalidRecord)
    else Ok(Inner(inner[..|inner| - 1], inner[|inner| - 1]))
  }

  /** Any amount of zero padding (RFC 8446, section 5.4) comes off again; the type behind it has to be known. */
  lemma {:induction false} UnwrapPadded(inner: Inner, padding: nat)
    requires inner.contentType != 0
    ensures Unwrap(inner.data + [inner.contentType] + Zeros(padding))
            == if 20 <= inner.contentType <= 23 then Ok(inner) else Err(InvalidRecord)
  {
    var plain := inner.data + [inner.contentType];
    KnownTypes(inner.contentType);
    LastNonZeroPadded(plain, padding);
    assert (plain + Zeros(padding))[..|plain|] == plain;
    assert plain[..|plain| - 1] == inner.data;
  }

  /** All zeros keep their length: they read as a record of type 0. */
  lemma {:induction false} UnwrapZeros(n: nat)
    ensures Unwrap(Zeros(n)) == if n == 0 then Err(EmptyPlaintext) else Ok(Inner(Zeros(n - 1), 0))
  {
    NoNonZero(n);
    if n > 0 {
      assert Zeros(n)[..n - 1] == Zeros(n - 1);
    }
  }

  lemma {:induction false} NoNonZero(n: nat)
    ensures LastNonZero(Zeros(n)) == 0
  {
    if n > 0 {
      assert Zeros(n)[..n - 1] == Zeros(n - 1);
      NoNonZero(n - 1);
    }
  }

  /** Nothing but the registered types and 0 is let through. */
  lemma KnownTypes(b: byte)
    ensures IsContentType(b) <==> b == 0 || 20 <= b < 24
  {}

  lemma {:induction false} LastNonZeroPadded(plain: seq<byte>, padding: nat)
    requires plain != [] && plain[|plain| - 1] != 0
    ensures LastNonZero(plain + Zeros(padding)) == |plain|
  {
    if padding > 0 {
      assert (plain + Zeros(padding))[..|plain| + padding - 1] == plain + Zeros(padding - 1);
      LastNonZeroPadded(plain, padding - 1);
    } else {
      assert plain + Zeros(0) == plain;
    }
  }
}
