/**
 Reading a PKCS#1 public key (RFC 8017, appendix A.1.1): two DER integers in a
 sequence. Lengths may take as many bytes as an address has, four here.
 */
module RsaDer {
  import opened Bytes
  import opened Powers
  import opened Wrappers

  const RSA_2048_LEN: nat := 256
  const USIZE_BYTES: nat := 4
  const SEQUENCE: byte := 0x30
  const INTEGER: byte := 0x02

  datatype RsaVerifyError = MalformedDer | UnsupportedKey
  type DerResult<T> = Result<T, RsaVerifyError>

  datatype PublicKey = PublicKey(modulus: seq<byte>, exponent: seq<byte>)

  // ---------- what is read ----------

  datatype Tlv = Tlv(value: seq<byte>, rest: seq<byte>)
  datatype Length = Length(len: nat, rest: seq<byte>)

  function DecodeLength(w: seq<byte>): DerResult<Length> {
    if w == [] then Err(MalformedDer)
    else if w[0] < 128 then Ok(Length(w[0], w[1..]))
    else
      var n := w[0] as int - 128;
      if n == 0 || n > 4 || |w| < 1 + n then Err(MalformedDer)
      else Ok(Length(BeVal(w[1..1 + n]), w[1 + n..]))
  }

  function DecodeTlv(w: seq<byte>, tag: byte): DerResult<Tlv> {
    if w == [] || w[0] != tag then Err(MalformedDer)
    else
      var length := DecodeLength(w[1..]);
      if length.Err? then Err(length.error)
      else if length.value.len > |length.value.rest| then Err(MalformedDer)
      else Ok(Tlv(length.value.rest[..length.value.len], length.value.rest[length.value.len..]))
  }

  function Padded(integer: seq<byte>, n: nat): (s: seq<byte>)
    requires |integer| <= n
    ensures |s| == n && BeVal(s) == BeVal(integer)
  {
    LeadingZeros(integer, n - |integer|);
    seq(n - |integer|, _ => 0) + integer
  }

  lemma {:induction false} LeadingZeros(s: seq<byte>, n: nat)
    ensures BeVal(seq(n, _ => 0) + s) == BeVal(s)
  {
    var zeros: seq<byte> := seq(n, _ => 0);
    BeValAppend(zeros, s);
    AllZeros(n);
  }

  lemma {:induction false} AllZeros(n: nat)
    ensures BeVal(seq(n, _ => 0)) == 0
  {
    if n > 0 {
      var zeros: seq<byte> := seq(n, _ => 0);
      assert zeros[..n - 1] == seq(n - 1, _ => 0);
      AllZeros(n - 1);
    }
  }

  function ModulusOf(integer: seq<byte>): DerResult<seq<byte>> {
    if |integer| == RSA_2048_LEN + 1 && integer[0] == 0 then Ok(integer[1..])
    else if |integer| == RSA_2048_LEN then Ok(integer)
    else Err(UnsupportedKey)
  }

  function ExponentOf(integer: seq<byte>): DerResult<seq<byte>> {
    if integer == [] || |integer| > 4 then Err(UnsupportedKey)
    else if integer[|integer| - 1] % 2 == 0 then Err(UnsupportedKey)
    else Ok(Padded(integer, 4))
  }

  function ParsePublicKey(der: seq<byte>): DerResult<PublicKey> {
    var outer := DecodeTlv(der, 0x30);
    if outer.Err? then Err(outer.error)
    else if outer.value.rest != [] then Err(MalformedDer)
    else
      var first := DecodeTlv(outer.value.value, 0x02);
      if first.Err? then Err(first.error)
      else
        var second := DecodeTlv(first.value.rest, 0x02);
        if second.Err? then Err(second.error)
        else if second.value.rest != [] then Err(MalformedDer)
        else if ModulusOf(first.value.value).Err? then Err(ModulusOf(first.value.value).error)
        else if ExponentOf(second.value.value).Err? then Err(ExponentOf(second.value.value).error)
        else Ok(PublicKey(ModulusOf(first.value.value).value, ExponentOf(second.value.value).value))
  }

  // ---------- the code ----------

  class DerReader {
    const bytes: seq<byte>
    var offset: nat

    ghost predicate Valid()
      reads this
    {
      offset <= |bytes|
    }

    ghost function Rest(): seq<byte>
      requires Valid()
      reads this
    {
      bytes[offset..]
    }

    constructor (bytes: seq<byte>)
      ensures Valid() && this.bytes == bytes && Rest() == bytes
    {
      this.bytes := bytes;
      offset := 0;
    }

    predicate IsEmpty()
      reads this
    {
      offset == |bytes|
    }

    method ReadByte() returns (r: DerResult<byte>)
      requires Valid()
      modifies this
      ensures Valid() && r == if old(Rest()) == [] then Err(MalformedDer) else Ok(old(Rest())[0])
      ensures r.Ok? ==> Rest() == old(Rest())[1..]
      ensures r.Err? ==> Rest() == []
    {
      if offset >= |bytes| {
        return Err(MalformedDer);
      }
      offset := offset + 1;
      return Ok(bytes[offset - 1]);
    }

    method ReadLen() returns (r: DerResult<nat>)
      requires Valid()
      modifies this
      ensures Valid()
      ensures var d := DecodeLength(old(Rest()));
              if d.Err? then r == Err(d.error) else r == Ok(d.value.len) && Rest() == d.value.rest
    {
      ghost var w := Rest();
      var first := ReadByte();
      if first.Err? {
        return Err(first.error);
      }
      if first.value < 128 {
        return Ok(first.value);
      }
      var lenLen := first.value - 128;
      if lenLen == 0 || lenLen > USIZE_BYTES {
        return Err(MalformedDer);
      }
      var len: nat := 0;
      assert w[1..1] == [];
      for i := 0 to lenLen
        invariant Valid() && 1 + i <= |w| && Rest() == w[1 + i..] && len == BeVal(w[1..1 + i])
      {
        var next := ReadByte();
        if next.Err? {
          return Err(next.error);
        }
        assert w[1..2 + i][..i] == w[1..1 + i];
        len := len * 256 + next.value;
      }
      return Ok(len);
    }

    method ReadTlv(tag: byte) returns (r: DerResult<seq<byte>>)
      requires Valid()
      modifies this
      ensures Valid()
      ensures var d := DecodeTlv(old(Rest()), tag);
              if d.Err? then r == Err(d.error) else r == Ok(d.value.value) && Rest() == d.value.rest
    {
      var first := ReadByte();
      if first.Err? || first.value != tag {
        return Err(MalformedDer);
      }
      var len := ReadLen();
      if len.Err? {
        return Err(len.error);
      }
      var end := offset + len.value;
      if end > |bytes| {
        return Err(MalformedDer);
      }
      var value := bytes[offset..end];
      assert value == Rest()[..len.value] && bytes[end..] == Rest()[len.value..];
      offset := end;
      return Ok(value);
    }
  }

  method ParseExponent(integer: seq<byte>) returns (r: DerResult<seq<byte>>)
    ensures r == ExponentOf(integer)
  {
    if |integer| == 0 || |integer| > 4 {
      return Err(UnsupportedKey);
    }
    var exponent := Padded(integer, 4);
    assert exponent[3] == integer[|integer| - 1];
    if exponent == [0, 0, 0, 0] || exponent[3] % 2 == 0 {
      return Err(UnsupportedKey);
    }
    return Ok(exponent);
  }

  method ParsePkcs1Rsa2048PublicKeyDer(der: seq<byte>) returns (r: DerResult<PublicKey>)
    ensures r == ParsePublicKey(der)
  {
    hide DecodeTlv, ModulusOf, ExponentOf;
    var reader := new DerReader(der);
    var sequence := reader.ReadTlv(SEQUENCE);
    if sequence.Err? {
      return Err(sequence.error);
    }
    if !reader.IsEmpty() {
      return Err(MalformedDer);
    }
    var inner := new DerReader(sequence.value);
    var modulusInteger := inner.ReadTlv(INTEGER);
    if modulusInteger.Err? {
      return Err(modulusInteger.error);
    }
    var exponentInteger := inner.ReadTlv(INTEGER);
    if exponentInteger.Err? {
      return Err(exponentInteger.error);
    }
    if !inner.IsEmpty() {
      return Err(MalformedDer);
    }
    var modulus := ModulusOf(modulusInteger.value);
    if modulus.Err? {
      return Err(modulus.error);
    }
    var exponent := ParseExponent(exponentInteger.value);
    if exponent.Err? {
      return Err(exponent.error);
    }
    return Ok(PublicKey(modulus.value, exponent.value));
  }

  // ---------- the distinguished encoding ----------

  /** The fewest bytes that hold the number. */
  function ByteCount(n: nat): (k: nat)
    ensures n < Pow(256, k)
  {
    if n == 0 then 0 else 1 + ByteCount(n / 256)
  }

  lemma {:induction false} ByteCountAtMost(n: nat, k: nat)
    requires n < Pow(256, k)
    ensures ByteCount(n) <= k
  {
    if n > 0 {
      ByteCountAtMost(n / 256, k - 1);
    }
  }

  function EncodeLength(n: nat): seq<byte>
    requires n < 0x1_0000_0000
  {
    if n < 128 then [n] else [128 + FourAtMost(n)] + BeBytes(n, ByteCount(n))
  }

  function FourAtMost(n: nat): (k: nat)
    requires n < 0x1_0000_0000
    ensures k == ByteCount(n) <= 4 && (n > 0 ==> k > 0)
  {
    FourBytes();
    ByteCountAtMost(n, 4);
    ByteCount(n)
  }

  function EncodeTlv(tag: byte, value: seq<byte>): seq<byte>
    requires |value| < 0x1_0000_0000
  {
    [tag] + EncodeLength(|value|) + value
  }

  function Stripped(s: seq<byte>): (t: seq<byte>)
    ensures |t| <= |s|
  {
    if s != [] && s[0] == 0 then Stripped(s[1..]) else s
  }

  /** A non-negative integer: no superfluous leading zero, but one where the top bit would read as a sign. */
  function EncodeInteger(s: seq<byte>): (t: seq<byte>)
    ensures |t| <= |s| + 1
  {
    var m := Stripped(s);
    if m == [] || m[0] >= 128 then [0] + m else m
  }

  function EncodePublicKey(key: PublicKey): seq<byte>
    requires |key.modulus| == RSA_2048_LEN && |key.exponent| == 4
  {
    var m, e := EncodeInteger(key.modulus), EncodeInteger(key.exponent);
    TlvSize(INTEGER, m);
    TlvSize(INTEGER, e);
    EncodeTlv(SEQUENCE, EncodeTlv(INTEGER, m) + EncodeTlv(INTEGER, e))
  }

  lemma LengthRoundTrip(n: nat, rest: seq<byte>)
    requires n < 0x1_0000_0000
    ensures DecodeLength(EncodeLength(n) + rest) == Ok(Length(n, rest))
  {
    var k := FourAtMost(n);
    var w := EncodeLength(n) + rest;
    if n < 128 {
      assert w[1..] == rest;
    } else {
      BeBytesVal(n, k);
      assert w[1..1 + k] == BeBytes(n, k) && w[1 + k..] == rest;
    }
  }

  /** Lengths that are not in their shortest form are accepted too: the reader is not strict DER. */
  lemma LongLengthAccepted(n: byte, rest: seq<byte>)
    requires n < 128
    ensures DecodeLength([129, n] + rest) == DecodeLength(EncodeLength(n) + rest) == Ok(Length(n, rest))
    ensures [129, n] != EncodeLength(n)
  {
    LengthRoundTrip(n, rest);
    var w := [129, n] + rest;
    assert w[1..2] == [n] && w[2..] == rest && [n][..0] == [];
    assert BeVal([n]) == 256 * BeVal([n][..0]) + n;
  }

  lemma TlvRoundTrip(tag: byte, value: seq<byte>, rest: seq<byte>)
    requires |value| < 0x1_0000_0000
    ensures DecodeTlv(EncodeTlv(tag, value) + rest, tag) == Ok(Tlv(value, rest))
  {
    hide DecodeLength, EncodeLength;
    LengthRoundTrip(|value|, value + rest);
    assert (EncodeTlv(tag, value) + rest)[1..] == EncodeLength(|value|) + (value + rest);
    assert (value + rest)[..|value|] == value && (value + rest)[|value|..] == rest;
  }

  lemma LengthSize(n: nat)
    requires n < 0x1_0000_0000
    ensures |EncodeLength(n)| <= 5
  {}

  lemma {:induction false} StrippedFacts(s: seq<byte>)
    ensures Stripped(s) != [] ==> Stripped(s)[0] != 0 && Stripped(s)[|Stripped(s)| - 1] == s[|s| - 1]
    ensures seq(|s| - |Stripped(s)|, _ => 0) + Stripped(s) == s
    ensures s != [] && s[0] != 0 ==> Stripped(s) == s
    ensures |s| > 0 && Stripped(s) == [] ==> s[|s| - 1] == 0
  {
    if s != [] && s[0] == 0 {
      StrippedFacts(s[1..]);
      var n, kept := |s| - |Stripped(s)|, Stripped(s);
      var zeros: seq<byte> := seq(n - 1, _ => 0);
      assert kept == Stripped(s[1..]) && seq(n, _ => 0) == [0] + zeros;
      SeqRegroup([0], zeros, kept);
      assert s == [0] + s[1..];
    }
  }

  /** A modulus comes through exactly when its encoding fills 256 bytes: its top nine bits are not all zero. */
  lemma ModulusRoundTrip(modulus: seq<byte>)
    requires |modulus| == 256
    ensures ModulusOf(EncodeInteger(modulus)) == Ok(modulus) <==> modulus[0] != 0 || modulus[1] >= 128
  {
    var m := Stripped(modulus);
    StrippedFacts(modulus);
    if modulus[0] != 0 {
      assert ([0] + m)[1..] == m;
    } else {
      StrippedFacts(modulus[1..]);
      assert modulus == [0] + modulus[1..];
      if modulus[1] == 0 {
        assert m == Stripped(modulus[1..][1..]);
      }
    }
  }

  /** The encoding of an exponent whose first byte is zero has one to four bytes and stands for it. */
  lemma ShortExponent(exponent: seq<byte>)
    requires |exponent| == 4 && exponent[0] == 0
    ensures var e := EncodeInteger(exponent);
            1 <= |e| <= 4 && e[|e| - 1] == exponent[3] && Padded(e, 4) == exponent
  {
    hide BeVal, Padded;
    var m, e := Stripped(exponent), EncodeInteger(exponent);
    StrippedFacts(exponent);
    StrippedFacts(exponent[1..]);
    assert |m| <= 3 && |e| >= 1;
    PaddedIsUnique(e, exponent, m);
  }

  /** An exponent comes through exactly when it is odd and below 2^31. */
  lemma ExponentRoundTrip(exponent: seq<byte>)
    requires |exponent| == 4
    ensures ExponentOf(EncodeInteger(exponent)) == Ok(exponent) <==> exponent[3] % 2 == 1 && exponent[0] < 128
  {
    if exponent[0] != 0 {
      StrippedFacts(exponent);
      assert EncodeInteger(exponent) == if exponent[0] >= 128 then [0] + exponent else exponent;
    } else {
      hide EncodeInteger, Padded;
      ShortExponent(exponent);
    }
  }

  lemma PaddedIsUnique(e: seq<byte>, exponent: seq<byte>, m: seq<byte>)
    requires 0 < |e| <= 4 == |exponent| && (e == m || e == [0] + m)
    requires |m| <= 4 && seq(4 - |m|, _ => 0) + m == exponent
    ensures Padded(e, 4) == exponent
  {
    if e == [0] + m {
      assert seq(4 - |m|, _ => 0) == seq(4 - |e|, _ => 0) + [0];
    }
  }

  /** A sequence of two integers is read to the key they hold. */
  lemma SequenceParses(m: seq<byte>, e: seq<byte>)
    requires |m| <= RSA_2048_LEN + 1 && |e| <= 5
    ensures |EncodeTlv(INTEGER, m) + EncodeTlv(INTEGER, e)| < 0x1_0000_0000
    ensures ParsePublicKey(EncodeTlv(SEQUENCE, EncodeTlv(INTEGER, m) + EncodeTlv(INTEGER, e)))
            == if ModulusOf(m).Err? then Err(ModulusOf(m).error)
               else if ExponentOf(e).Err? then Err(ExponentOf(e).error)
               else Ok(PublicKey(ModulusOf(m).value, ExponentOf(e).value))
  {
    hide DecodeTlv, EncodeTlv, ModulusOf, ExponentOf;
    var body := EncodeTlv(INTEGER, m) + EncodeTlv(INTEGER, e);
    TlvSize(INTEGER, m);
    TlvSize(INTEGER, e);
    TlvRoundTrip(SEQUENCE, body, []);
    assert EncodeTlv(SEQUENCE, body) + [] == EncodeTlv(SEQUENCE, body);
    TlvRoundTrip(INTEGER, m, EncodeTlv(INTEGER, e));
    TlvRoundTrip(INTEGER, e, []);
    assert EncodeTlv(INTEGER, e) + [] == EncodeTlv(INTEGER, e);
  }

  /**
   Parsing the distinguished encoding of a key gives the key back exactly when
   its modulus fills the size and its exponent is odd and below 2^31.
   */
  lemma PublicKeyRoundTrip(key: PublicKey)
    requires |key.modulus| == RSA_2048_LEN && |key.exponent| == 4
    ensures ParsePublicKey(EncodePublicKey(key)) == Ok(key) <==>
            (key.modulus[0] != 0 || key.modulus[1] >= 128) && key.exponent[3] % 2 == 1 && key.exponent[0] < 128
  {
    hide EncodeTlv, EncodeInteger, ModulusOf, ExponentOf, ParsePublicKey;
    SequenceParses(EncodeInteger(key.modulus), EncodeInteger(key.exponent));
    ModulusRoundTrip(key.modulus);
    ExponentRoundTrip(key.exponent);
  }

  // ---------- which accepted keys are distinguished encodings ----------

  /** The length bytes at the front of `w` are as few as possible. */
  predicate ShortestLength(w: seq<byte>) {
    w != [] && (w[0] < 128 || (|w| > 1 && w[1] != 0 && (w[0] > 129 || w[1] >= 128)))
  }

  /** A non-negative integer without a superfluous leading zero. */
  predicate MinimalInteger(i: seq<byte>) {
    i != [] && i[0] < 128 && (|i| == 1 || i[0] != 0 || i[1] >= 128)
  }

  predicate Distinguished(der: seq<byte>)
    requires ParsePublicKey(der).Ok?
  {
    var body := DecodeTlv(der, SEQUENCE).value.value;
    var modulus := DecodeTlv(body, INTEGER).value;
    var exponent := DecodeTlv(modulus.rest, INTEGER).value;
    && ShortestLength(der[1..]) && ShortestLength(body[1..]) && ShortestLength(modulus.rest[1..])
    && MinimalInteger(modulus.value) && MinimalInteger(exponent.value)
  }

  lemma {:induction false} BeValRange(s: seq<byte>)
    ensures BeVal(s) < Pow(256, |s|)
    ensures s != [] && s[0] != 0 ==> BeVal(s) >= Pow(256, |s| - 1)
    ensures s != [] && s[0] == 0 ==> BeVal(s) < Pow(256, |s| - 1)
  {
    if |s| > 1 {
      BeValRange(s[..|s| - 1]);
    } else if |s| == 1 {
      assert BeVal(s[..0]) == 0;
    }
  }

  lemma {:induction false} ByteCountIs(n: nat, k: nat)
    requires k > 0 && Pow(256, k - 1) <= n < Pow(256, k)
    ensures ByteCount(n) == k
  {
    if k > 1 {
      ByteCountIs(n / 256, k - 1);
    } else {
      assert n / 256 == 0;
    }
  }

  lemma BytesOfVal(s: seq<byte>)
    ensures BeBytes(BeVal(s), |s|) == s
  {
    BeValRange(s);
    BeBytesVal(BeVal(s), |s|);
    BeValInjective(BeBytes(BeVal(s), |s|), s);
  }

  /** The number in `s` is written in `|s|` length bytes exactly when those bytes are needed. */
  lemma LongLengthIff(s: seq<byte>)
    requires 0 < |s| <= USIZE_BYTES
    ensures BeVal(s) < 0x1_0000_0000
    ensures EncodeLength(BeVal(s)) == [128 + |s|] + s <==> s[0] != 0 && (|s| > 1 || s[0] >= 128)
  {
    var n, k := BeVal(s), |s|;
    FourBytes();
    PowMonotone(256, k, 4);
    BeValRange(s);
    BytesOfVal(s);
    if s[0] == 0 {
      ByteCountAtMost(n, k - 1);
    } else {
      ByteCountIs(n, k);
      if k > 1 {
        PowMonotone(256, 1, k - 1);
        assert n >= Pow(256, 1) == 256 * Pow(256, 0);
      } else {
        assert BeVal(s[..0]) == 0;
      }
    }
  }

  lemma LengthIsShortest(w: seq<byte>)
    requires DecodeLength(w).Ok?
    ensures DecodeLength(w).value.len < 0x1_0000_0000
    ensures w == EncodeLength(DecodeLength(w).value.len) + DecodeLength(w).value.rest <==> ShortestLength(w)
  {
    var len, rest := DecodeLength(w).value.len, DecodeLength(w).value.rest;
    if w[0] < 128 {
      assert w == [w[0]] + w[1..];
    } else {
      var k := w[0] - 128;
      var s := w[1..1 + k];
      LongLengthIff(s);
      hide EncodeLength;
      assert w == [128 + k] + s + rest;
      SameBehind(EncodeLength(len), [128 + k] + s, rest);
    }
  }

  lemma SameBehind(a: seq<byte>, b: seq<byte>, rest: seq<byte>)
    ensures a + rest == b + rest <==> a == b
  {
    if a + rest == b + rest {
      assert |a| == |b|;
      assert a == (a + rest)[..|a|] == (b + rest)[..|b|] == b;
    }
  }

  lemma TlvIsShortest(w: seq<byte>, tag: byte)
    requires DecodeTlv(w, tag).Ok?
    ensures |DecodeTlv(w, tag).value.value| < 0x1_0000_0000
    ensures w == EncodeTlv(tag, DecodeTlv(w, tag).value.value) + DecodeTlv(w, tag).value.rest
            <==> ShortestLength(w[1..])
  {
    hide DecodeLength, EncodeLength, ShortestLength;
    var value, rest := DecodeTlv(w, tag).value.value, DecodeTlv(w, tag).value.rest;
    LengthIsShortest(w[1..]);
    assert DecodeLength(w[1..]).value.rest == value + rest;
    assert EncodeTlv(tag, value) + rest == [tag] + (EncodeLength(|value|) + (value + rest));
    assert w == [tag] + w[1..];
    assert ([tag] + (EncodeLength(|value|) + (value + rest)))[1..] == EncodeLength(|value|) + (value + rest);
  }

  lemma {:induction false} StrippedZeros(n: nat, s: seq<byte>)
    ensures Stripped(seq(n, _ => 0) + s) == Stripped(s)
  {
    var zeros: seq<byte> := seq(n, _ => 0);
    if n == 0 {
      assert zeros + s == s;
    } else {
      assert (zeros + s)[1..] == seq(n - 1, _ => 0) + s;
      StrippedZeros(n - 1, s);
    }
  }

  lemma IntegerIsMinimal(i: seq<byte>)
    requires i != []
    ensures EncodeInteger(i) == i <==> MinimalInteger(i)
  {
    if i[0] == 0 && |i| > 1 {
      assert i == [0] + i[1..] && Stripped(i) == Stripped(i[1..]);
      if i[1] == 0 {
        assert Stripped(i) == Stripped(i[1..][1..]);
      } else {
        assert Stripped(i[1..]) == i[1..];
      }
    }
  }

  lemma ModulusInteger(i: seq<byte>)
    requires ModulusOf(i).Ok?
    ensures |ModulusOf(i).value| == RSA_2048_LEN
    ensures EncodeInteger(ModulusOf(i).value) == i <==> MinimalInteger(i)
  {
    IntegerIsMinimal(i);
    if |i| == RSA_2048_LEN + 1 {
      assert Stripped(i) == Stripped(i[1..]);
    }
  }

  lemma ExponentInteger(i: seq<byte>)
    requires ExponentOf(i).Ok?
    ensures |ExponentOf(i).value| == 4
    ensures EncodeInteger(ExponentOf(i).value) == i <==> MinimalInteger(i)
  {
    IntegerIsMinimal(i);
    StrippedZeros(4 - |i|, i);
  }

  /** An element decodes to one value, so equal encodings have equal parts. */
  lemma SameTlv(w: seq<byte>, tag: byte, value: seq<byte>, rest: seq<byte>)
    requires |value| < 0x1_0000_0000 && w == EncodeTlv(tag, value) + rest
    ensures DecodeTlv(w, tag) == Ok(Tlv(value, rest)) && ShortestLength(w[1..])
  {
    hide DecodeTlv, EncodeTlv, ShortestLength;
    TlvRoundTrip(tag, value, rest);
    TlvIsShortest(w, tag);
  }

  /**
   What is parsed is the distinguished encoding of the key exactly when lengths and
   integers are as short as they can be.
   */
  lemma DistinguishedIff(der: seq<byte>)
    requires ParsePublicKey(der).Ok?
    ensures der == EncodePublicKey(ParsePublicKey(der).value) <==> Distinguished(der)
  {
    hide DecodeTlv, EncodeTlv, EncodeInteger, ModulusOf, ExponentOf, ShortestLength, MinimalInteger;
    var outer := DecodeTlv(der, SEQUENCE).value;
    var first := DecodeTlv(outer.value, INTEGER).value;
    var second := DecodeTlv(first.rest, INTEGER).value;
    var key := ParsePublicKey(der).value;
    ModulusInteger(first.value);
    ExponentInteger(second.value);
    var m, e := EncodeInteger(key.modulus), EncodeInteger(key.exponent);
    TlvSize(INTEGER, m);
    TlvSize(INTEGER, e);
    var body := EncodeTlv(INTEGER, m) + EncodeTlv(INTEGER, e);
    if der == EncodePublicKey(key) {
      assert der == EncodeTlv(SEQUENCE, body) + [];
      SameTlv(der, SEQUENCE, body, []);
      SameTlv(body, INTEGER, m, EncodeTlv(INTEGER, e));
      assert EncodeTlv(INTEGER, e) == EncodeTlv(INTEGER, e) + [];
      SameTlv(EncodeTlv(INTEGER, e), INTEGER, e, []);
    }
    if Distinguished(der) {
      TlvIsShortest(der, SEQUENCE);
      TlvIsShortest(outer.value, INTEGER);
      TlvIsShortest(first.rest, INTEGER);
      assert first.rest == EncodeTlv(INTEGER, e) + [] == EncodeTlv(INTEGER, e);
      assert outer.value == body;
      assert der == EncodeTlv(SEQUENCE, body) + [] == EncodeTlv(SEQUENCE, body);
    }
  }

  /** A modulus with its top bit set and no sign byte reads as a negative number in DER, and is accepted. */
  lemma SignlessModulusAccepted(m: seq<byte>, e: seq<byte>)
    requires |m| == 256 && m[0] >= 128 && ExponentOf(e).Ok?
    ensures |EncodeTlv(INTEGER, m) + EncodeTlv(INTEGER, e)| < 0x1_0000_0000
    ensures var der := EncodeTlv(SEQUENCE, EncodeTlv(INTEGER, m) + EncodeTlv(INTEGER, e));
            && ParsePublicKey(der) == Ok(PublicKey(m, ExponentOf(e).value))
            && der != EncodePublicKey(PublicKey(m, ExponentOf(e).value))
  {
    hide DecodeTlv, EncodeTlv, ParsePublicKey;
    SequenceParses(m, e);
    var body, key := EncodeTlv(INTEGER, m) + EncodeTlv(INTEGER, e), PublicKey(m, ExponentOf(e).value);
    if EncodeTlv(SEQUENCE, body) == EncodePublicKey(key) {
      var m', e' := EncodeInteger(key.modulus), EncodeInteger(key.exponent);
      TlvSize(INTEGER, m');
      TlvSize(INTEGER, e');
      var body' := EncodeTlv(INTEGER, m') + EncodeTlv(INTEGER, e');
      SameParts(SEQUENCE, body, [], body', []);
      SameParts(INTEGER, m, EncodeTlv(INTEGER, e), m', EncodeTlv(INTEGER, e'));
      ModulusInteger(m);
    }
  }

  lemma SameParts(tag: byte, value: seq<byte>, rest: seq<byte>, value': seq<byte>, rest': seq<byte>)
    requires |value| < 0x1_0000_0000 && |value'| < 0x1_0000_0000
    requires EncodeTlv(tag, value) + rest == EncodeTlv(tag, value') + rest'
    ensures value == value' && rest == rest'
  {
    hide DecodeTlv, EncodeTlv;
    TlvRoundTrip(tag, value, rest);
    TlvRoundTrip(tag, value', rest');
  }

  lemma TlvSize(tag: byte, value: seq<byte>)
    requires |value| < 0x1_0000_0000
    ensures |EncodeTlv(tag, value)| <= 6 + |value|
  {
    LengthSize(|value|);
  }
}
