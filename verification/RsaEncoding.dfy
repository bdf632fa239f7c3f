/**
 The two encoded-message checks of the RSA-2048/SHA-256 verifier, against the
 encodings of RFC 8017 (sections 9.1.1 and 9.2). SHA-256 is any function with
 32-byte results.
 */
module RsaEncoding {
  import opened Bytes
  import opened Slices

  type Digest = s: seq<byte> | |s| == 32 witness seq(32, _ => 0)
  type Hash = seq<byte> -> Digest

  const EM_LEN: nat := 256
  const HASH_LEN: nat := 32
  const MASKED_DB_LEN: nat := EM_LEN - HASH_LEN - 1
  const PS_LEN: nat := MASKED_DB_LEN - HASH_LEN - 1
  const TRAILER_FIELD: byte := 0xbc
  const DIGEST_INFO_PREFIX: seq<byte> :=
    [0x30, 0x31, 0x30, 0x0d, 0x06, 0x09, 0x60, 0x86, 0x48, 0x01, 0x65, 0x03, 0x04, 0x02, 0x01, 0x05,
     0x00, 0x04, 0x20]

  datatype Verdict = Ok | InvalidSignature

  // ---------- MGF1 (RFC 8017, appendix B.2.1) ----------

  /** The four bytes of the counter, most significant first: I2OSP(counter, 4). */
  function CounterBytes(counter: u32): (s: seq<byte>)
    ensures |s| == 4 && BeVal(s) == counter && s == BeBytes(counter, 4)
  {
    var s := [counter / 0x100_0000 % 256, counter / 0x1_0000 % 256, counter / 0x100 % 256, counter % 256];
    FourBytesValue(s);
    CounterQuotients(counter);
    FourBytes();
    BeBytesVal(counter, 4);
    BeValInjective(s, BeBytes(counter, 4));
    s
  }

  lemma FourBytesValue(s: seq<byte>)
    requires |s| == 4
    ensures BeVal(s) == 256 * (256 * (256 * s[0] as int + s[1]) + s[2]) + s[3]
  {
    assert s[..3][..2] == s[..2] && s[..2][..1] == s[..1] && s[..1][..0] == [];
    assert BeVal(s[..1]) == s[0] && BeVal(s[..2]) == 256 * s[0] as int + s[1];
    assert BeVal(s[..3]) == 256 * (256 * s[0] as int + s[1]) + s[2];
  }

  lemma CounterQuotients(counter: u32)
    ensures counter / 0x100 / 0x100 == counter / 0x1_0000 && counter / 0x1_0000 / 0x100 == counter / 0x100_0000
    ensures counter / 0x100_0000 < 0x100
  {}

  /** The block for a counter: Hash(seed || I2OSP(counter, 4)). */
  function Block(hash: Hash, seed: seq<byte>, counter: nat): Digest {
    hash(seed + BeBytes(counter, 4))
  }

  /** The first `n` blocks, with the counter held in 32 bits. */
  function MaskBlocks(hash: Hash, seed: seq<byte>, n: nat): (t: seq<byte>)
    ensures |t| == 32 * n
  {
    if n == 0 then [] else MaskBlocks(hash, seed, n - 1) + Block(hash, seed, (n - 1) % 0x1_0000_0000)
  }

  function Mgf1(hash: Hash, seed: seq<byte>, maskLen: nat): (mask: seq<byte>)
    ensures |mask| == maskLen
  {
    MaskBlocks(hash, seed, (maskLen + 31) / 32)[..maskLen]
  }

  lemma {:induction false} MaskBlocksByte(hash: Hash, seed: seq<byte>, n: nat, i: nat)
    requires i < 32 * n
    ensures MaskBlocks(hash, seed, n)[i] == hash(seed + BeBytes(i / 32 % 0x1_0000_0000, 4))[i % 32]
  {
    if i < 32 * (n - 1) {
      MaskBlocksByte(hash, seed, n - 1, i);
    } else {
      assert i == 32 * (n - 1) + (i - 32 * (n - 1)) && i / 32 == n - 1;
    }
  }

  /** The mask byte by byte: byte `i` is one of the hash of the seed and the number of its block. */
  lemma MaskByte(hash: Hash, seed: seq<byte>, maskLen: nat, i: nat)
    requires i < maskLen
    ensures Mgf1(hash, seed, maskLen)[i] == hash(seed + BeBytes(i / 32 % 0x1_0000_0000, 4))[i % 32]
  {
    MaskBlocksByte(hash, seed, (maskLen + 31) / 32, i);
  }

  lemma NextCounter(n: nat)
    ensures (n % 0x1_0000_0000 + 1) % 0x1_0000_0000 == (n + 1) % 0x1_0000_0000
  {
    var q, r := n / 0x1_0000_0000, n % 0x1_0000_0000;
    assert n + 1 == 0x1_0000_0000 * q + (r + 1);
  }

  lemma NextBlock(hash: Hash, seed: seq<byte>, blocks: nat, copyLen: nat)
    requires copyLen <= HASH_LEN
    ensures MaskBlocks(hash, seed, blocks + 1)[..HASH_LEN * blocks + copyLen]
            == MaskBlocks(hash, seed, blocks)[..HASH_LEN * blocks]
              + Block(hash, seed, blocks % 0x1_0000_0000)[..copyLen]
  {}

  method Mgf1Sha256(hash: Hash, seed: seq<byte>, out: array<byte>)
    modifies out
    ensures out[..] == Mgf1(hash, seed, out.Length)
  {
    var counter := 0;
    ghost var blocks: nat := 0;
    var start := 0;
    while start < out.Length
      invariant 0 <= start <= out.Length && start <= HASH_LEN * blocks < start + HASH_LEN
      invariant start < out.Length ==> start == HASH_LEN * blocks
      invariant counter == blocks % 0x1_0000_0000
      invariant out[..start] == MaskBlocks(hash, seed, blocks)[..start]
    {
      var digest := hash(seed + CounterBytes(counter));
      var copyLen := if out.Length - start < HASH_LEN then out.Length - start else HASH_LEN;
      NextBlock(hash, seed, blocks, copyLen);
      NextCounter(blocks);
      ghost var done := out[..start];
      CopyFromSlice(out, start, digest[..copyLen]);
      assert out[..start + copyLen] == done + digest[..copyLen];
      start := start + copyLen;
      blocks := blocks + 1;
      counter := (counter + 1) % 0x1_0000_0000;
    }
    assert out[..start] == out[..];
  }

  // ---------- EMSA-PSS (RFC 8017, section 9.1.1, emBits = 2047, sLen = 32) ----------

  /** XOR with the mask, then the leftmost bit cleared; the mask is its own inverse. */
  function Masked(s: seq<byte>, mask: seq<byte>): (t: seq<byte>)
    requires |s| == |mask| > 0
    ensures |t| == |s|
  {
    [XorByte(s[0], mask[0]) % 128] + seq(|s| - 1, i requires 0 <= i < |s| - 1 => XorByte(s[i + 1], mask[i + 1]))
  }

  lemma MaskedTwice(s: seq<byte>, mask: seq<byte>)
    requires |s| == |mask| > 0 && s[0] < 128
    ensures Masked(Masked(s, mask), mask) == s
  {
    hide Xor;
    var t := Masked(Masked(s, mask), mask);
    ClearedXorCancels(s[0], mask[0]);
    forall i | 1 <= i < |s|
      ensures t[i] == s[i]
    {
      XorCancels(s[i], mask[i]);
    }
  }

  function SaltedHash(hash: Hash, message: seq<byte>, salt: seq<byte>): Digest {
    hash(Zeros(8) + hash(message) + salt)
  }

  function DataBlock(salt: seq<byte>): seq<byte> {
    Zeros(190) + [0x01] + salt
  }

  function PssEncode(hash: Hash, message: seq<byte>, salt: seq<byte>): (em: seq<byte>)
    requires |salt| == 32
    ensures |em| == 256
  {
    var h := SaltedHash(hash, message, salt);
    Masked(DataBlock(salt), Mgf1(hash, h, 223)) + h + [0xbc]
  }

  ghost predicate EncodedWith(hash: Hash, message: seq<byte>, em: seq<byte>, salt: seq<byte>) {
    |salt| == 32 && em == PssEncode(hash, message, salt)
  }

  ghost predicate IsPssEncoding(hash: Hash, message: seq<byte>, em: seq<byte>) {
    exists salt: seq<byte> :: EncodedWith(hash, message, em, salt)
  }

  /** What the check recomputes from the encoded message: the unmasked data block. */
  function Unmask(hash: Hash, em: seq<byte>): (db: seq<byte>)
    requires |em| == EM_LEN
    ensures |db| == MASKED_DB_LEN
  {
    Masked(em[..MASKED_DB_LEN], Mgf1(hash, em[MASKED_DB_LEN..EM_LEN - 1], MASKED_DB_LEN))
  }

  /** All the check looks at, for a given salt. */
  predicate Consistent(hash: Hash, message: seq<byte>, em: seq<byte>, salt: seq<byte>)
    requires |em| == EM_LEN
  {
    && em[EM_LEN - 1] == TRAILER_FIELD
    && em[0] < 128
    && em[MASKED_DB_LEN..EM_LEN - 1] == SaltedHash(hash, message, salt)
    && Unmask(hash, em) == DataBlock(salt)
  }

  /** Unmasking an encoding gives back padding, separator and salt. */
  lemma EncodingIsConsistent(hash: Hash, message: seq<byte>, salt: seq<byte>)
    requires |salt| == HASH_LEN
    ensures Consistent(hash, message, PssEncode(hash, message, salt), salt)
  {
    var em := PssEncode(hash, message, salt);
    var h := SaltedHash(hash, message, salt);
    var mask := Mgf1(hash, h, MASKED_DB_LEN);
    assert em[MASKED_DB_LEN..EM_LEN - 1] == h;
    assert em[..MASKED_DB_LEN] == Masked(DataBlock(salt), mask);
    MaskedTwice(DataBlock(salt), mask);
  }

  /** An encoded message is determined by what the check looks at. */
  lemma ConsistentIsEncoding(hash: Hash, message: seq<byte>, em: seq<byte>, salt: seq<byte>)
    requires |em| == EM_LEN && |salt| == HASH_LEN && Consistent(hash, message, em, salt)
    ensures em == PssEncode(hash, message, salt)
  {
    MaskedTwice(em[..MASKED_DB_LEN], Mgf1(hash, em[MASKED_DB_LEN..EM_LEN - 1], MASKED_DB_LEN));
    assert em == em[..MASKED_DB_LEN] + em[MASKED_DB_LEN..EM_LEN - 1] + [em[EM_LEN - 1]];
  }

  /** Any encoding is consistent with the salt the check extracts, and conversely. */
  lemma ExtractedSalt(hash: Hash, message: seq<byte>, em: seq<byte>, salt: seq<byte>)
    requires EncodedWith(hash, message, em, salt)
    ensures |em| == EM_LEN && salt == Unmask(hash, em)[PS_LEN + 1..] && Consistent(hash, message, em, salt)
  {
    EncodingIsConsistent(hash, message, salt);
    assert DataBlock(salt)[PS_LEN + 1..] == salt;
  }

  lemma PssEncodingIff(hash: Hash, message: seq<byte>, em: seq<byte>, salt: seq<byte>)
    requires |em| == EM_LEN && salt == Unmask(hash, em)[PS_LEN + 1..]
    ensures IsPssEncoding(hash, message, em) <==> EncodedWith(hash, message, em, salt)
    ensures EncodedWith(hash, message, em, salt) <==> Consistent(hash, message, em, salt)
  {
    if s: seq<byte> :| EncodedWith(hash, message, em, s) {
      ExtractedSalt(hash, message, em, s);
    }
    if Consistent(hash, message, em, salt) {
      ConsistentIsEncoding(hash, message, em, salt);
    }
  }

  lemma SplitDataBlock(db: seq<byte>)
    requires |db| == MASKED_DB_LEN
    ensures db == DataBlock(db[PS_LEN + 1..]) <==> (forall i :: 0 <= i < PS_LEN ==> db[i] == 0) && db[PS_LEN] == 0x01
  {
    var block := DataBlock(db[PS_LEN + 1..]);
    assert db == db[..PS_LEN] + [db[PS_LEN]] + db[PS_LEN + 1..];
    assert block[..PS_LEN] == Zeros(PS_LEN) && block[PS_LEN] == 0x01;
    if db == block {
      assert forall i :: 0 <= i < PS_LEN ==> db[i] == Zeros(PS_LEN)[i];
    } else if forall i :: 0 <= i < PS_LEN ==> db[i] == 0 {
      assert db[..PS_LEN] == Zeros(PS_LEN);
    }
  }

  /** Accepts exactly the EMSA-PSS encodings of the message, over all 32-byte salts. */
  method VerifyPss(hash: Hash, message: seq<byte>, em: seq<byte>) returns (r: Verdict)
    requires |em| == EM_LEN
    ensures r.Ok? <==> IsPssEncoding(hash, message, em)
  {
    PssEncodingIff(hash, message, em, Unmask(hash, em)[PS_LEN + 1..]);
    if em[EM_LEN - 1] != TRAILER_FIELD {
      return InvalidSignature;
    }
    if em[0] >= 128 {
      return InvalidSignature;
    }
    var maskedDb := em[..MASKED_DB_LEN];
    var h := em[MASKED_DB_LEN..EM_LEN - 1];
    var db := UnmaskInLoop(hash, maskedDb, h);
    SplitDataBlock(db[..]);
    if !(forall i :: 0 <= i < PS_LEN ==> db[..][i] == 0) || db[PS_LEN] != 0x01 {
      return InvalidSignature;
    }
    var salt := db[PS_LEN + 1..];
    var expectedH := hash([0, 0, 0, 0, 0, 0, 0, 0] + hash(message) + salt);
    assert Zeros(8) == [0, 0, 0, 0, 0, 0, 0, 0];
    return if expectedH == h then Ok else InvalidSignature;
  }

  /** The mask generation and the XOR loop over the data block. */
  method UnmaskInLoop(hash: Hash, maskedDb: seq<byte>, h: seq<byte>) returns (db: array<byte>)
    requires |maskedDb| == MASKED_DB_LEN
    ensures fresh(db) && db[..] == Masked(maskedDb, Mgf1(hash, h, MASKED_DB_LEN))
  {
    var dbMask := new byte[MASKED_DB_LEN];
    Mgf1Sha256(hash, h, dbMask);
    ghost var mask := dbMask[..];
    db := new byte[MASKED_DB_LEN](_ => 0);
    for index := 0 to MASKED_DB_LEN
      invariant forall k :: 0 <= k < index ==> db[k] == XorByte(maskedDb[k], mask[k])
      invariant dbMask[..] == mask
    {
      db[index] := XorByte(maskedDb[index], dbMask[index]);
    }
    db[0] := db[0] % 128;
  }

  /** An accepted message fixes its salt. */
  lemma PssSaltUnique(hash: Hash, message: seq<byte>, s: seq<byte>, t: seq<byte>)
    requires |s| == |t| == HASH_LEN
    requires PssEncode(hash, message, s) == PssEncode(hash, message, t)
    ensures s == t
  {
    EncodingIsConsistent(hash, message, s);
    EncodingIsConsistent(hash, message, t);
    assert DataBlock(s)[PS_LEN + 1..] == s && DataBlock(t)[PS_LEN + 1..] == t;
  }

  // ---------- EMSA-PKCS1-v1_5 (RFC 8017, section 9.2) ----------

  /** One element of a distinguished encoding with a short length. */
  function Element(tag: byte, value: seq<byte>): (s: seq<byte>)
    ensures |s| == 2 + |value|
  {
    [tag, |value| % 256] + value
  }

  /**
   The DigestInfo of a SHA-256 digest: the algorithm 2.16.840.1.101.3.4.2.1 with
   NULL parameters in one sequence with the digest as an octet string.
   */
  function DigestInfo(digest: Digest): (s: seq<byte>)
    ensures |s| == 51
  {
    var id := [2 * 40 + 16, 128 + 840 / 128, 840 % 128, 1, 101, 3, 4, 2, 1];
    Element(0x30, Element(0x30, Element(0x06, id) + Element(0x05, [])) + Element(0x04, digest))
  }

  const ALGORITHM: seq<byte> := [0x30, 13, 0x06, 9, 96, 134, 72, 1, 101, 3, 4, 2, 1, 0x05, 0]

  lemma AlgorithmElement()
    ensures var id := [2 * 40 + 16, 128 + 840 / 128, 840 % 128, 1, 101, 3, 4, 2, 1];
            Element(0x30, Element(0x06, id) + Element(0x05, [])) == ALGORITHM
  {}

  lemma DigestInfoPrefix(digest: Digest)
    ensures DigestInfo(digest) == DIGEST_INFO_PREFIX + digest
  {
    AlgorithmElement();
    assert DIGEST_INFO_PREFIX == [0x30, 49] + ALGORITHM + [0x04, 32];
    Regrouped([0x30, 49], ALGORITHM, [0x04, 32], digest);
  }

  lemma Regrouped(a: seq<byte>, b: seq<byte>, c: seq<byte>, d: seq<byte>)
    ensures a + (b + (c + d)) == a + b + c + d
  {}

  function Pkcs1Encode(hash: Hash, message: seq<byte>): (em: seq<byte>)
    ensures |em| == 256
  {
    var t := DigestInfo(hash(message));
    [0x00, 0x01] + seq(256 - |t| - 3, _ => 0xff) + [0x00] + t
  }

  method VerifyPkcs1v15(hash: Hash, message: seq<byte>, em: seq<byte>) returns (r: Verdict)
    requires |em| == EM_LEN
    ensures r.Ok? <==> em == Pkcs1Encode(hash, message)
  {
    var separatorIndex := EM_LEN - |DIGEST_INFO_PREFIX| - HASH_LEN - 1;
    var prefixStart := separatorIndex + 1;
    var digestStart := prefixStart + |DIGEST_INFO_PREFIX|;
    ghost var expected := Pkcs1Encode(hash, message);
    DigestInfoPrefix(hash(message));
    assert expected[0] == 0x00 && expected[1] == 0x01 && expected[separatorIndex] == 0x00;
    assert forall i :: 2 <= i < separatorIndex ==> expected[i] == 0xff;
    assert expected[prefixStart..digestStart] == DIGEST_INFO_PREFIX;
    assert expected[digestStart..] == hash(message);
    if em[0] != 0x00 || em[1] != 0x01 {
      return InvalidSignature;
    }
    if !(forall i :: 2 <= i < separatorIndex ==> em[i] == 0xff) || em[separatorIndex] != 0x00 {
      return InvalidSignature;
    }
    if em[prefixStart..digestStart] != DIGEST_INFO_PREFIX {
      return InvalidSignature;
    }
    if em[digestStart..] != hash(message) {
      return InvalidSignature;
    }
    assert em == em[..prefixStart] + em[prefixStart..digestStart] + em[digestStart..];
    assert expected == expected[..prefixStart] + DIGEST_INFO_PREFIX + hash(message);
    assert em[..prefixStart] == expected[..prefixStart];
    return Ok;
  }
}
