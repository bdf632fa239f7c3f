/**
 The encrypted firmware container: a fixed header, then per 4096 plaintext
 bytes a length, the ciphertext and its tag. Packing and unpacking are each
 other's inverse, so the container of an image is unique.
 */
module OtaContainer {
  import opened Bytes
  import opened Wrappers

  const ENC_CHUNK_SIZE: nat := 4096
  const OTA_V2_HEADER_SIZE: nat := 16
  const HMAC_TAG_SIZE: nat := 32
  const OTA_HEADER_MAGIC: seq<byte> := [0x4d, 0x4f, 0x54, 0x4f, 0x54, 0x41, 0x32, 0x00]
  const OTA_V2_HEADER_VERSION: byte := 2

  datatype HeaderError = TooShort | InvalidMagic | InvalidVersion | ReservedNonZero
  datatype PrefixError =
    | PrefixTooShort | WrongMagic | InvalidSegmentCount | InvalidFlashMode | InvalidFlashSizeFrequency
      | ZeroEntryAddress
  datatype OtaError =
    | ReadFailed | InvalidHeader(header: HeaderError) | ChunkTruncated | HmacMismatch
      | InvalidPrefix(prefix: PrefixError)
    | ImageTooLargeForSlot | FlashOutOfBounds | SizeMismatch | ShaMismatch | FlashVerifyFailed

  type OtaResult<T> = Result<T, OtaError>

  /** Key stream, chunk tag and image hash; keys, nonce prefix and manifest digest are fixed per download. */
  datatype Crypto = Crypto(
    crypt: (nat, seq<byte>) -> seq<byte>,
    tag: (nat, nat, nat, seq<byte>) -> seq<byte>,
    sha: seq<byte> -> seq<byte>)

  /** A stream cipher undoes itself, and tags have their size. */
  ghost predicate Lawful(c: Crypto) {
    && (forall i, d :: |c.crypt(i, d)| == |d| && c.crypt(i, c.crypt(i, d)) == d)
    && (forall i, offset, len, d :: |c.tag(i, offset, len, d)| == HMAC_TAG_SIZE)
  }

  function ValidateOtaHeader(header: seq<byte>): OtaResult<()> {
    if |header| < OTA_V2_HEADER_SIZE then Err(InvalidHeader(TooShort))
    else if header[..8] != OTA_HEADER_MAGIC then Err(InvalidHeader(InvalidMagic))
    else if header[8] != OTA_V2_HEADER_VERSION then Err(InvalidHeader(InvalidVersion))
    else if exists k :: 9 <= k < 16 && header[k] != 0 then Err(InvalidHeader(ReservedNonZero))
    else Ok(())
  }

  /** "MOTOTA2", a zero, version 2 and seven reserved zeros. */
  function ContainerHeader(): (h: seq<byte>)
    ensures |h| == 16
  {
    [0x4d, 0x4f, 0x54, 0x4f, 0x54, 0x41, 0x32, 0, 2, 0, 0, 0, 0, 0, 0, 0]
  }

  /** Exactly one 16-byte header is accepted. */
  lemma HeaderUnique(header: seq<byte>)
    requires |header| == 16
    ensures ValidateOtaHeader(header).Ok? <==> header == ContainerHeader()
  {
    var h := ContainerHeader();
    assert h == h[..8] + [h[8]] + h[9..];
    assert h[..8] == OTA_HEADER_MAGIC && h[8] == 2 && h[9..] == [0, 0, 0, 0, 0, 0, 0];
    if ValidateOtaHeader(header).Ok? {
      assert header == header[..8] + [header[8]] + header[9..];
      assert header[9..] == [0, 0, 0, 0, 0, 0, 0];
    }
  }

  /** What is wrong with a header that is refused: the first wrong field. */
  lemma HeaderErrorIs(header: seq<byte>, e: HeaderError)
    requires ValidateOtaHeader(header) == Err(InvalidHeader(e))
    ensures match e
            case TooShort => |header| < 16
            case InvalidMagic => |header| >= 16 && header[..8] != ContainerHeader()[..8]
            case InvalidVersion => |header| >= 16 && header[..8] == ContainerHeader()[..8] && header[8] != 2
            case ReservedNonZero => |header| >= 16 && header[..9] == ContainerHeader()[..9]
                                    && exists k :: 9 <= k < 16 && header[k] != 0
  {
    var h := ContainerHeader();
    assert h[..8] == OTA_HEADER_MAGIC && h[..9] == h[..8] + [2];
    if |header| >= 16 {
      assert header[..9] == header[..8] + [header[8]];
    }
  }

  function ValidateEspImagePrefix(prefix: seq<byte>): OtaResult<()> {
    if |prefix| < 8 then Err(InvalidPrefix(PrefixTooShort))
    else if prefix[0] != 0xe9 then Err(InvalidPrefix(WrongMagic))
    else if !(1 <= prefix[1] <= 16) then Err(InvalidPrefix(InvalidSegmentCount))
    else if prefix[2] > 3 then Err(InvalidPrefix(InvalidFlashMode))
    else
      var frequency, size := prefix[3] % 16, prefix[3] / 16;
      var entry := prefix[4] as int + 0x100 * prefix[5] as int
                   + 0x1_0000 * prefix[6] as int + 0x100_0000 * prefix[7] as int;
      if frequency !in {0, 1, 2, 15} || size > 8 then Err(InvalidPrefix(InvalidFlashSizeFrequency))
      else if entry == 0 then Err(InvalidPrefix(ZeroEntryAddress))
      else Ok(())
  }

  // ---------- what an image starts with ----------

  /** Flash size and frequency share a byte. */
  function FlashField(size: nat, frequency: nat): nat {
    16 * size + frequency
  }

  ghost predicate FlashByte(b: byte) {
    exists size: nat, frequency: nat ::
      FlashField(size, frequency) == b && size <= 8 && (frequency <= 2 || frequency == 15)
  }

  /**
   The first eight bytes of an image: 0xe9, one to sixteen segments, a flash mode up
   to 3, flash size and frequency, and an entry address that is not zero.
   */
  ghost predicate StartsLikeImage(image: seq<byte>) {
    && |image| >= 8 && image[0] == 233 && 1 <= image[1] && image[1] < 17 && image[2] < 4 && FlashByte(image[3])
    && !(image[4] == image[5] == image[6] == image[7] == 0)
  }

  lemma FlashByteIff(b: byte)
    ensures FlashByte(b) <==> b % 16 in {0, 1, 2, 15} && b / 16 <= 8
  {
    if b % 16 in {0, 1, 2, 15} && b / 16 <= 8 {
      assert FlashField(b / 16, b % 16) == b;
    }
  }

  lemma PrefixIff(image: seq<byte>)
    ensures ValidateEspImagePrefix(image).Ok? <==> StartsLikeImage(image)
  {
    if |image| >= 8 {
      FlashByteIff(image[3]);
    }
  }

  /** What is wrong with a prefix that is refused: the first wrong field. */
  lemma PrefixErrorIs(image: seq<byte>, e: PrefixError)
    requires |image| >= 8 && ValidateEspImagePrefix(image) == Err(InvalidPrefix(e))
    ensures match e
            case PrefixTooShort => false
            case WrongMagic => image[0] != 233
            case InvalidSegmentCount => image[0] == 233 && !(0 < image[1] <= 16)
            case InvalidFlashMode => image[0] == 233 && 0 < image[1] <= 16 && image[2] > 3
            case InvalidFlashSizeFrequency => image[0] == 233 && 0 < image[1] <= 16 && image[2] <= 3
                                              && !FlashByte(image[3])
            case ZeroEntryAddress => image[0] == 233 && 0 < image[1] <= 16 && image[2] <= 3 && FlashByte(image[3])
                                     && image[4] == image[5] == image[6] == image[7] == 0
  {
    hide FlashByte;
    FlashByteIff(image[3]);
  }

  /** Images shorter than the shortest checkable prefix are not looked at. */
  function CheckPrefix(image: seq<byte>): OtaResult<()> {
    if |image| < 8 then Ok(()) else ValidateEspImagePrefix(image)
  }

  /** An image is let through if it starts like one, or is too short to be looked at. */
  ghost predicate Plausible(image: seq<byte>) {
    |image| < 8 || StartsLikeImage(image)
  }

  lemma PlausibleIff(image: seq<byte>)
    ensures CheckPrefix(image).Ok? <==> Plausible(image)
  {
    PrefixIff(image);
  }

  lemma PrefixDecides(image: seq<byte>, more: seq<byte>)
    requires |image| >= 8
    ensures CheckPrefix(image + more) == CheckPrefix(image)
  {
    assert (image + more)[4..8] == image[4..8];
  }

  // ---------- sizes ----------

  function DivCeil(n: nat, d: nat): nat
    requires d > 0
  {
    (n + d - 1) / d
  }

  /** The manifest's download size. */
  function DownloadSize(imageSize: nat): nat {
    16 + imageSize + DivCeil(imageSize, 4096) * 36
  }

  // ---------- packing and unpacking ----------

  function PackChunk(c: Crypto, i: nat, plain: seq<byte>): seq<byte> {
    var cipher := c.crypt(i, plain);
    BeBytes(|plain|, 4) + cipher + c.tag(i, i * 4096, |plain|, cipher)
  }

  function PackFrom(c: Crypto, image: seq<byte>, i: nat): seq<byte>
    decreases |image|
  {
    if image == [] then []
    else
      var len := Min(4096, |image|);
      PackChunk(c, i, image[..len]) + PackFrom(c, image[len..], i + 1)
  }

  /** The container of an image. */
  function Pack(c: Crypto, image: seq<byte>): seq<byte> {
    ContainerHeader() + PackFrom(c, image, 0)
  }

  datatype Unpacked = Unpacked(plain: seq<byte>, rest: seq<byte>)

  function Then(plain: seq<byte>, r: OtaResult<Unpacked>): OtaResult<Unpacked> {
    if r.Err? then r else Ok(Unpacked(plain + r.value.plain, r.value.rest))
  }

  /** One chunk's plaintext, checked in the order the code checks. */
  function OpenChunk(c: Crypto, w: seq<byte>, i: nat, len: nat): OtaResult<Unpacked> {
    if |w| < 4 then Err(ReadFailed)
    else if BeVal(w[..4]) != len then Err(ChunkTruncated)
    else if |w| < 4 + len + HMAC_TAG_SIZE then Err(ReadFailed)
    else
      var cipher := w[4..4 + len];
      if w[4 + len..4 + len + HMAC_TAG_SIZE] != c.tag(i, i * ENC_CHUNK_SIZE, len, cipher) then Err(HmacMismatch)
      else Ok(Unpacked(c.crypt(i, cipher), w[4 + len + HMAC_TAG_SIZE..]))
  }

  /** The first chunk must also start like an image. */
  function UnpackChunk(c: Crypto, w: seq<byte>, i: nat, len: nat): OtaResult<Unpacked> {
    var chunk := OpenChunk(c, w, i, len);
    if chunk.Ok? && i == 0 && CheckPrefix(chunk.value.plain).Err? then Err(CheckPrefix(chunk.value.plain).error)
    else chunk
  }

  function UnpackFrom(c: Crypto, w: seq<byte>, remaining: nat, i: nat): OtaResult<Unpacked>
    decreases remaining
  {
    if remaining == 0 then Ok(Unpacked([], w))
    else
      var len := Min(ENC_CHUNK_SIZE, remaining);
      var chunk := UnpackChunk(c, w, i, len);
      if chunk.Err? then chunk
      else Then(chunk.value.plain, UnpackFrom(c, chunk.value.rest, remaining - len, i + 1))
  }

  function Unpack(c: Crypto, w: seq<byte>, imageSize: nat): OtaResult<Unpacked> {
    if |w| < OTA_V2_HEADER_SIZE then Err(ReadFailed)
    else if ValidateOtaHeader(w[..16]).Err? then Err(ValidateOtaHeader(w[..16]).error)
    else UnpackFrom(c, w[16..], imageSize, 0)
  }

  // ---------- the two are inverse ----------

  lemma ChunkParts(a: seq<byte>, b: seq<byte>, t: seq<byte>, rest: seq<byte>)
    ensures var w := a + b + t + rest;
            w[..|a|] == a && w[|a|..|a| + |b|] == b && w[|a| + |b|..|a| + |b| + |t|] == t
              && w[|a| + |b| + |t|..] == rest
  {}

  lemma ChunkUnpacks(c: Crypto, i: nat, plain: seq<byte>, rest: seq<byte>)
    requires Lawful(c) && |plain| <= ENC_CHUNK_SIZE && (i == 0 ==> CheckPrefix(plain).Ok?)
    ensures UnpackChunk(c, PackChunk(c, i, plain) + rest, i, |plain|) == Ok(Unpacked(plain, rest))
  {
    hide CheckPrefix;
    var cipher := c.crypt(i, plain);
    FourBytes();
    BeBytesVal(|plain|, 4);
    ChunkParts(BeBytes(|plain|, 4), cipher, c.tag(i, i * ENC_CHUNK_SIZE, |plain|, cipher), rest);
  }

  lemma UnpackedChunk(c: Crypto, w: seq<byte>, i: nat, len: nat)
    requires Lawful(c) && len <= ENC_CHUNK_SIZE && UnpackChunk(c, w, i, len).Ok?
    ensures var u := UnpackChunk(c, w, i, len).value;
            |u.plain| == len && w == PackChunk(c, i, u.plain) + u.rest && (i == 0 ==> CheckPrefix(u.plain).Ok?)
  {
    hide CheckPrefix;
    var u := UnpackChunk(c, w, i, len).value;
    var head, cipher, tag := w[..4], w[4..4 + len], w[4 + len..4 + len + HMAC_TAG_SIZE];
    FourBytes();
    BeBytesVal(len, 4);
    BeValInjective(head, BeBytes(len, 4));
    assert w == head + cipher + tag + u.rest;
  }

  lemma {:induction false} PackedUnpacks(c: Crypto, image: seq<byte>, i: nat, rest: seq<byte>)
    requires Lawful(c) && (i == 0 ==> CheckPrefix(image).Ok?)
    ensures UnpackFrom(c, PackFrom(c, image, i) + rest, |image|, i) == Ok(Unpacked(image, rest))
    decreases |image|
  {
    hide UnpackChunk, PackChunk, CheckPrefix, Lawful;
    if image == [] {
      assert PackFrom(c, image, i) + rest == rest;
    } else {
      var len := Min(ENC_CHUNK_SIZE, |image|);
      var plain, tail := image[..len], image[len..];
      FirstChunkPrefix(image, len);
      ChunkUnpacks(c, i, plain, PackFrom(c, tail, i + 1) + rest);
      PackedUnpacks(c, tail, i + 1, rest);
      assert PackFrom(c, image, i) + rest == PackChunk(c, i, plain) + (PackFrom(c, tail, i + 1) + rest);
      assert image == plain + tail;
    }
  }

  lemma FirstChunkPrefix(image: seq<byte>, len: nat)
    requires len == Min(ENC_CHUNK_SIZE, |image|)
    ensures CheckPrefix(image[..len]) == CheckPrefix(image)
  {
    assert image == image[..len] + image[len..];
    if |image| >= 8 {
      PrefixDecides(image[..len], image[len..]);
    }
  }

  lemma {:induction false} UnpackedPacks(c: Crypto, w: seq<byte>, remaining: nat, i: nat)
    requires Lawful(c) && UnpackFrom(c, w, remaining, i).Ok?
    ensures var u := UnpackFrom(c, w, remaining, i).value;
            |u.plain| == remaining && w == PackFrom(c, u.plain, i) + u.rest && (i == 0 ==> CheckPrefix(u.plain).Ok?)
    decreases remaining
  {
    hide UnpackChunk, PackChunk, CheckPrefix, Lawful;
    if remaining == 0 {
      assert PackFrom(c, [], i) + w == w;
      NoPrefix();
    } else {
      var len := Min(ENC_CHUNK_SIZE, remaining);
      var chunk := UnpackChunk(c, w, i, len).value;
      UnpackedChunk(c, w, i, len);
      UnpackedPacks(c, chunk.rest, remaining - len, i + 1);
      var u := UnpackFrom(c, w, remaining, i).value;
      var tail := u.plain[len..];
      assert u.plain[..len] == chunk.plain;
      FirstChunkPrefix(u.plain, len);
      assert PackChunk(c, i, chunk.plain) + (PackFrom(c, tail, i + 1) + u.rest) == PackFrom(c, u.plain, i) + u.rest;
    }
  }

  lemma NoPrefix()
    ensures CheckPrefix([]).Ok?
  {}

  /** A stream unpacks exactly when it starts with the container of an image with a plausible prefix. */
  lemma UnpackIffPacked(c: Crypto, w: seq<byte>, image: seq<byte>, rest: seq<byte>)
    requires Lawful(c)
    ensures Unpack(c, w, |image|) == Ok(Unpacked(image, rest)) <==> w == Pack(c, image) + rest && Plausible(image)
  {
    hide Plausible, UnpackFrom, PackFrom, CheckPrefix, Lawful, ValidateOtaHeader;
    PlausibleIff(image);
    if w == Pack(c, image) + rest && Plausible(image) {
      HeaderUnique(ContainerHeader());
      assert w[..16] == ContainerHeader() && w[16..] == PackFrom(c, image, 0) + rest;
      PackedUnpacks(c, image, 0, rest);
    }
    if Unpack(c, w, |image|) == Ok(Unpacked(image, rest)) {
      HeaderUnique(w[..16]);
      UnpackedPacks(c, w[16..], |image|, 0);
      assert w == w[..16] + w[16..];
    }
  }

  lemma UnpackedSize(c: Crypto, w: seq<byte>, imageSize: nat)
    requires Lawful(c) && Unpack(c, w, imageSize).Ok?
    ensures |Unpack(c, w, imageSize).value.plain| == imageSize
  {
    hide UnpackFrom, PackFrom, Lawful;
    UnpackedPacks(c, w[16..], imageSize, 0);
  }

  lemma {:induction false} ChunksLength(c: Crypto, image: seq<byte>, i: nat)
    requires Lawful(c)
    ensures |PackFrom(c, image, i)| == |image| + DivCeil(|image|, 4096) * 36
    decreases |image|
  {
    if image != [] {
      var len := Min(ENC_CHUNK_SIZE, |image|);
      ChunksLength(c, image[len..], i + 1);
    }
  }

  /** The container is exactly as long as the manifest has to say. */
  lemma PackedLength(c: Crypto, image: seq<byte>)
    requires Lawful(c)
    ensures |Pack(c, image)| == DownloadSize(|image|)
  {
    ChunksLength(c, image, 0);
  }
}
