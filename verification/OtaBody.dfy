/**
 Installing an image: the inactive slot is erased, the container is unpacked
 from a buffered stream straight into it, and the result is checked against the
 manifest and by reading the flash back. Hash objects are the bytes fed so far.
 */
module OtaBody {
  import opened Bytes
  import opened Hexadecimal
  import opened OtaContainer
  import opened Slices
  import opened Transport
  import opened Wrappers

  const FLASH_SECTOR_SIZE: nat := 4096
  const FLASH_READBACK_LEN: nat := 4096
  const ESP_IMAGE_PREFIX_LEN: nat := 64

  /** Writes of consecutive pieces, each a chunk long but the last. */
  function Tiles(n: nat, k: nat): seq<(nat, nat)> {
    if k == 0 then []
    else Tiles(n, k - 1)
         + [((k - 1) * 4096, if k * 4096 <= n then 4096 else n % 4096)]
  }

  /** The inactive slot; it remembers what was erased and where it was written. */
  class FlashRegion {
    const cells: array<byte>
    ghost var erased: nat
    ghost var writes: seq<(nat, nat)>

    constructor (cells: array<byte>)
      ensures this.cells == cells && erased == 0 && writes == []
    {
      this.cells := cells;
      erased := 0;
      writes := [];
    }

    method Erase(to: nat) returns (r: OtaResult<()>)
      modifies this, cells
      ensures r == if to <= cells.Length then Ok(()) else Err(FlashOutOfBounds)
      ensures r.Ok? ==> erased == to && writes == [] && cells[..] == seq(to, _ => 255) + old(cells[to..])
      ensures r.Err? ==> cells[..] == old(cells[..]) && writes == old(writes) && erased == old(erased)
    {
      if to > cells.Length {
        return Err(FlashOutOfBounds);
      }
      CopyFromSlice(cells, 0, seq(to, _ => 255));
      erased := to;
      writes := [];
      return Ok(());
    }

    method Write(offset: nat, data: seq<byte>) returns (r: OtaResult<()>)
      modifies this`writes, cells
      ensures r == if offset + |data| <= cells.Length then Ok(()) else Err(FlashOutOfBounds)
      ensures r.Ok? ==> cells[..] == old(cells[..offset]) + data + old(cells[offset + |data|..])
                        && writes == old(writes) + [(offset, |data|)]
      ensures r.Err? ==> cells[..] == old(cells[..]) && writes == old(writes)
    {
      if offset + |data| > cells.Length {
        return Err(FlashOutOfBounds);
      }
      CopyFromSlice(cells, offset, data);
      writes := writes + [(offset, |data|)];
      return Ok(());
    }
  }

  /** Fills the buffer from as many fragments as it takes. */
  method ReadExact(reader: Source, buf: array<byte>, len: nat) returns (r: OtaResult<()>)
    requires len <= buf.Length
    modifies reader, buf
    ensures r == if |old(reader.data)| < len then Err(ReadFailed) else Ok(())
    ensures r.Ok? ==> buf[..][..len] == old(reader.data)[..len] && reader.data == old(reader.data)[len..]
  {
    ghost var w := reader.data;
    var offset := 0;
    while offset < len
      invariant offset <= len && offset <= |w| && reader.data == w[offset..] && buf[..][..offset] == w[..offset]
    {
      var available := reader.FillBuf();
      if |available| == 0 {
        return Err(ReadFailed);
      }
      var copy := Min(|available|, len - offset);
      ghost var was := buf[..];
      CopyFromSlice(buf, offset, available[..copy]);
      Filled(w, was, buf[..], offset, copy);
      offset := offset + copy;
      reader.Consume(copy);
    }
    return Ok(());
  }

  lemma Filled(w: seq<byte>, was: seq<byte>, now: seq<byte>, offset: nat, copy: nat)
    requires offset + copy <= |w| && offset + copy <= |was| && was[..offset] == w[..offset]
    requires now == was[..offset] + w[offset..][..copy] + was[offset + copy..]
    ensures now[..offset + copy] == w[..offset + copy]
  {
    assert w[..offset] + w[offset..][..copy] == w[..offset + copy];
  }

  /** Erases whole sectors for the image, keeping the last sector of the slot out of reach. */
  method PrepareInactiveSlot(region: FlashRegion, imageBytes: nat) returns (r: OtaResult<()>)
    requires imageBytes <= U32_MAX && region.cells.Length <= U32_MAX
    modifies region, region.cells
    ensures r == if imageBytes + 4096 <= region.cells.Length || imageBytes == 0 then Ok(())
                 else Err(ImageTooLargeForSlot)
    ensures r.Ok? ==> region.writes == [] && imageBytes <= region.erased < imageBytes + 4096
                      && region.erased <= region.cells.Length && region.erased % 4096 == 0
                      && region.cells[..][region.erased..] == old(region.cells[..])[region.erased..]
    ensures r.Err? ==> region.cells[..] == old(region.cells[..])
  {
    var slotSize := region.cells.Length;
    var maxWritable := if slotSize < FLASH_SECTOR_SIZE then 0 else slotSize - FLASH_SECTOR_SIZE;
    if imageBytes > maxWritable {
      return Err(ImageTooLargeForSlot);
    }
    var aligned := DivCeil(imageBytes, FLASH_SECTOR_SIZE) * FLASH_SECTOR_SIZE;
    assert aligned <= U32_MAX;
    r := region.Erase(aligned);
  }

  datatype EncryptedResult = EncryptedResult(totalPlaintext: nat, digest: seq<byte>, readbackLen: nat,
                                             readbackDigest: seq<byte>)

  /** What a processed image is reported as. */
  function ResultOf(c: Crypto, image: seq<byte>): EncryptedResult {
    EncryptedResult(|image|, c.sha(image), Min(4096, |image|), c.sha(image[..Min(4096, |image|)]))
  }

  /** Reads and authenticates one chunk, and decrypts it where it lies. */
  method ReadChunk(reader: Source, chunkBuf: array<byte>, c: Crypto, imageSize: nat,
                   numChunks: nat, chunkIndex: nat, flashOffset: nat)
    returns (r: OtaResult<seq<byte>>)
    requires Lawful(c) && chunkBuf.Length == ENC_CHUNK_SIZE && imageSize <= U32_MAX
    requires numChunks == DivCeil(imageSize, ENC_CHUNK_SIZE) && chunkIndex < numChunks
    requires flashOffset == chunkIndex * ENC_CHUNK_SIZE
    modifies reader, chunkBuf
    ensures var u := OpenChunk(c, old(reader.data), chunkIndex, Min(ENC_CHUNK_SIZE, imageSize - flashOffset));
            if u.Err? then r == Err(u.error)
            else r == Ok(u.value.plain) && reader.data == u.value.rest
                 && |r.value| == Min(ENC_CHUNK_SIZE, imageSize - flashOffset)
  {
    ghost var w := reader.data;
    var lenBuf, tagBuf := new byte[4](_ => 0), new byte[HMAC_TAG_SIZE](_ => 0);
    var got := ReadExact(reader, lenBuf, 4);
    if got.Err? {
      return Err(got.error);
    }
    assert lenBuf[..] == lenBuf[..][..4] == w[..4];
    var ciphertextLen := BeVal(lenBuf[..]);
    var expectedLen := if chunkIndex == numChunks - 1 then imageSize - chunkIndex * ENC_CHUNK_SIZE else ENC_CHUNK_SIZE;
    if ciphertextLen != expectedLen {
      return Err(ChunkTruncated);
    }
    got := ReadExact(reader, chunkBuf, ciphertextLen);
    if got.Err? {
      return Err(got.error);
    }
    var ct := chunkBuf[..][..ciphertextLen];
    assert ct == w[4..4 + ciphertextLen];
    got := ReadExact(reader, tagBuf, HMAC_TAG_SIZE);
    if got.Err? {
      return Err(got.error);
    }
    assert tagBuf[..] == tagBuf[..][..HMAC_TAG_SIZE] == w[4 + ciphertextLen..4 + ciphertextLen + HMAC_TAG_SIZE];
    if tagBuf[..] != c.tag(chunkIndex, flashOffset, ciphertextLen, ct) {
      return Err(HmacMismatch);
    }
    var plaintext := c.crypt(chunkIndex, ct);
    CopyFromSlice(chunkBuf, 0, plaintext);
    assert chunkBuf[..][..ciphertextLen] == plaintext;
    assert reader.data == w[4 + ciphertextLen + HMAC_TAG_SIZE..];
    return Ok(chunkBuf[..][..ciphertextLen]);
  }

  /** Collects the first bytes until there are enough of them to judge; the verdict is the one on all bytes so far. */
  method NotePrefix(firstBytes: array<byte>, firstFilled: nat, plaintext: seq<byte>)
    returns (r: OtaResult<bool>, filled: nat)
    requires firstBytes.Length == ESP_IMAGE_PREFIX_LEN && firstFilled <= ESP_IMAGE_PREFIX_LEN
    modifies firstBytes
    ensures var all := old(firstBytes[..firstFilled]) + plaintext;
            && filled == Min(64, |all|) && firstBytes[..filled] == all[..filled]
            && r == if CheckPrefix(all).Err? then Err(CheckPrefix(all).error) else Ok(|all| >= 8)
  {
    var copy := Min(|plaintext|, ESP_IMAGE_PREFIX_LEN - firstFilled);
    ghost var all := firstBytes[..firstFilled] + plaintext;
    CopyFromSlice(firstBytes, firstFilled, plaintext[..copy]);
    filled := firstFilled + copy;
    assert firstBytes[..filled] == all[..filled];
    if filled < 8 {
      return Ok(false), filled;
    }
    var judged := ValidateEspImagePrefix(firstBytes[..filled]);
    assert all == all[..filled] + all[filled..];
    PrefixDecides(all[..filled], all[filled..]);
    return if judged.Err? then Err(judged.error) else Ok(true), filled;
  }

  lemma WrittenSoFar(was: seq<byte>, now: seq<byte>, done: seq<byte>, plain: seq<byte>, erased: nat)
    requires |done| + |plain| <= erased <= |was| && was[..|done|] == done
    requires now == was[..|done|] + plain + was[|done| + |plain|..]
    ensures |now| == |was| && now[..|done| + |plain|] == done + plain && now[erased..] == was[erased..]
  {}

  lemma ThenThen(done: seq<byte>, plain: seq<byte>, r: OtaResult<Unpacked>)
    ensures Then(done, Then(plain, r)) == Then(done + plain, r)
  {
    if r.Ok? {
      assert done + (plain + r.value.plain) == done + plain + r.value.plain;
    }
  }

  lemma ReadbackPrefix(done: seq<byte>, plain: seq<byte>)
    ensures var n := Min(FLASH_READBACK_LEN, |done|);
            var more := Min(|plain|, FLASH_READBACK_LEN - n);
            n + more == Min(FLASH_READBACK_LEN, |done + plain|)
            && done[..n] + plain[..more] == (done + plain)[..n + more]
  {}

  /**
   Unpacks the container into a prepared slot. The whole outcome is that of
   unpacking; what is hashed is what is written, and only erased cells change.
   */
  method ProcessEncryptedBody(reader: Source, region: FlashRegion, c: Crypto, imageSize: nat)
    returns (r: OtaResult<EncryptedResult>)
    requires Lawful(c) && imageSize <= region.erased <= region.cells.Length <= U32_MAX && region.writes == []
    modifies reader, region`writes, region.cells
    ensures var u := Unpack(c, old(reader.data), imageSize);
            if u.Err? then r == Err(u.error)
            else r == Ok(ResultOf(c, u.value.plain)) && reader.data == u.value.rest && |u.value.plain| == imageSize
                 && region.cells[..][..imageSize] == u.value.plain
                 && region.writes == Tiles(imageSize, DivCeil(imageSize, ENC_CHUNK_SIZE))
    ensures region.cells[..][region.erased..] == old(region.cells[..])[region.erased..]
  {
    hide Lawful, OpenChunk, CheckPrefix, Tiles, Unpack, ValidateOtaHeader, Then;
    ghost var whole := Unpack(c, reader.data, imageSize);
    var header := new byte[OTA_V2_HEADER_SIZE](_ => 0);
    var got := ReadExact(reader, header, OTA_V2_HEADER_SIZE);
    UnpackStart(c, old(reader.data), imageSize);
    if got.Err? {
      return Err(got.error);
    }
    assert header[..] == header[..][..16];
    var valid := ValidateOtaHeader(header[..]);
    if valid.Err? {
      return Err(valid.error);
    }
    var numChunks := DivCeil(imageSize, ENC_CHUNK_SIZE);
    var firstBytes := new byte[ESP_IMAGE_PREFIX_LEN](_ => 0);
    var firstFilled, prefixValidated := 0, false;
    var totalPlaintext, flashOffset := 0, 0;
    var shaHasher: seq<byte>, readbackHasher: seq<byte>, readbackLen := [], [], 0;
    var ciphertextBuf := new byte[ENC_CHUNK_SIZE](_ => 0);
    for chunkIndex := 0 to numChunks
      invariant flashOffset == totalPlaintext == Min(chunkIndex * ENC_CHUNK_SIZE, imageSize) == |shaHasher|
      invariant whole == Then(shaHasher, UnpackFrom(c, reader.data, imageSize - flashOffset, chunkIndex))
      invariant region.cells[..][..flashOffset] == shaHasher
      invariant region.cells[..][region.erased..] == old(region.cells[..])[region.erased..]
      invariant region.writes == Tiles(imageSize, chunkIndex)
      invariant readbackLen == Min(FLASH_READBACK_LEN, flashOffset) && readbackHasher == shaHasher[..readbackLen]
      invariant firstFilled <= ESP_IMAGE_PREFIX_LEN && (chunkIndex == 0 ==> firstFilled == 0 && !prefixValidated)
      invariant chunkIndex > 0 && imageSize >= 8 ==> prefixValidated
    {
      ghost var w, done := reader.data, shaHasher;
      var chunk := ReadChunk(reader, ciphertextBuf, c, imageSize, numChunks, chunkIndex, flashOffset);
      if chunk.Err? {
        ThenErr(done, chunk.error);
        return Err(chunk.error);
      }
      var plaintext := chunk.value;
      if !prefixValidated {
        var judged;
        assert firstBytes[..0] + plaintext == plaintext;
        judged, firstFilled := NotePrefix(firstBytes, firstFilled, plaintext);
        if judged.Err? {
          ThenErr(done, judged.error);
          return Err(judged.error);
        }
        prefixValidated := judged.value;
      }
      ghost var cells := region.cells[..];
      var written := region.Write(flashOffset, plaintext);
      WrittenSoFar(cells, region.cells[..], done, plaintext, region.erased);
      shaHasher := shaHasher + plaintext;
      ReadbackPrefix(done, plaintext);
      var readbackRemaining := FLASH_READBACK_LEN - readbackLen;
      if readbackRemaining > 0 {
        var copy := Min(|plaintext|, readbackRemaining);
        readbackHasher := readbackHasher + plaintext[..copy];
        readbackLen := readbackLen + copy;
      }
      ThenThen(done, plaintext, UnpackFrom(c, reader.data, imageSize - flashOffset - |plaintext|, chunkIndex + 1));
      TilesNext(imageSize, chunkIndex);
      flashOffset := flashOffset + |plaintext|;
      totalPlaintext := totalPlaintext + |plaintext|;
      assert flashOffset <= U32_MAX;
    }
    ThenEnd(c, shaHasher, reader.data, numChunks);
    return Ok(EncryptedResult(totalPlaintext, c.sha(shaHasher), readbackLen, c.sha(readbackHasher)));
  }

  lemma ThenEnd(c: Crypto, done: seq<byte>, w: seq<byte>, i: nat)
    ensures Then(done, UnpackFrom(c, w, 0, i)) == Ok(Unpacked(done, w))
  {
    assert done + [] == done;
  }

  lemma ThenErr(done: seq<byte>, e: OtaError)
    ensures Then(done, Err(e)) == Err(e)
  {}

  lemma UnpackStart(c: Crypto, w: seq<byte>, imageSize: nat)
    ensures |w| < 16 ==> Unpack(c, w, imageSize) == Err(ReadFailed)
    ensures |w| >= 16 ==>
              Unpack(c, w, imageSize) == (if ValidateOtaHeader(w[..16]).Err? then Err(ValidateOtaHeader(w[..16]).error)
                                          else Then([], UnpackFrom(c, w[16..], imageSize, 0)))
    ensures Tiles(imageSize, 0) == []
  {
    if |w| >= 16 {
      var r := UnpackFrom(c, w[16..], imageSize, 0);
      assert r.Ok? ==> [] + r.value.plain == r.value.plain;
    }
  }

  lemma TilesNext(n: nat, k: nat)
    requires k * ENC_CHUNK_SIZE < n
    ensures Tiles(n, k + 1) == Tiles(n, k) + [(k * ENC_CHUNK_SIZE, Min(ENC_CHUNK_SIZE, n - k * ENC_CHUNK_SIZE))]
  {}

  /** Each piece starts where the last one ended, and the pieces together are the first `n` cells. */
  predicate Covers(tiles: seq<(nat, nat)>, n: nat) {
    if tiles == [] then n == 0
    else
      var last := tiles[|tiles| - 1];
      last.0 + last.1 == n && Covers(tiles[..|tiles| - 1], last.0)
  }

  lemma {:induction false} TilesCover(n: nat, k: nat)
    requires k <= DivCeil(n, ENC_CHUNK_SIZE)
    ensures Covers(Tiles(n, k), Min(k * ENC_CHUNK_SIZE, n))
  {
    if k > 0 {
      TilesCover(n, k - 1);
      assert Tiles(n, k)[..|Tiles(n, k)| - 1] == Tiles(n, k - 1);
    }
  }

  // ---------- the checks afterwards ----------

  /** Two lower-case hex characters a byte. */
  function HexOf(digest: seq<byte>): (s: seq<byte>)
    ensures |s| == 2 * |digest|
  {
    if digest == [] then []
    else
      var last := digest[|digest| - 1] as int;
      HexOf(digest[..|digest| - 1]) + [HexDigit(last / 16), HexDigit(last % 16)]
  }

  method Sha256Hex(digest: seq<byte>) returns (buf: array<byte>)
    ensures fresh(buf) && buf[..] == HexOf(digest)
  {
    buf := new byte[2 * |digest|](_ => 0);
    for i := 0 to |digest|
      invariant buf[..][..2 * i] == HexOf(digest[..i])
    {
      ghost var was := buf[..];
      buf[2 * i] := HexDigit(digest[i] as int / 16);
      buf[2 * i + 1] := HexDigit(digest[i] as int % 16);
      assert digest[..i + 1][..i] == digest[..i];
      assert buf[..][..2 * i] == was[..2 * i];
      assert buf[..][..2 * (i + 1)] == buf[..][..2 * i] + [buf[2 * i], buf[2 * i + 1]];
    }
    assert buf[..][..2 * |digest|] == buf[..] && digest[..|digest|] == digest;
  }

  function ToLower(b: byte): byte {
    if 65 <= b <= 90 then b + 32 else b
  }

  predicate EqIgnoreCase(s: seq<byte>, t: seq<byte>) {
    |s| == |t| && forall i :: 0 <= i < |s| ==> ToLower(s[i]) == ToLower(t[i])
  }

  /** The bytes that hexadecimal text stands for: two digits a byte, in either case. */
  function ParseHex(s: seq<byte>): Option<seq<byte>> {
    if s == [] then Some([])
    else if |s| == 1 then None
    else
      var front := ParseHex(s[..|s| - 2]);
      var high, low := DigitValue(s[|s| - 2]), DigitValue(s[|s| - 1]);
      if front.Some? && high.Some? && low.Some? && high.value < 16 && low.value < 16
      then Some(front.value + [16 * high.value + low.value]) else None
  }

  lemma DigitMatches(n: nat, b: byte)
    requires n < 16
    ensures ToLower(HexDigit(n)) == ToLower(b) <==> DigitValue(b) == Some(n)
  {
    HexDigits(n);
    DigitValueIff(b, n);
  }

  lemma EqIgnoreCaseShort(s: seq<byte>, t: seq<byte>)
    ensures EqIgnoreCase(s, t) ==> |s| == |t|
    ensures EqIgnoreCase([], [])
  {}

  lemma EqIgnoreCasePush(s: seq<byte>, t: seq<byte>, x: byte, y: byte, x': byte, y': byte)
    ensures EqIgnoreCase(s + [x, y], t + [x', y'])
            <==> EqIgnoreCase(s, t) && ToLower(x) == ToLower(x') && ToLower(y) == ToLower(y')
  {
    var u, v := s + [x, y], t + [x', y'];
    assert u[|s|] == x && u[|s| + 1] == y && v[|t|] == x' && v[|t| + 1] == y';
    if EqIgnoreCase(u, v) {
      forall i | 0 <= i < |s|
        ensures ToLower(s[i]) == ToLower(t[i])
      {
        assert u[i] == s[i] && v[i] == t[i];
      }
    }
  }

  /** A hash in whatever case matches a digest exactly when it is text for that digest. */
  lemma {:induction false} HexMatchIff(d: seq<byte>, s: seq<byte>)
    ensures EqIgnoreCase(HexOf(d), s) <==> ParseHex(s) == Some(d)
    decreases |d|
  {
    hide EqIgnoreCase, ToLower;
    if d == [] || |s| < 2 {
      EqIgnoreCaseShort(HexOf(d), s);
    } else {
      var front, last, head := d[..|d| - 1], d[|d| - 1] as int, s[..|s| - 2];
      var x, y := s[|s| - 2], s[|s| - 1];
      assert d == front + [d[|d| - 1]] && s == head + [x, y];
      HexMatchIff(front, head);
      DigitMatches(last / 16, x);
      DigitMatches(last % 16, y);
      EqIgnoreCasePush(HexOf(front), head, HexDigit(last / 16), HexDigit(last % 16), x, y);
      LastByte(ParseHex(s), front, d[|d| - 1]);
    }
  }

  lemma LastByte(parsed: Option<seq<byte>>, front: seq<byte>, last: byte)
    ensures parsed == Some(front + [last])
            <==> parsed.Some? && parsed.value != [] && parsed.value[..|parsed.value| - 1] == front
                 && parsed.value[|parsed.value| - 1] == last
  {
    if parsed.Some? && parsed.value != [] {
      assert parsed.value == parsed.value[..|parsed.value| - 1] + [parsed.value[|parsed.value| - 1]];
    }
  }

  /** A manifest's hash, in whatever case, stands for one digest. */
  lemma HexNamesOneDigest(d: seq<byte>, e: seq<byte>, hex: seq<byte>)
    requires EqIgnoreCase(HexOf(d), hex) && EqIgnoreCase(HexOf(e), hex)
    ensures d == e
  {
    HexMatchIff(d, hex);
    HexMatchIff(e, hex);
  }

  /** Accepts exactly the size and the digest that the manifest names; the size is looked at first. */
  method PostVerify(result: EncryptedResult, imageSize: nat, imageSha256: seq<byte>) returns (r: OtaResult<()>)
    ensures r.Ok? <==> result.totalPlaintext == imageSize && ParseHex(imageSha256) == Some(result.digest)
    ensures r.Err? ==> r.error == if result.totalPlaintext != imageSize then SizeMismatch else ShaMismatch
  {
    if result.totalPlaintext != imageSize {
      return Err(SizeMismatch);
    }
    var digestHex := Sha256Hex(result.digest);
    HexMatchIff(result.digest, imageSha256);
    if !EqIgnoreCase(digestHex[..], imageSha256) {
      return Err(ShaMismatch);
    }
    return Ok(());
  }

  method VerifyFlashReadback(region: FlashRegion, result: EncryptedResult, c: Crypto) returns (r: OtaResult<()>)
    requires result.readbackLen <= FLASH_READBACK_LEN && result.readbackLen <= region.cells.Length
    ensures r == if c.sha(region.cells[..][..result.readbackLen]) == result.readbackDigest then Ok(())
                 else Err(FlashVerifyFailed)
  {
    var readback := new byte[FLASH_READBACK_LEN](_ => 0);
    CopyFromSlice(readback, 0, region.cells[..result.readbackLen]);
    assert readback[..][..result.readbackLen] == region.cells[..][..result.readbackLen];
    if c.sha(readback[..][..result.readbackLen]) != result.readbackDigest {
      return Err(FlashVerifyFailed);
    }
    return Ok(());
  }

  /** Why a download cannot be installed, if it cannot. */
  function InstallError(c: Crypto, w: seq<byte>, slotSize: nat, imageSize: nat, imageSha256: seq<byte>): OtaResult<()> {
    if imageSize != 0 && imageSize + 4096 > slotSize then Err(ImageTooLargeForSlot)
    else
      var u := Unpack(c, w, imageSize);
      if u.Err? then Err(u.error)
      else if ParseHex(imageSha256) != Some(c.sha(u.value.plain)) then Err(ShaMismatch)
      else Ok(())
  }

  /**
   The whole installation. It succeeds exactly for a stream that starts with
   the container of an image with the manifest's size and hash that fits the
   slot; then the image is in the slot and exactly its container was consumed.
   Neither the flash bounds nor the read-back check can be what fails.
   */
  method Install(reader: Source, region: FlashRegion, c: Crypto, imageSize: nat, imageSha256: seq<byte>)
    returns (r: OtaResult<()>)
    requires Lawful(c) && imageSize <= U32_MAX && region.cells.Length <= U32_MAX
    modifies reader, region, region.cells
    ensures r == InstallError(c, old(reader.data), region.cells.Length, imageSize, imageSha256)
    ensures r.Ok? ==> var image := region.cells[..][..imageSize];
                      old(reader.data) == Pack(c, image) + reader.data
                      && |old(reader.data)| - |reader.data| == DownloadSize(imageSize)
                      && Plausible(image)
                      && ParseHex(imageSha256) == Some(c.sha(image))
  {
    hide Lawful, Unpack, Pack, Plausible, ParseHex;
    ghost var w := reader.data;
    var prepared := PrepareInactiveSlot(region, imageSize);
    if prepared.Err? {
      return prepared;
    }
    var processed := ProcessEncryptedBody(reader, region, c, imageSize);
    if processed.Err? {
      return Err(processed.error);
    }
    ghost var image := region.cells[..][..imageSize];
    assert Unpack(c, w, |image|) == Ok(Unpacked(image, reader.data));
    UnpackIffPacked(c, w, image, reader.data);
    PackedLength(c, image);
    r := PostVerify(processed.value, imageSize, imageSha256);
    if r.Err? {
      return;
    }
    assert region.cells[..][..processed.value.readbackLen] == image[..processed.value.readbackLen];
    r := VerifyFlashReadback(region, processed.value, c);
  }

  /** The stream starts with the container of an image that has this size, starts like one and has this digest. */
  ghost predicate Carries(c: Crypto, w: seq<byte>, imageSize: nat, imageSha256: seq<byte>, image: seq<byte>,
                          rest: seq<byte>)
  {
    && w == Pack(c, image) + rest && |image| == imageSize && Plausible(image)
    && ParseHex(imageSha256) == Some(c.sha(image))
  }

  /** What installs: an image in its container that fits the slot with a sector to spare. */
  lemma InstallsIff(c: Crypto, w: seq<byte>, slotSize: nat, imageSize: nat, imageSha256: seq<byte>)
    requires Lawful(c)
    ensures InstallError(c, w, slotSize, imageSize, imageSha256).Ok?
            <==> (imageSize == 0 || imageSize + 4096 <= slotSize)
                 && exists image, rest :: Carries(c, w, imageSize, imageSha256, image, rest)
  {
    hide Lawful, Pack, Unpack, Plausible, ParseHex;
    if Unpack(c, w, imageSize).Ok? {
      var u := Unpack(c, w, imageSize).value;
      UnpackedSize(c, w, imageSize);
      UnpackIffPacked(c, w, u.plain, u.rest);
      assert InstallError(c, w, slotSize, imageSize, imageSha256).Ok? ==>
          Carries(c, w, imageSize, imageSha256, u.plain, u.rest);
    }
    if image, rest :| Carries(c, w, imageSize, imageSha256, image, rest) {
      UnpackIffPacked(c, w, image, rest);
    }
  }

  /** Any image too short to look at installs, whatever its bytes: seven bytes that are no image header, for one. */
  lemma ShortImageInstalls(c: Crypto, image: seq<byte>, rest: seq<byte>, slotSize: nat)
    requires Lawful(c) && |image| < 8 && |image| + FLASH_SECTOR_SIZE <= slotSize
    ensures InstallError(c, Pack(c, image) + rest, slotSize, |image|, HexOf(c.sha(image))).Ok?
    ensures !StartsLikeImage(image)
  {
    hide Lawful, Pack, Unpack;
    UnpackIffPacked(c, Pack(c, image) + rest, image, rest);
    HexMatchIff(c.sha(image), HexOf(c.sha(image)));
  }
}
