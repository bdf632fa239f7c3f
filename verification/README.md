# Verified core of the Motonet firmware libraries

This project models the logic at the centre of the firmware's libraries in Dafny
and proves what they promise. `dafny verify dfyconfig.toml` checks all of it.

- **RSA-2048 verification** (`RsaLimbs`, `RsaConstants`, `RsaEncoding`, `RsaDer`): 64-word
  arithmetic with carry and borrow, the two Montgomery constants, the byte
  orders, the PSS and PKCS#1 v1.5 checks for an arbitrary hash function, and the
  key parser.
- **HTTP chunked coding** (`ChunkedCoding`, `ChunkedGrammar`, `ChunkedWriter`,
  `ChunkedReader`, `ChunkedRoundTrip`): the buffering writer with its reserved
  header, the reader over a fragmenting stream with a shifting buffer, in-place
  decoding, the two against each other and against the standard's grammar.
- **TLS 1.3** (`TlsRecords`, `CryptoBuffers`, `TlsWriting`, `TlsNonces`, `TlsReading`,
  `TlsRoundTrip`, `ParseBuffers`, `TlsCertificate`, `TlsKeySchedule`, `TlsVerifying`,
  `TlsHandshake`, `TlsCompleting`, `TlsServerRecords`, `TlsHonestServer`, `TlsConnecting`):
  record sealing in place, sequence counters,
  the rotating record buffer, certificate messages, and the handshake as a state
  machine whose transcript and secrets are followed to the application keys.
- **Calendar and radio** (`EuDst`, `RubicsonCrc`, `Rubicson`, `RubicsonErrors`,
  `RubicsonGaps`, `RubicsonTransmit`): summer time against plain day counting, CRC-8
  algebra and which bit errors it detects, the streaming gap decoder against a
  specification that cuts rows first.
- **Duplicate suppression and firmware images** (`DedupeCaching`,
  `OtaContainer`, `OtaBody`): the bounded cache against the history of
  acceptances, and the encrypted container from stream to flash.

`Powers`, `Bytes`, `Hexadecimal`, `Slices`, `Wrappers`, `WriteCalls` and `Transport`
hold what these share. Objects the code updates in place are classes over arrays,
their methods are tied to specification functions on values, and the laws are proved
about those functions. A transport delivers fragments of its own choosing, at least one byte
while any are left. Hash, HMAC, HKDF, AEAD and stream cipher are function
parameters with the one law each needs: opening undoes sealing and the tag is 16
bytes, the stream cipher undoes itself, outputs have their length.

## Where the code falls short of what it is for

Each of these is kept as the code has it and proved with its exact condition.

- `compute_r_squared_mod_n` returns 1 for the modulus 1, where 2^4096 mod 1 is 0;
  for every other modulus above 0 it is right (`RsaLimbs.ComputeRSquaredModN`).
- `compute_m_prime` meets its equation for odd moduli only; for even ones nothing
  could (`RsaConstants.ComputeMPrime`, `RsaConstants.EvenHasNoInverse`).
- The key parser is named for DER but accepts other encodings too: what it accepts
  is distinguished exactly when all lengths are in shortest form and both integers
  are minimal and not negative (`RsaDer.DistinguishedIff`, with the inputs of
  `RsaDer.LongLengthAccepted` and `RsaDer.SignlessModulusAccepted`). From the
  distinguished encoding it gives a key back except when the modulus has nine leading
  zero bits or the exponent is even or at least 2^31 (`RsaDer.PublicKeyRoundTrip`).
- The buffering writer needs six bytes of buffer and not just three of them free.
  With three free, or a buffer of three, the first write stops the program; with a
  buffer of four it takes nothing; with one of five it takes nothing and sends an
  empty chunk, which ends the body (`ChunkedWriter.WriteFirst`,
  `ChunkedWriter.HeaderFitsIff`).
- `read_to_end` needs one byte more than the body: a body of exactly the buffer's
  size is BufferTooSmall (`ChunkedReader.ChunkedBodyReader.ReadToEnd`).
- The reader takes an empty size line for the last chunk
  (`ChunkedGrammar.EmptySizeLineAccepted`); what it accepts is a chunked body
  exactly when the last size line has a digit (`ChunkedGrammar.AcceptedIsGrammarIff`).
- Handshake messages that follow the server Finished in its record are covered by
  the client Finished, and by the application secrets exactly if a certificate
  was asked for (`TlsHandshake.TrailingMessage`, `TlsConnecting.TranscriptsIff`).
- A handshake completes without a server certificate or its signature
  (`TlsCompleting.ShortestHandshake`); with a verifier, the server was authenticated
  exactly if a CertificateVerify was received (`TlsConnecting.ServerAuthenticatedIff`),
  and its signature covers everything before it exactly if its Certificate came right
  before it (`TlsHandshake.SignatureCoversIff`).
- The server's flight is accepted in the clear as it is encrypted
  (`TlsCompleting.PlainFlightIff`); it came encrypted exactly if no plaintext record
  was taken after the hello (`TlsConnecting.FlightEncryptedIff`).
- The length a Finished states is not looked at: it ends where a hash does
  (`TlsServerRecords.FinishedIsWhole`).
- A record whose transmission failed leaves the counter alone: the next record has
  the same nonce, and two records share one exactly if nothing from the first up
  to the second was transmitted completely (`TlsWriting.TlsWriter.FlushOver`,
  `TlsNonces.NonceSharedIff`).
- A day count of 2^32 or more is clamped before the calendar is consulted, which
  answers winter time for every later instant (`EuDst.LateSummerMissed`,
  `EuDst.ClampRightIff`).
- An image shorter than eight bytes is installed without a look at its prefix
  (`OtaBody.ShortImageInstalls`); what installs is stated exactly by `OtaBody.InstallsIff`.

## Model

| member | source | states |
|---|---|---|
| `RsaLimbs.CmpLeWords` | crates/rsa-verify-core/src/lib.rs:102-114 | the answer is the order of the two numbers the words stand for, for any length |
| `RsaLimbs.SubAssignLeWords` | crates/rsa-verify-core/src/lib.rs:116-126 | the words then stand for the difference modulo the word range; only the last borrow is lost |
| `RsaLimbs.DoubleMod` | crates/rsa-verify-core/src/lib.rs:87-100 | the words then stand for the double, less the modulus once if the double (carry-out included) is not below it |
| `RsaLimbs.DoubledIsModular` | crates/rsa-verify-core/src/lib.rs:87-100 | that is 2v mod N whenever v < N, so the doubling really is modular |
| `RsaLimbs.ReduceOnce` | crates/rsa-verify-core/src/lib.rs:87-100 | dropping the carry-out and subtracting the modulus in the word range gives the same as subtracting from the full double |
| `RsaLimbs.ComputeRSquaredModN` | crates/rsa-verify-core/src/lib.rs:74-85 | for every modulus N above 0 the result is 2^4096 mod N exactly when N is not 1; for N = 1 it is 1 |
| `RsaLimbs.ValInjective` | crates/rsa-verify-core/src/lib.rs:102-114 | word sequences of one length that stand for the same number are the same words |
| `RsaConstants.NewtonStep` | crates/rsa-verify-core/src/lib.rs:63-72 | an inverse modulo k becomes, by one wrapping Newton step, an inverse modulo k squared |
| `RsaConstants.ComputeMPrime` | crates/rsa-verify-core/src/lib.rs:63-72 | N * m' is -1 modulo 2^32 exactly when N is odd |
| `RsaConstants.EvenHasNoInverse` | crates/rsa-verify-core/src/lib.rs:63-72 | for an even N no word at all satisfies that equation |
| `RsaConstants.BeBytesToLeWords` | crates/rsa-verify-core/src/lib.rs:30-44 | the little-endian words are those of the bytes and stand for the same number |
| `RsaConstants.LeWordsToBeBytes` | crates/rsa-verify-core/src/lib.rs:46-55 | the bytes are those of the words and stand for the same number |
| `RsaConstants.ConversionsInvert` | crates/rsa-verify-core/src/lib.rs:30-55 | the two conversions undo each other, in either order and for any length |
| `RsaEncoding.Mgf1Sha256` | crates/rsa-verify-core/src/lib.rs:224-235 | the in-place chunk loop fills the buffer with the mask of RFC 8017, appendix B.2.1, of any length |
| `RsaEncoding.MaskByte` | crates/rsa-verify-core/src/lib.rs:224-235 | byte i of that mask is byte i mod 32 of the hash of the seed and the four big-endian bytes of i / 32 |
| `RsaEncoding.CounterBytes` | crates/rsa-verify-core/src/lib.rs:229-229 | the counter goes in as four bytes, most significant first |
| `RsaEncoding.PssEncodingIff` | crates/rsa-verify-core/src/lib.rs:151-191 | the checks the code makes on an encoded message hold exactly if it is the EMSA-PSS encoding with the salt read out of it |
| `RsaEncoding.VerifyPss` | crates/rsa-verify-core/src/lib.rs:151-191 | accepts exactly the EMSA-PSS encodings (RFC 8017, section 9.1) of the message for some 32-byte salt |
| `RsaEncoding.PssSaltUnique` | crates/rsa-verify-core/src/lib.rs:178-186 | an encoding determines its salt |
| `RsaEncoding.VerifyPkcs1v15` | crates/rsa-verify-core/src/lib.rs:193-222 | accepts exactly the one EMSA-PKCS1-v1_5 encoding of the message (section 9.2) |
| `RsaEncoding.DigestInfoPrefix` | crates/rsa-verify-core/src/lib.rs:12-15 | the constant prefix is the distinguished encoding of a DigestInfo for algorithm 2.16.840.1.101.3.4.2.1 up to the digest |
| `RsaEncoding.MaskedTwice` | crates/rsa-verify-core/src/lib.rs:168-172 | applying the mask twice gives the data block back |
| `RsaDer.DerReader.ReadLen` | crates/rsa-verify-core/src/lib.rs:306-322 | reads a length in short or long form and leaves the reader right behind it, or fails exactly when there is no such length |
| `RsaDer.DerReader.ReadTlv` | crates/rsa-verify-core/src/lib.rs:279-294 | yields the value of one element with the wanted tag and leaves the reader behind it |
| `RsaDer.ParsePkcs1Rsa2048PublicKeyDer` | crates/rsa-verify-core/src/lib.rs:128-149 | the reader-driven parse is the parse of the two nested element levels, error for error |
| `RsaDer.ModulusRoundTrip` | crates/rsa-verify-core/src/lib.rs:237-247 | a modulus survives its minimal integer encoding exactly when its top nine bits are not all zero |
| `RsaDer.ExponentRoundTrip` | crates/rsa-verify-core/src/lib.rs:249-263 | an exponent survives exactly when it is odd and below 2^31 |
| `RsaDer.PublicKeyRoundTrip` | crates/rsa-verify-core/src/lib.rs:128-149 | parsing the distinguished encoding of a key returns the key exactly under those two conditions |
| `RsaDer.LongLengthAccepted` | crates/rsa-verify-core/src/lib.rs:306-322 | a failing family: a length below 128 written in two bytes is accepted |
| `RsaDer.SignlessModulusAccepted` | crates/rsa-verify-core/src/lib.rs:237-247 | another: a modulus with its top bit set and no sign byte is accepted, for any acceptable exponent |
| `RsaDer.LengthIsShortest` | crates/rsa-verify-core/src/lib.rs:306-322 | accepted length bytes are the distinguished ones exactly when there are as few of them as possible, a condition on the bytes |
| `RsaDer.DistinguishedIff` | crates/rsa-verify-core/src/lib.rs:128-149 | an accepted key file is the distinguished encoding of its key exactly when all three lengths are in shortest form and both integers are minimal and not negative |
| `ChunkedCoding.HexRoundTrip` | tools/reqwless/src/body_writer/chunked.rs:71-79 | parsing the printed hexadecimal digits gives the number back |
| `ChunkedCoding.ReadPrintedSize` | tools/reqwless/src/response/chunked.rs:56-101 | reading a printed size line gives the size exactly when it is below 2^32 |
| `ChunkedCoding.DecodeEncoded` | tools/reqwless/src/response/chunked.rs:56-136 | any non-empty chunks and the last chunk decode to their concatenation, leaving what follows, exactly when every chunk is below 2^32 bytes (section 7.1 of RFC 9112) |
| `ChunkedCoding.TwentySixBytes` | tools/reqwless/src/body_writer/chunked.rs:71-79 | a chunk byte by byte: 26 bytes go out behind the line 1a and CR LF, with CR LF after them |
| `ChunkedGrammar.GrammarIsAccepted` | tools/reqwless/src/response/chunked.rs:56-136 | every body of the grammar of section 7.1, size lines of one to eight digits in either case with any leading zeros, is accepted as what it stands for |
| `ChunkedGrammar.AcceptedIsGrammarIff` | tools/reqwless/src/response/chunked.rs:56-136 | what is accepted is a body of that grammar exactly when its last size line has a digit |
| `ChunkedGrammar.EmptySizeLineAccepted` | tools/reqwless/src/response/chunked.rs:83-94 | the failing family: two empty lines are accepted as an empty body |
| `ChunkedWriter.FixedHexPadding` | tools/reqwless/src/body_writer/chunked.rs:71-79 | the fixed-width digits are the shortest ones behind zeros, which the skip loop removes |
| `ChunkedWriter.WriteChunkedHeader` | tools/reqwless/src/body_writer/chunked.rs:71-79 | writes the size line where it was told and reports its length |
| `ChunkedWriter.ChunkedBodyWriter.WriteAll` | tools/reqwless/src/body_writer/chunked.rs:41-64 | sends one chunk holding the data, or nothing for no data |
| `ChunkedWriter.NumHexCharsIsLength` | tools/reqwless/src/body_writer/buffering_chunked.rs:179-185 | the bit-counting formula is the number of digits printed |
| `ChunkedWriter.HeaderFitsIff` | tools/reqwless/src/body_writer/buffering_chunked.rs:187-194 | every payload that fits behind the reserved header has a size line that fits into it, exactly when the free space is not 3 bytes |
| `ChunkedWriter.HeaderSizeBounds` | tools/reqwless/src/body_writer/buffering_chunked.rs:187-194 | there is room for a first payload byte exactly from six free bytes on |
| `ChunkedWriter.HeaderSizeIs` | tools/reqwless/src/body_writer/buffering_chunked.rs:187-194 | the reserved header is as long as the size line of all the bytes beside it and the payload's line end |
| `ChunkedWriter.BufferingChunkedBodyWriter.NewWithData` | tools/reqwless/src/body_writer/buffering_chunked.rs:46-59 | the state the writer starts in, for any buffer and any pre-written bytes; sound from six bytes of buffer on |
| `ChunkedWriter.BufferingChunkedBodyWriter.AppendCurrentChunk` | tools/reqwless/src/body_writer/buffering_chunked.rs:85-93 | takes exactly what fits before the reserved line end, behind what was there |
| `ChunkedWriter.FrameChunk` | tools/reqwless/src/body_writer/buffering_chunked.rs:95-118 | size line, payload moved down to it and line end make exactly one chunk |
| `ChunkedWriter.BufferingChunkedBodyWriter.FinishCurrentChunk` | tools/reqwless/src/body_writer/buffering_chunked.rs:95-118 | the collected payload becomes one more whole chunk; nothing accepted is lost |
| `ChunkedWriter.BufferingChunkedBodyWriter.EmitBuffered` | tools/reqwless/src/body_writer/buffering_chunked.rs:124-139 | finished bytes go out once and in order |
| `ChunkedWriter.BufferingChunkedBodyWriter.Write` | tools/reqwless/src/body_writer/buffering_chunked.rs:144-161 | takes a non-empty prefix of a non-empty write and appends it to the accepted bytes; on a new writer with a smaller buffer or just three bytes free: stops the program, takes nothing or ends the body, as the sizes say |
| `ChunkedWriter.WriteFirst` | tools/reqwless/src/body_writer/buffering_chunked.rs:144-161 | what the first write does for every buffer and every number of pre-written bytes; it takes data exactly if the buffer has six bytes and not just three of them are free |
| `ChunkedWriter.BufferingChunkedBodyWriter.Flush` | tools/reqwless/src/body_writer/buffering_chunked.rs:163-176 | afterwards everything accepted is on the connection in whole chunks |
| `ChunkedWriter.BufferingChunkedBodyWriter.Terminate` | tools/reqwless/src/body_writer/buffering_chunked.rs:61-83 | what was sent is the pre-written bytes, whole non-empty chunks of the accepted bytes and the last chunk |
| `ChunkedWriter.Session` | tools/reqwless/src/body_writer/buffering_chunked.rs:46-176 | for every sequence of calls: the pre-written bytes, then one chunked body that decodes to exactly the bytes the calls took, with no empty chunk before the last; with three bytes free, for sequences that hand over nothing before a flush |
| `ChunkedWriter.UnbufferedSession` | tools/reqwless/src/body_writer/chunked.rs:17-69 | writes through the unbuffered writer decode to all that was written exactly when each is below 2^32 bytes, whatever follows |
| `WriteCalls.NothingPartial` | tools/reqwless/src/body_writer/buffering_chunked.rs:144-161 | when all data is handed over by `write_all`, the bytes taken are all the data |
| `ChunkedReader.BufferingReader.ConsumeLoaded` | tools/reqwless/src/reader.rs:35-42 | shifts the bytes not consumed to the front of the window |
| `ChunkedReader.BufferingReader.Read` | tools/reqwless/src/reader.rs:78-90 | hands out the next bytes of buffer and stream, at least one while there are any |
| `ChunkedReader.BufferingReader.FillBuf` | tools/reqwless/src/reader.rs:92-107 | shows the loaded bytes, else those of the stream's own buffer where it lends one, else newly loaded ones; nothing is lost or skipped |
| `ChunkedReader.BufferingReader.Consume` | tools/reqwless/src/reader.rs:109-118 | the bytes ahead lose exactly what was asked for, at most the loaded bytes and those in the stream's own buffer |
| `ChunkedReader.ChunkedBodyReader.ReadNextChunkLength` | tools/reqwless/src/response/chunked.rs:56-101 | reads the size line byte by byte to the state the specification names, errors included |
| `ChunkedReader.ChunkedBodyReader.HandleChunkBoundary` | tools/reqwless/src/response/chunked.rs:115-136 | at a boundary the line end is eaten and the next size read; for every state and any bytes, the state and bytes after it or the error are those of the boundary specification |
| `ChunkedReader.BoundaryKeeps` | tools/reqwless/src/response/chunked.rs:112-136 | an error at a boundary means ill-formed bytes, and moving on keeps what the bytes ahead stand for |
| `ChunkedReader.ChunkedBodyReader.Read` | tools/reqwless/src/response/chunked.rs:203-221 | delivers a prefix of the body still ahead, at least one byte while there are any |
| `ChunkedReader.ChunkedBodyReader.FillBuf` | tools/reqwless/src/response/chunked.rs:223-232 | shows a non-empty part of the current chunk unless the body has ended |
| `ChunkedReader.ChunkedBodyReader.Consume` | tools/reqwless/src/response/chunked.rs:234-237 | takes from the current chunk at most what it has left, sizes cut to 32 bits |
| `ChunkedReader.ChunkedBodyReader.SlideWindow` | tools/reqwless/src/response/chunked.rs:156-181 | the pretended load makes consuming move no byte: the window slides and what is behind it stays |
| `ChunkedReader.ChunkedBodyReader.DecodeMore` | tools/reqwless/src/response/chunked.rs:146-188 | one turn appends decoded bytes to those already decoded in place and stops growing exactly at the end of the body |
| `ChunkedReader.ChunkedBodyReader.ReadToEnd` | tools/reqwless/src/response/chunked.rs:143-192 | returns exactly the decoded body when it is strictly shorter than the buffer (or was already over), otherwise BufferTooSmall, for every amount loaded and every fragmentation |
| `ChunkedReader.TakeWithin` | tools/reqwless/src/response/chunked.rs:16-24 | bytes taken inside a chunk are the front of the decoded body |
| `ChunkedRoundTrip.DrainByRead` | tools/reqwless/src/response/chunked.rs:203-221 | for any bytes ahead, reading with buffers of any sizes ends done and without error exactly if they are a well-formed body; then it delivered exactly that and stopped behind the final line end |
| `ChunkedRoundTrip.DrainByBufRead` | tools/reqwless/src/response/chunked.rs:223-238 | so does borrowing and consuming any portions |
| `ChunkedRoundTrip.WriterToReader` | tools/reqwless/src/response/chunked.rs:56-136 | whatever the buffering writer emits for any calls, the reader delivers exactly the bytes the calls took, for any preloaded part, any fragmentation and with or without a buffer of the stream's own, and leaves what follows untouched |
| `ChunkedRoundTrip.UnbufferedToReader` | tools/reqwless/src/response/chunked.rs:56-136 | the reader delivers everything written through the unbuffered writer and leaves what follows untouched |
| `TlsRecords.Pad` | tools/embedded-tls/src/key_schedule.rs:318-331 | the input right-aligned behind zeros |
| `TlsRecords.GetNonce` | tools/embedded-tls/src/key_schedule.rs:296-316 | the IV xored with the padded 64-bit counter (RFC 8446, section 5.3) |
| `TlsRecords.NonceInjective` | tools/embedded-tls/src/key_schedule.rs:296-331 | under one IV different 64-bit counters give different nonces |
| `TlsRecords.HeaderLength` | tools/embedded-tls/src/record.rs:165-168 | the length read from a header is the length written, modulo 2^16 |
| `TlsRecords.FirstRecord` | tools/embedded-tls/src/blocking.rs:160-177 | a stream of sealed records is its first record and the stream of the others under the next counter |
| `TlsRecords.UnwrapPadded` | tools/embedded-tls/src/connection.rs:47-61 | any amount of zero padding comes off and the content type is recovered (RFC 8446, section 5.4), or the record refused exactly for an unknown type |
| `TlsRecords.UnwrapZeros` | tools/embedded-tls/src/connection.rs:51-65 | a plaintext of zeros keeps its length and reads as a record of type 0 |
| `CryptoBuffers.CryptoBuffer.Push` | tools/embedded-tls/src/buffer.rs:37-46 | appends to the view while there is space and changes nothing before it |
| `CryptoBuffers.CryptoBuffer.ExtendFromSlice` | tools/embedded-tls/src/buffer.rs:99-121 | appends all or nothing |
| `CryptoBuffers.CryptoBuffer.Set` | tools/embedded-tls/src/buffer.rs:63-74 | overwrites one byte inside the view and refuses any other |
| `CryptoBuffers.CryptoBuffer.Offset` | tools/embedded-tls/src/buffer.rs:149-169 | the view gets another start and keeps its end |
| `TlsWriting.Encrypt` | tools/embedded-tls/src/connection.rs:96-129 | seals the view in place under the current counter, announcing the sealed length as additional data; fails exactly for lack of space |
| `TlsWriting.HeadersAre` | tools/embedded-tls/src/record.rs:36-69 | content types and versions of each kind of record by their numbers, outside and inside |
| `TlsWriting.WriteBuffer.Append` | tools/embedded-tls/src/write_buffer.rs:159-166 | takes as much as fits before the trailer reserve |
| `TlsWriting.WriteBuffer.StartRecord` | tools/embedded-tls/src/write_buffer.rs:188-204 | lays down the header with an empty length |
| `TlsWriting.WriteBuffer.SealPayload` | tools/embedded-tls/src/write_buffer.rs:222-245 | everything behind the header, with its content type, is sealed in place; the header is untouched |
| `TlsWriting.WriteBuffer.CloseRecord` | tools/embedded-tls/src/write_buffer.rs:222-257 | returns the finished record for the collected payload and empties the buffer; fails exactly for lack of space |
| `TlsWriting.WriteBuffer.WriteRecord` | tools/embedded-tls/src/write_buffer.rs:259-287 | a whole record at once, with its exact space condition |
| `TlsWriting.TlsWriter.Flush` | tools/embedded-tls/src/blocking.rs:160-177 | always succeeds on an application record; accepted bytes move from buffered to sealed, one counter per record |
| `TlsWriting.TlsWriter.FlushOver` | tools/embedded-tls/src/blocking.rs:160-177 | over a transport that may fail: exactly if it fails within the record the collected bytes are lost, a front part of the record has gone out and the counter stays |
| `TlsWriting.TlsWriter.Write` | tools/embedded-tls/src/blocking.rs:135-156 | on an open connection takes a non-empty prefix of a non-empty write; nothing accepted is lost |
| `TlsWriting.TlsWriter.CloseInternal` | tools/embedded-tls/src/blocking.rs:233-253 | flushes and ends with the close_notify alert under the next counter |
| `TlsWriting.Session` | tools/embedded-tls/src/blocking.rs:135-253 | for every sequence of writes and flushes ended by close: record i is sealed under counter i, the application bytes are exactly those the calls took and every record fits the buffer's payload space |
| `TlsWriting.NoncesDistinct` | tools/embedded-tls/src/connection.rs:96-129 | two records of one stream never share a nonce |
| `TlsNonces.RecordSender.Send` | tools/embedded-tls/src/blocking.rs:233-253 | a record written at once goes out under the counter of complete transmissions before it, wholly or up to where the transport failed; only a complete one advances the counter |
| `TlsNonces.NonceSharedIff` | tools/embedded-tls/src/blocking.rs:160-253 | two records share a nonce exactly when no transmission from the first one up to the second one was complete |
| `TlsReading.RecordReader.NextRecordHeader` | tools/embedded-tls/src/record_reader.rs:162-177 | five bytes, however fragmented, with a known content type |
| `TlsReading.RecordReader.EnsureContiguous` | tools/embedded-tls/src/record_reader.rs:245-265 | fails exactly when a payload exceeds the buffer; moving to the front keeps pending bytes |
| `TlsReading.RecordReader.AdvanceBlocking` | tools/embedded-tls/src/record_reader.rs:204-226 | exactly the wanted bytes land behind the decoded ones |
| `TlsReading.RecordReader.ReadBlocking` | tools/embedded-tls/src/record_reader.rs:127-144 | yields the next header and payload of the stream, or the stated error, and leaves nothing pending |
| `TlsReading.AlertFaultIff` | tools/embedded-tls/src/alert.rs:12-112 | an alert can be parsed exactly with level 1 or 2 and a known description; a close_notify of either level closes |
| `TlsReading.OpenInPlace` | tools/embedded-tls/src/connection.rs:37-66 | an encrypted record is opened where it lies, its padding removed and its content left at its start |
| `TlsReading.TlsReader.DecryptRecord` | tools/embedded-tls/src/connection.rs:28-94 | what one record does to the connection: handshake messages of an encrypted record one by one, of a plain one only the first; only opened records advance the counter |
| `TlsReading.TicketInFront` | tools/embedded-tls/src/connection.rs:68-74 | a session ticket in front of other messages of its record changes nothing about them |
| `TlsReading.TlsReader.HandleMessages` | tools/embedded-tls/src/connection.rs:70-77 | the loop accepts exactly session tickets one after the other up to the end of the record |
| `TlsReading.TlsReader.Handle` | tools/embedded-tls/src/common/decrypted_read_handler.rs:15-63 | application data becomes the unread window; close_notify closes the connection |
| `TlsReading.TlsReader.ReadApplicationData` | tools/embedded-tls/src/blocking.rs:214-231 | takes in one record exactly as the byte stream says |
| `TlsReading.ReadBuffer.Pop` | tools/embedded-tls/src/read_buffer.rs:54-61 | hands out at most what is left and counts it |
| `TlsReading.TlsReader.ReadBuffered` | tools/embedded-tls/src/blocking.rs:202-212 | unread plaintext is offered before any record is read over it; otherwise records are read until there is some |
| `TlsReading.TlsReader.Read` | tools/embedded-tls/src/blocking.rs:189-199 | what is read and what stays unread together are what was available |
| `TlsReading.TlsReader.FillBuf` | tools/embedded-tls/src/blocking.rs:316-318 | shows the unread bytes and consumes none of them |
| `TlsReading.TlsReader.Consume` | tools/embedded-tls/src/blocking.rs:320-322 | drops exactly the asked-for front of the unread bytes |
| `TlsRoundTrip.SealedRecordArrives` | tools/embedded-tls/src/connection.rs:28-94 | a sealed record at the head of the stream is parsed and opened to what was sealed |
| `TlsRoundTrip.WrittenRecordParses` | tools/embedded-tls/src/write_buffer.rs:222-257 | any record the client writes, sealed or plain, is split off the stream again exactly when its length fits 16 bits and the reader's buffer |
| `TlsRoundTrip.StreamData` | tools/embedded-tls/src/blocking.rs:202-231 | the next data of a sealed stream is that of its first non-empty record, and the goodbye closes it |
| `TlsRoundTrip.Drain` | tools/embedded-tls/src/blocking.rs:189-231 | reading a sealed stream by copying or borrowing in any portions yields its application bytes, then the end |
| `TlsRoundTrip.Transfer` | tools/embedded-tls/src/blocking.rs:135-253 | writer session to reader: for any calls, fragmentation and portions the reader receives exactly the bytes the calls took, then the end |
| `ParseBuffers.ParseBuffer.Slice` | tools/embedded-tls/src/parse_buffer.rs:50-58 | splits off exactly the asked-for bytes or fails |
| `ParseBuffers.ParseBuffer.ReadU24` | tools/embedded-tls/src/parse_buffer.rs:81-94 | reads three bytes as a number and moves past them |
| `ParseBuffers.U24RoundTrip` | tools/embedded-tls/src/buffer.rs:203-217 | a 24-bit prefix reads back as the length modulo 2^24 |
| `TlsCertificate.CloseLength` | tools/embedded-tls/src/buffer.rs:171-217 | writes the length into the bytes reserved for it and touches no other |
| `TlsCertificate.EncodeEntry` | tools/embedded-tls/src/handshake/certificate.rs:102-116 | appends one entry with its length and empty extensions, or fails exactly for lack of space |
| `TlsCertificate.Encode` | tools/embedded-tls/src/handshake/certificate.rs:51-61 | appends the whole message body with its nested lengths, or fails exactly for lack of space |
| `TlsCertificate.ParseOne` | tools/embedded-tls/src/handshake/certificate.rs:72-86 | reads one entry and stops behind its extensions |
| `TlsCertificate.ParseVector` | tools/embedded-tls/src/handshake/certificate.rs:88-100 | reads entries to the end of the slice, at most sixteen |
| `TlsCertificate.Parse` | tools/embedded-tls/src/handshake/certificate.rs:32-49 | reads context and entries and stops at the end of the message, error for error |
| `TlsCertificate.CertificateRoundTrip` | tools/embedded-tls/src/handshake/certificate.rs:32-116 | parsing what was encoded returns the same context and entries and consumes exactly those bytes, exactly when they fit their length fields and there are at most sixteen |
| `TlsCertificate.ParsedEncodes` | tools/embedded-tls/src/handshake/certificate.rs:32-116 | a parsed message is the encoding of its context and entries exactly when no entry carried extension bytes |
| `TlsKeySchedule.KeySchedule.MakeExpandedHkdfLabel` | tools/embedded-tls/src/key_schedule.rs:45-89 | the pieces written one after the other are the HkdfLabel of RFC 8446, section 7.1; fails exactly without a secret or when the label exceeds 70 bytes |
| `TlsKeySchedule.LabelBytes` | tools/embedded-tls/src/key_schedule.rs:50-95 | two labels byte by byte, without and with a context |
| `TlsKeySchedule.KeySchedule.InitializeEarlySecret` | tools/embedded-tls/src/key_schedule.rs:338-351 | the early secret's derived secret and binder key |
| `TlsKeySchedule.KeySchedule.InitializeHandshakeSecret` | tools/embedded-tls/src/key_schedule.rs:353-358 | both handshake traffic keys from the standard's handshake secret over the transcript, counters at zero |
| `TlsKeySchedule.KeySchedule.InitializeMasterSecret` | tools/embedded-tls/src/key_schedule.rs:360-368 | both application traffic keys from the standard's master secret over the transcript, counters at zero |
| `TlsVerifying.CertVerifier.VerifyCertificate` | tools/embedded-tls/src/pki.rs:147-183 | a good certificate is kept with the transcript up to it; a bad one changes nothing |
| `TlsVerifying.CertVerifier.VerifySignature` | tools/embedded-tls/src/pki.rs:185-203 | the signature is judged with the kept certificate over the content of section 4.4.3 for the kept transcript, put together as 64 spaces, context string, zero and hash; it is used up; without one it fails |
| `TlsHandshake.CertificateMessage` | tools/embedded-tls/src/handshake/certificate.rs:51-61 | the client's certificate message, given byte by byte, is the encoded entry list in a handshake message |
| `TlsHandshake.RequestContextIs` | tools/embedded-tls/src/handshake/certificate_request.rs:13-29 | the request's context is the bytes its first byte counts, and there is none where they are missing |
| `TlsHandshake.StepKeepsSound` | tools/embedded-tls/src/connection.rs:438-499 | every server message keeps: no state change without a verified Finished, and the snapshot ends with it |
| `TlsHandshake.StepHistory` | tools/embedded-tls/src/handshake/mod.rs:185-200 | every server message enters the transcript exactly once, in order; a Finished is checked against what came before it and asks for a certificate exactly if a request came before it; the verifier holds the waiting certificate |
| `TlsHandshake.StepsIff` | tools/embedded-tls/src/connection.rs:448-497 | the messages of a record are accepted exactly if every one is good at its place in the flight: known kind by number, good certificate, signature over the waiting certificate, Finished over all before |
| `TlsHandshake.SignatureIff` | tools/embedded-tls/src/pki.rs:185-203 | the verifier accepts a signature exactly if it is good for the certificate that waits for one |
| `TlsHandshake.FlightOutcome` | tools/embedded-tls/src/connection.rs:438-499 | all that one record of the server's flight brings about, for any messages in it |
| `TlsHandshake.FinishedIsEnough` | tools/embedded-tls/src/connection.rs:448-497 | a flight of EncryptedExtensions and Finished is accepted without certificate and signature, whatever the verifier |
| `TlsHandshake.EverySignatureChecked` | tools/embedded-tls/src/connection.rs:462-470 | with a verifier, every CertificateVerify of an accepted flight was checked with the last Certificate before it, found good itself, over the transcript up to that Certificate |
| `TlsHandshake.SignatureCoversIff` | tools/embedded-tls/src/pki.rs:147-203 | that is everything before the signature, as section 4.4.3 has it, exactly if the Certificate comes right before it |
| `TlsHandshake.NothingAfterIff` | tools/embedded-tls/src/connection.rs:68-74 | nothing follows the accepted Finished exactly when it is the last message of its record |
| `TlsHandshake.FinishedEndsRecord` | tools/embedded-tls/src/connection.rs:473-488 | a record ending with its Finished leaves snapshot and transcript equal at that point |
| `TlsHandshake.TrailingMessage` | tools/embedded-tls/src/connection.rs:448-497 | the failing family: a message after the Finished in its record is in the transcript but not in the snapshot |
| `TlsConnecting.Connection.HandleProcessingError` | tools/embedded-tls/src/connection.rs:299-320 | an abort on this side sends its alert in the clear and stays the error; every other outcome passes unchanged |
| `TlsConnecting.Connection.FinalizeHello` | tools/embedded-tls/src/handshake/client_hello.rs:151-187 | the hello that enters the transcript is the one sent, and each binder covers it up to the binders (section 4.2.11.2) |
| `TlsConnecting.Connection.SendHandshake` | tools/embedded-tls/src/write_buffer.rs:259-287 | succeeds exactly if the sealed message fits the buffer; then it enters the transcript once and goes out under the next counter |
| `TlsConnecting.Connection.ProcessServerHello` | tools/embedded-tls/src/connection.rs:410-436 | the record is taken as the server's hello, the handshake keys cover exactly ClientHello and that message, and the read counter is 0; exact errors |
| `TlsConnecting.Connection.HandleMessage` | tools/embedded-tls/src/connection.rs:438-499 | one handshake message does to transcript, verifier, request and snapshot what the step function says, error for error |
| `TlsConnecting.Connection.ProcessMessages` | tools/embedded-tls/src/connection.rs:68-74 | the loop over the bytes of one record parses and acts on one message after the other: the step function folded over them, then the first parse error |
| `TlsConnecting.Connection.DecryptRecord` | tools/embedded-tls/src/connection.rs:28-94 | an encrypted record is opened where it lies, under the counter of the moment, which then grows by one; any other record leaves the counter alone |
| `TlsConnecting.Connection.ReceiveServerFlight` | tools/embedded-tls/src/connection.rs:199-208 | each record taken was opened under the number of encrypted records before it and keeps the transcript equal to the hellos and the messages of all records taken, in order; it fails exactly where one of its messages does; the first record with a Finished is the last |
| `TlsConnecting.Connection.SendCertificate` | tools/embedded-tls/src/connection.rs:501-538 | the snapshot is taken before the client's own certificate message; succeeds exactly if that fits the buffer |
| `TlsConnecting.Connection.SendCertificateVerify` | tools/embedded-tls/src/connection.rs:540-598 | the signature covers the transcript up to the client's certificate; succeeds exactly with a signing key and if the message fits |
| `TlsConnecting.Connection.SendFinished` | tools/embedded-tls/src/connection.rs:600-636 | the client Finished covers everything so far, then the snapshot alone feeds the application secrets; succeeds exactly if the message fits |
| `TlsConnecting.Connection.Process` | tools/embedded-tls/src/connection.rs:235-296 | every step keeps the invariant of the state it returns over exactly the bytes taken, makes progress, and keeps completing in reach exactly if it was |
| `TlsConnecting.Connection.Open` | tools/embedded-tls/src/blocking.rs:96-125 | over the bytes of the server's stream: succeeds exactly if some number of their records, each opened under the number of encrypted ones before it, completes the handshake; then exactly those records were read, the rest is left, and it ends with the secrets, keys, counters, Finished and sent records of `Done` |
| `TlsCompleting.FlightCompletesIff` | tools/embedded-tls/src/connection.rs:438-499 | taking the records one by one completes the flight exactly if some number of them does: all received, the last one the first with a Finished, every message good at its place, the client's answer fitting its buffer |
| `TlsServerRecords.CoalesceJoined` | tools/embedded-tls/src/connection.rs:67-74 | messages put together in one record are told apart again, and parsing goes on behind them |
| `TlsServerRecords.StopsAt` | tools/embedded-tls/src/handshake/mod.rs:49-64 | a message of an unknown or unimplemented kind, or a cut-off one, stops the parsing of its record with its error; the messages before it count |
| `TlsServerRecords.FinishedIsWhole` | tools/embedded-tls/src/handshake/finished.rs:30-33 | a Finished ends where a hash does, whatever length it states |
| `TlsServerRecords.TakenFirst` | tools/embedded-tls/src/connection.rs:40-93 | the records behind the first are opened under a counter one higher exactly if that one was encrypted |
| `TlsServerRecords.FlightStep` | tools/embedded-tls/src/connection.rs:438-499 | taking one record off the stream completes the flight exactly if the record is good and the rest completes it, or it holds the Finished and the answer fits |
| `TlsHonestServer.StreamTaken` | tools/embedded-tls/src/connection.rs:40-93 | a server's records, the i-th sealed under counter i, are opened and parsed to the messages put into them, and what follows starts under the next counter |
| `TlsHonestServer.HeardAsSent` | tools/embedded-tls/src/connection.rs:199-208 | on an honest server's bytes the client hears its hello and its groups of messages as they were sent |
| `TlsHonestServer.HonestServerIff` | tools/embedded-tls/src/connection.rs:410-499 | on those bytes, whatever follows them, the handshake completes exactly if it does on the messages they carry |
| `TlsHonestServer.ChangeCipherSpecIgnored` | tools/embedded-tls/src/connection.rs:490-494 | a ChangeCipherSpec record anywhere in the flight changes neither the messages nor the counters the others are opened under |
| `TlsCompleting.ShortestHandshake` | tools/embedded-tls/src/connection.rs:410-499 | a hello, EncryptedExtensions and a Finished over them complete a handshake |
| `TlsCompleting.PlainFlightIff` | tools/embedded-tls/src/connection.rs:76-93 | records in the clear complete a handshake exactly if encrypted ones with the same messages do |
| `TlsConnecting.FlightEncryptedIff` | tools/embedded-tls/src/connection.rs:76-93 | the flight of a completed handshake came encrypted exactly if no record after the server's hello was a plaintext one |
| `TlsConnecting.TranscriptsIff` | tools/embedded-tls/src/connection.rs:438-636 | over the messages of the records taken: both application secrets come from ClientHello up to the server Finished exactly when that Finished is the last message or no certificate was asked for before it; the client Finished covers that and exactly the client's own messages exactly when it is the last message |
| `TlsConnecting.ServerAuthenticatedIff` | tools/embedded-tls/src/connection.rs:438-499 | with a verifier, a completed handshake has seen a good certificate and a good signature under its key over the handshake up to it exactly if a CertificateVerify was received |
| `TlsConnecting.ServerSignatureChecked` | tools/embedded-tls/src/connection.rs:452-470 | every CertificateVerify received was checked that way, over ClientHello up to and including the last Certificate before it |
| `EuDst.UnixToDate` | crates/eu-dst/src/lib.rs:130-169 | the date returned has the day count of the instant (counts of 2^32 days and more are clamped) and the hour is the hour of the day |
| `EuDst.DayNumberInjective` | crates/eu-dst/src/lib.rs:130-169 | a day count belongs to one date only, so the conversion inverts counting |
| `EuDst.DaysBeforeYearClosed` | crates/eu-dst/src/lib.rs:171-175 | counting years one by one is the closed formula with its leap days |
| `EuDst.ZellerAgrees` | crates/eu-dst/src/lib.rs:177-209 | Zeller's formula gives the weekday found by counting days from Thursday 1970-01-01, for every year and month |
| `EuDst.LastSundayOfMonth` | crates/eu-dst/src/lib.rs:177-209 | a Sunday of the month with no later one |
| `EuDst.LastSundayUnique` | crates/eu-dst/src/lib.rs:177-209 | there is only one such day |
| `EuDst.IsDstActive` | crates/eu-dst/src/lib.rs:106-140 | active exactly from 01:00 UTC on the last Sunday of March to 01:00 UTC on the last Sunday of October of the instant's year (Directive 2000/84/EC), days of 2^32 and more taken for the last that fits 32 bits |
| `EuDst.ClampRightIff` | crates/eu-dst/src/lib.rs:106-140 | the answer for an instant is the rule's exactly when its day fits 32 bits or it is outside summer time |
| `EuDst.LateSummerMissed` | crates/eu-dst/src/lib.rs:106-140 | an instant where it is not: midnight of 10 July 11761191 |
| `EuDst.OffsetSecs` | crates/eu-dst/src/lib.rs:57-63 | one hour more exactly in summer time |
| `EuDst.Saturate` | crates/eu-dst/src/lib.rs:75-76 | saturating gives the nearest 64-bit number |
| `EuDst.ToLocalHms` | crates/eu-dst/src/lib.rs:73-83 | hours, minutes and seconds of the local instant, recombining to it |
| `RubicsonCrc.CalculateCrc8` | crates/rubicson/src/lib.rs:221-233 | the two nested loops are the register function over the bytes |
| `RubicsonCrc.ChecksumIff` | crates/rubicson/src/lib.rs:167-193 | appending a byte makes the checksum zero exactly when the byte is the checksum, for any length |
| `RubicsonCrc.CrcParity` | crates/rubicson/src/lib.rs:221-233 | the register's parity is the parity of everything fed in |
| `Rubicson.DecodeRubicson` | crates/rubicson/src/lib.rs:167-219 | returns the fields exactly for packets with a valid checksum |
| `Rubicson.TwelveBitTwosComplement` | crates/rubicson/src/lib.rs:33-35 | shifting up and back reads twelve bits as two's complement |
| `Rubicson.ValidIffChecksum` | crates/rubicson/src/lib.rs:167-193 | a packet is accepted exactly when its split checksum byte is that of its payload |
| `Rubicson.ValidPacketsAreEven` | crates/rubicson/src/lib.rs:167-193 | every accepted packet has an even number of one bits among its 36 |
| `Rubicson.OddFlipsAreRejected` | crates/rubicson/src/lib.rs:167-193 | inverting any odd number of the 36 bits of an accepted packet makes it rejected |
| `RubicsonErrors.FlipsAcceptedIff` | crates/rubicson/src/lib.rs:167-193 | whether flips of an accepted packet are accepted depends on the flips alone: exactly if their own checksum, from register zero, is zero |
| `RubicsonErrors.FewFlipsRejected` | crates/rubicson/src/lib.rs:167-193 | any one, two or three flipped bits of the 36 are rejected |
| `RubicsonErrors.FourFlipsMissed` | crates/rubicson/src/lib.rs:167-193 | four are not: the terms of the polynomial go unnoticed in every packet |
| `RubicsonErrors.BurstMissedIff` | crates/rubicson/src/lib.rs:167-193 | of all bursts within eight neighbouring bits exactly one is accepted: bits 25 to 32, all flipped |
| `RubicsonGaps.IgnoredGapsDropOut` | crates/rubicson/src/lib.rs:37-63 | gaps of at most 750, inserted anywhere, change nothing |
| `RubicsonGaps.AddBit` | crates/rubicson/src/lib.rs:65-86 | a one bit is or-ed in, a zero bit leaves the byte alone, bits past the row are lost |
| `RubicsonGaps.DecodeGapsIter` | crates/rubicson/src/lib.rs:105-165 | for every gap sequence the streaming decoder returns what cutting rows first and taking the first valid one returns, the failed buffer included |
| `RubicsonTransmit.BuiltPacketReads` | crates/rubicson/src/lib.rs:246-274 | a packet built with its checksum, as the source's test helper builds it, is accepted and read as what it was built from |
| `RubicsonTransmit.TransmittedReadingDecodes` | crates/rubicson/src/lib.rs:37-63 | every reading, keyed with zero bits of 751 to 1500, one bits of 1501 to 2500 and a break of 2501 to 4500, is decoded from row 0 whatever follows |
| `RubicsonTransmit.BurstReads` | crates/rubicson/src/lib.rs:105-150 | a burst of rows keyed within those limits reads as the first of its first twelve rows with a good checksum |
| `RubicsonTransmit.LastRowReadsIff` | crates/rubicson/src/lib.rs:152-162 | a last row without a break is read exactly if it has 36 bits, a good checksum and a place among the twelve |
| `RubicsonTransmit.ResetEnds` | crates/rubicson/src/lib.rs:144-147 | a gap above 4500 ends the burst: nothing after it is looked at, nor the row it falls into |
| `RubicsonTransmit.RecordedPacketDecodes` | crates/rubicson/test_data/sample_gaps.txt:40-77 | the second packet of the repository's recording, gap by gap, reads as sensor 230 on channel 1 at -9.4 degrees |
| `DedupeCaching.AcceptOneMore` | crates/telemetry-core/src/dedupe.rs:39-66 | pruning, dropping the oldest of a full cache and appending is what the longer history asks for |
| `DedupeCaching.HeldIffRemembered` | crates/telemetry-core/src/dedupe.rs:39-66 | a record's key is in the cache exactly if one with the same reading was accepted less than the lifetime ago with fewer than N acceptances since |
| `DedupeCaching.SameKeyIff` | crates/telemetry-core/src/dedupe.rs:42-47 | two records have one key exactly if sensor id, channel, temperature and battery flag agree, at whatever time |
| `DedupeCaching.DedupeCache.Observe` | crates/telemetry-core/src/dedupe.rs:39-66 | answers Duplicate exactly if one of the last N accepted records, accepted less than the lifetime ago, has the same sensor id, channel, temperature and battery flag; otherwise the history grows by this record; any capacity, saturation included |
| `DedupeCaching.DedupeCache.PruneExpired` | crates/telemetry-core/src/dedupe.rs:68-70 | keeps exactly the unexpired entries, in order |
| `DedupeCaching.DedupeCache.EvictOldest` | crates/telemetry-core/src/dedupe.rs:72-81 | removes exactly the front, which is always the entry expiring first |
| `DedupeCaching.Run` | crates/telemetry-core/src/dedupe.rs:39-81 | over any run with a nondecreasing clock all answers are those of the history of accepted records |
| `OtaContainer.HeaderUnique` | firmware/src/ota/encrypted.rs:358-372 | exactly one 16-byte header is accepted |
| `OtaContainer.HeaderErrorIs` | firmware/src/ota/encrypted.rs:358-372 | a refused header is refused for its first wrong field |
| `OtaContainer.PrefixIff` | crates/ota-core/src/lib.rs:236-259 | a prefix is valid exactly if it starts with 0xe9, 1 to 16 segments, a flash mode up to 3, a size and frequency that are known, and an entry address other than 0 |
| `OtaContainer.PrefixErrorIs` | crates/ota-core/src/lib.rs:236-259 | a refused prefix is refused for its first wrong field |
| `OtaContainer.PrefixDecides` | crates/ota-core/src/lib.rs:236-259 | the verdict on an image depends on its first eight bytes only |
| `OtaContainer.UnpackIffPacked` | firmware/src/ota/flash_write.rs:620-719 | a stream unpacks to an image exactly when it starts with the container of that image and the image starts like one on its bytes, or is too short to be looked at |
| `OtaContainer.PackedLength` | crates/ota-core/src/lib.rs:527-533 | the container of an image is exactly as long as the manifest's download size: 16 + size + 36 for each started 4096 bytes |
| `OtaBody.PrepareInactiveSlot` | firmware/src/ota/flash_write.rs:296-323 | erases whole sectors covering the image inside the slot, or refuses exactly when the spared last sector would be needed; no 32-bit step overflows |
| `OtaBody.ReadExact` | firmware/src/ota/flash_write.rs:587-617 | exactly the wanted bytes from any fragments, or an error exactly when the stream ends before |
| `OtaBody.ReadChunk` | firmware/src/ota/flash_write.rs:648-686 | one chunk is authenticated with its index, offset and length and then decrypted, in the order of the code |
| `OtaBody.NotePrefix` | firmware/src/ota/flash_write.rs:688-698 | collects the first 64 bytes over any number of chunks; the verdict is the one on all bytes so far and is final from eight bytes on |
| `OtaBody.ProcessEncryptedBody` | firmware/src/ota/flash_write.rs:620-735 | the outcome is that of unpacking; the slot then holds the image, the hashes are of the image and of its read-back prefix, the writes are the consecutive pieces, and nothing outside the erased range changed |
| `OtaBody.TilesCover` | firmware/src/ota/flash_write.rs:700-709 | those pieces follow one another without gap or overlap and end with the image |
| `OtaBody.PostVerify` | firmware/src/ota/flash_write.rs:737-758 | accepts exactly the size and the digest the manifest names, hexadecimal in either case; the size is looked at first |
| `OtaBody.HexNamesOneDigest` | firmware/src/ota/flash_write.rs:277-294 | a hexadecimal hash, in whatever case, stands for one digest only |
| `OtaBody.Sha256Hex` | firmware/src/ota/flash_write.rs:277-294 | the loop over the buffer prints two lower-case digits a byte |
| `OtaBody.HexMatchIff` | firmware/src/ota/flash_write.rs:744-756 | comparing printed digits without regard to case succeeds exactly if the text parses to the digest |
| `OtaBody.VerifyFlashReadback` | firmware/src/ota/flash_write.rs:760-782 | accepts exactly when the flash reads back with the recorded hash |
| `OtaBody.Install` | firmware/src/ota/flash_write.rs:792-860 | the outcome is that of unpacking and checking, error for error; an installed image starts like one or is shorter than eight bytes, exactly the download size was consumed, and neither flash bounds nor the read-back check can be what fails |
| `OtaBody.InstallsIff` | firmware/src/ota/flash_write.rs:792-860 | what installs: exactly a stream that starts with the container of an image of the manifest's size and hash that starts like one (or is too short to tell), with a sector of the slot to spare |
| `OtaBody.ShortImageInstalls` | firmware/src/ota/flash_write.rs:688-698 | the failing family: any image of fewer than eight bytes, seven for one, installs |

## Left out

- TlsReading.AlertError: parse failures carry one error where the code tells apart which field was short.
- TlsReading.TicketAt: which bytes are a session ticket is a parameter; malformed messages and any other handshake message on an open connection, where the code stops the program, are one error.
- TlsConnecting.Connection.Open: nothing is promised about the connection after an error; how long the bodies of messages other than a Finished are, whether a certificate chain is good for the host, and whether a signature is good under a certificate are parameters.
- TlsVerifying.CertVerifier.VerifySignature: a signature with no certificate waiting, where the code stops the program, is an error.
- TlsKeySchedule.KeySchedule.MakeExpandedHkdfLabel: label names of 250 bytes and more, whose length byte would overflow; the names in use have at most twelve.
- RsaDer.ParsePkcs1Rsa2048PublicKeyDer: addresses are four bytes wide, as on the device.
- TlsWriting.Session: failing transport writes are followed in `FlushOver` and `TlsNonces` only, timeouts and flush policies nowhere; elsewhere the transport accepts every byte and reads only end.
- The async twin of the TLS connection and the split halves: the same logic as the blocking one.
- Overflow of the 64-bit record counter, which stops the program: runs are bounded below it where nonces are concerned.
- A record whose opened plaintext is empty, which stops the program, is an error in the model.
- The body of a plaintext ChangeCipherSpec record is not parsed; on an open connection it is an error either way.
- The content type of plaintext alerts follows the code, which marks them ChangeCipherSpec (`TlsWriting.HeadersAre`).
- Contents of ClientHello, ServerHello and extensions: bytes to this model. X.509 is not part of this model.
- Chunk extensions, trailers and truncated chunked bodies: the reader supports none of the first two and has no progress at a premature end in `read_to_end`.
- Buffers of 2^32 bytes and more.
- Temperatures are signed tenths of a degree, not floating point.
- SHA-256, AES, Ed25519 and P-256 themselves, the flash driver and the partition table.
- Manifest parsing and signature, HTTP redirects and response headers around the download.
- Topics, configuration clamping, backoff, display and menu logic: small or finite, they would only add easy members.
