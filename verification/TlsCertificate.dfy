/**
 Certificate messages (RFC 8446, section 4.4.2): encoding into a buffer with
 length prefixes filled in afterwards, and parsing back through the cursor.
 Which certificate extensions are acceptable is a parameter; none always are.
 */
module TlsCertificate {
  import opened Bytes
  import opened CryptoBuffers
  import opened ParseBuffers
  import opened TlsRecords
  import opened Wrappers

  const MAX_ENTRIES: nat := 16

  type Extensions = seq<byte> -> bool

  datatype Entry = X509(cert: seq<byte>) | RawPublicKey(key: seq<byte>)

  predicate AllX509(entries: seq<Entry>) {
    forall i :: 0 <= i < |entries| ==> entries[i].X509?
  }

  datatype CertificateRef = CertificateRef(rawEntries: seq<byte>, requestContext: seq<byte>, entries: seq<Entry>)

  // ---------- the wire format ----------

  function EntryBytes(entry: Entry): seq<byte>
    requires entry.X509?
  {
    U24Bytes(|entry.cert|) + entry.cert + [0, 0]
  }

  function EntriesBytes(entries: seq<Entry>): (s: seq<byte>)
    requires AllX509(entries)
    ensures |s| == BodyLength(entries)
  {
    if entries == [] then [] else EntryBytes(entries[0]) + EntriesBytes(entries[1..])
  }

  function BodyLength(entries: seq<Entry>): nat
    requires AllX509(entries)
  {
    if entries == [] then 0 else 5 + |entries[0].cert| + BodyLength(entries[1..])
  }

  /** The message body; lengths are kept to 8 and 24 bits as the code keeps them. */
  function CertificateBytes(context: seq<byte>, entries: seq<Entry>): (s: seq<byte>)
    requires AllX509(entries)
    ensures |s| == 4 + |context| + BodyLength(entries)
  {
    [|context| % 256] + context + U24Bytes(BodyLength(entries)) + EntriesBytes(entries)
  }

  datatype ParsedEntry = ParsedEntry(entry: Entry, rest: seq<byte>)

  function ParseEntry(w: seq<byte>, ext: Extensions): (r: TlsResult<ParsedEntry>)
    ensures r.Ok? ==> |r.value.rest| < |w| && r.value.entry.X509?
  {
    if |w| < 3 then Err(InvalidCertificateEntry)
    else
      var n := U24Val(w[..3]);
      if |w| < 3 + n then Err(InvalidCertificateEntry)
      else if |w| < 5 + n then Err(InvalidExtensionsLength)
      else
        var m := U16Val(w[3 + n..5 + n]);
        if |w| < 5 + n + m then Err(ParseError)
        else if !ext(w[5 + n..5 + n + m]) then Err(ExtensionRejected)
        else Ok(ParsedEntry(X509(w[3..3 + n]), w[5 + n + m..]))
  }

  function Prepend(done: seq<Entry>, r: TlsResult<seq<Entry>>): TlsResult<seq<Entry>> {
    if r.Err? then r else Ok(done + r.value)
  }

  function ParseEntries(w: seq<byte>, ext: Extensions, room: nat): (r: TlsResult<seq<Entry>>)
    ensures r.Ok? ==> AllX509(r.value) && |r.value| <= room
    decreases |w|
  {
    if w == [] then Ok([])
    else
      var first := ParseEntry(w, ext);
      if first.Err? then Err(first.error)
      else if room == 0 then Err(DecodeError)
      else Prepend([first.value.entry], ParseEntries(first.value.rest, ext, room - 1))
  }

  datatype ParsedCertificate = ParsedCertificate(certificate: CertificateRef, rest: seq<byte>)

  function ParseCertificate(w: seq<byte>, ext: Extensions): TlsResult<ParsedCertificate> {
    if |w| < 1 || |w| < 1 + w[0] as int then Err(InvalidCertificate)
    else
      var at := 1 + w[0] as int;
      if |w| < at + 3 || |w| < at + 3 + U24Val(w[at..at + 3]) then Err(InvalidCertificate)
      else
        var end := at + 3 + U24Val(w[at..at + 3]);
        var entries := ParseEntries(w[at + 3..end], ext, 16);
        if entries.Err? then Err(entries.error)
        else Ok(ParsedCertificate(CertificateRef(w[at + 3..end], w[1..at], entries.value), w[end..]))
  }

  // ---------- the code ----------

  /** Opens a length-prefixed block: `n` zero bytes to be filled in later. */
  method OpenLength(buf: CryptoBuffer, n: nat) returns (r: TlsResult<nat>)
    requires buf.Valid()
    modifies buf`len, buf.buf
    ensures buf.Valid() && (r.Ok? <==> n <= old(buf.Space()))
    ensures r.Ok? ==> r.value == old(buf.len) && buf.Contents() == old(buf.Contents()) + Zeros(n)
    ensures r.Err? ==> r.error == InsufficientSpace
  {
    var lenPos := buf.len;
    var pushed := buf.ExtendFromSlice(Zeros(n));
    if pushed.Err? {
      return Err(pushed.error);
    }
    return Ok(lenPos);
  }

  /** The sequence with `bytes` written over it at `at`. */
  ghost function Patched(s: seq<byte>, at: nat, bytes: seq<byte>): (t: seq<byte>)
    requires at + |bytes| <= |s|
    ensures |t| == |s|
  {
    s[..at] + bytes + s[at + |bytes|..]
  }

  /** Writes the big-endian length of what was appended since. */
  method CloseLength(buf: CryptoBuffer, lenPos: nat, bytes: seq<byte>)
    requires buf.Valid() && lenPos + |bytes| <= buf.len && |bytes| <= 3
    modifies buf.buf
    ensures buf.Contents() == Patched(old(buf.Contents()), lenPos, bytes)
  {
    hide Patched;
    ghost var was := buf.Contents();
    NothingPatched(was, lenPos);
    assert bytes[..0] == [];
    for i := 0 to |bytes|
      invariant buf.Contents() == Patched(was, lenPos, bytes[..i])
    {
      var stored := buf.Set(lenPos + i, bytes[i]);
      OneMorePatched(was, lenPos, bytes, i);
    }
    assert bytes[..|bytes|] == bytes;
  }

  lemma NothingPatched(s: seq<byte>, at: nat)
    requires at <= |s|
    ensures Patched(s, at, []) == s
  {}

  lemma OneMorePatched(s: seq<byte>, at: nat, bytes: seq<byte>, i: nat)
    requires i < |bytes| && at + |bytes| <= |s|
    ensures Patched(s, at, bytes[..i])[at + i := bytes[i]] == Patched(s, at, bytes[..i + 1])
  {}

  lemma FilledIn(head: seq<byte>, zeros: seq<byte>, body: seq<byte>, bytes: seq<byte>, all: seq<byte>)
    requires |zeros| == |bytes| && all == head + zeros + body
    ensures Patched(all, |head|, bytes) == head + bytes + body
  {}

  lemma EntryWhole(head: seq<byte>, entry: Entry)
    requires entry.X509?
    ensures head + U24Bytes(|entry.cert|) + entry.cert + [0, 0] == head + EntryBytes(entry)
  {}

  method EncodeEntry(entry: Entry, buf: CryptoBuffer) returns (r: TlsResult<()>)
    requires buf.Valid() && entry.X509?
    modifies buf`len, buf.buf
    ensures buf.Valid() && (r.Ok? <==> |EntryBytes(entry)| <= old(buf.Space()))
    ensures r.Ok? ==> buf.Contents() == old(buf.Contents()) + EntryBytes(entry)
    ensures r.Err? ==> r.error == InsufficientSpace
  {
    hide EntryBytes, Zeros, Patched;
    ghost var head := buf.Contents();
    EntrySize(entry);
    var mark := OpenLength(buf, 3);
    if mark.Err? {
      return Err(mark.error);
    }
    r := buf.ExtendFromSlice(entry.cert);
    if r.Err? {
      return;
    }
    var len := U24Bytes(buf.len - (mark.value + 3));
    FilledIn(head, Zeros(3), entry.cert, len, buf.Contents());
    CloseLength(buf, mark.value, len);
    r := buf.ExtendFromSlice([0, 0]);
    EntryWhole(head, entry);
  }

  lemma {:induction false} EntriesPush(entries: seq<Entry>, entry: Entry)
    requires AllX509(entries) && entry.X509?
    ensures AllX509(entries + [entry]) && EntriesBytes(entries + [entry]) == EntriesBytes(entries) + EntryBytes(entry)
  {
    if entries == [] {
      assert [entry][1..] == [];
    } else {
      EntriesPush(entries[1..], entry);
      assert (entries + [entry])[1..] == entries[1..] + [entry];
      SeqRegroup(EntryBytes(entries[0]), EntriesBytes(entries[1..]), EntryBytes(entry));
    }
  }

  lemma {:induction false} BodyPrefix(entries: seq<Entry>, i: nat)
    requires AllX509(entries) && i < |entries|
    ensures BodyLength(entries[..i]) + 5 + |entries[i].cert| <= BodyLength(entries)
  {
    if i > 0 {
      BodyPrefix(entries[1..], i - 1);
      assert entries[..i][1..] == entries[1..][..i - 1];
    }
  }

  method EncodeContext(context: seq<byte>, buf: CryptoBuffer) returns (r: TlsResult<()>)
    requires buf.Valid()
    modifies buf`len, buf.buf
    ensures buf.Valid() && (r.Ok? <==> 1 + |context| <= old(buf.Space()))
    ensures r.Ok? ==> buf.Contents() == old(buf.Contents()) + [|context| % 256] + context
    ensures r.Err? ==> r.error == InsufficientSpace
  {
    hide Zeros, Patched;
    ghost var head := buf.Contents();
    var mark := OpenLength(buf, 1);
    if mark.Err? {
      return Err(mark.error);
    }
    r := buf.ExtendFromSlice(context);
    if r.Err? {
      return;
    }
    var contextLen := [(buf.len - (mark.value + 1)) % 256];
    FilledIn(head, Zeros(1), context, contextLen, buf.Contents());
    CloseLength(buf, mark.value, contextLen);
  }

  method EncodeEntries(entries: seq<Entry>, buf: CryptoBuffer) returns (r: TlsResult<()>)
    requires buf.Valid() && AllX509(entries)
    modifies buf`len, buf.buf
    ensures buf.Valid() && (r.Ok? <==> 3 + BodyLength(entries) <= old(buf.Space()))
    ensures r.Ok? ==> buf.Contents() == old(buf.Contents()) + U24Bytes(BodyLength(entries)) + EntriesBytes(entries)
    ensures r.Err? ==> r.error == InsufficientSpace
  {
    hide EntriesBytes, BodyLength, EntryBytes, Zeros, Patched;
    ghost var head, space := buf.Contents(), buf.Space();
    var mark := OpenLength(buf, 3);
    if mark.Err? {
      return Err(mark.error);
    }
    EmptyBody();
    for i := 0 to |entries|
      invariant buf.Valid() && AllX509(entries[..i])
      invariant buf.Contents() == head + Zeros(3) + EntriesBytes(entries[..i])
      invariant buf.Space() + 3 + BodyLength(entries[..i]) == space
    {
      ghost var so := entries[..i];
      r := EncodeEntry(entries[i], buf);
      EntrySize(entries[i]);
      if r.Err? {
        BodyPrefix(entries, i);
        return;
      }
      EntriesPush(so, entries[i]);
      SeqRegroup(head + Zeros(3), EntriesBytes(so), EntryBytes(entries[i]));
      assert entries[..i + 1] == so + [entries[i]];
    }
    assert entries[..|entries|] == entries;
    var bodyLen := U24Bytes(buf.len - (mark.value + 3));
    FilledIn(head, Zeros(3), EntriesBytes(entries), bodyLen, buf.Contents());
    CloseLength(buf, mark.value, bodyLen);
    return Ok(());
  }

  method Encode(context: seq<byte>, entries: seq<Entry>, buf: CryptoBuffer) returns (r: TlsResult<()>)
    requires buf.Valid() && AllX509(entries)
    modifies buf`len, buf.buf
    ensures buf.Valid() && (r.Ok? <==> |CertificateBytes(context, entries)| <= old(buf.Space()))
    ensures r.Ok? ==> buf.Contents() == old(buf.Contents()) + CertificateBytes(context, entries)
    ensures r.Err? ==> r.error == InsufficientSpace
  {
    hide EntriesBytes, BodyLength, AllX509;
    ghost var start := buf.Contents();
    r := EncodeContext(context, buf);
    if r.Err? {
      return;
    }
    r := EncodeEntries(entries, buf);
    Whole(start, [|context| % 256], context, U24Bytes(BodyLength(entries)), EntriesBytes(entries));
  }

  lemma EmptyBody()
    ensures AllX509([]) && EntriesBytes([]) == [] && BodyLength([]) == 0
  {}

  lemma EntrySize(entry: Entry)
    requires entry.X509?
    ensures |EntryBytes(entry)| == 5 + |entry.cert|
  {}

  lemma Whole(start: seq<byte>, a: seq<byte>, b: seq<byte>, c: seq<byte>, d: seq<byte>)
    ensures start + a + b + c + d == start + (a + b + c + d)
  {}

  method ParseOne(buf: ParseBuffer, ext: Extensions) returns (r: TlsResult<Entry>)
    requires buf.Valid()
    modifies buf
    ensures buf.Valid()
    ensures var p := ParseEntry(old(buf.Rest()), ext);
            if p.Err? then r == Err(p.error) else r == Ok(p.value.entry) && buf.Rest() == p.value.rest
  {
    hide U24Val, U16Val;
    ghost var w := buf.Rest();
    var entryLen := buf.ReadU24();
    if entryLen.Err? {
      return Err(InvalidCertificateEntry);
    }
    ghost var n := entryLen.value;
    var cert := buf.Slice(entryLen.value);
    if cert.Err? {
      return Err(InvalidCertificateEntry);
    }
    SliceAt(w, 3, n);
    var extensionsLen := buf.ReadU16();
    if extensionsLen.Err? {
      return Err(InvalidExtensionsLength);
    }
    SliceAt(w, 3 + n, 2);
    var extensions := buf.Slice(extensionsLen.value);
    if extensions.Err? {
      return Err(extensions.error);
    }
    ghost var m := extensionsLen.value;
    SliceAt(w, 5 + n, m);
    if !ext(extensions.value.buffer) {
      return Err(ExtensionRejected);
    }
    return Ok(X509(cert.value.buffer));
  }

  method ParseVector(buf: ParseBuffer, ext: Extensions) returns (r: TlsResult<seq<Entry>>)
    requires buf.Valid()
    modifies buf
    ensures r == ParseEntries(old(buf.Rest()), ext, MAX_ENTRIES)
  {
    hide ParseEntry;
    ghost var all := ParseEntries(buf.Rest(), ext, MAX_ENTRIES);
    var result: seq<Entry> := [];
    assert all.Ok? ==> result + all.value == all.value;
    while buf.pos != |buf.buffer|
      invariant buf.Valid() && |result| <= MAX_ENTRIES
      invariant all == Prepend(result, ParseEntries(buf.Rest(), ext, MAX_ENTRIES - |result|))
      decreases |buf.Rest()|
    {
      ghost var w, so := buf.Rest(), result;
      var entry := ParseOne(buf, ext);
      if entry.Err? {
        return Err(entry.error);
      }
      if |result| == MAX_ENTRIES {
        return Err(DecodeError);
      }
      result := result + [entry.value];
      PrependTwice(so, entry.value, ParseEntries(buf.Rest(), ext, MAX_ENTRIES - |result|));
    }
    assert result + [] == result;
    return Ok(result);
  }

  lemma PrependTwice(done: seq<Entry>, entry: Entry, r: TlsResult<seq<Entry>>)
    ensures Prepend(done, Prepend([entry], r)) == Prepend(done + [entry], r)
  {
    if r.Ok? {
      assert done + ([entry] + r.value) == done + [entry] + r.value;
    }
  }

  method Parse(buf: ParseBuffer, ext: Extensions) returns (r: TlsResult<CertificateRef>)
    requires buf.Valid()
    modifies buf
    ensures buf.Valid()
    ensures var p := ParseCertificate(old(buf.Rest()), ext);
            if p.Err? then r == Err(p.error) else r == Ok(p.value.certificate) && buf.Rest() == p.value.rest
  {
    hide ParseEntries, U24Val;
    ghost var w := buf.Rest();
    var contextLen := buf.ReadU8();
    if contextLen.Err? {
      return Err(InvalidCertificate);
    }
    ghost var at := 1 + contextLen.value as int;
    var context := buf.Slice(contextLen.value);
    if context.Err? {
      return Err(InvalidCertificate);
    }
    SliceAt(w, 1, contextLen.value);
    var entriesLen := buf.ReadU24();
    if entriesLen.Err? {
      return Err(InvalidCertificate);
    }
    SliceAt(w, at, 3);
    var rawEntries := buf.Slice(entriesLen.value);
    if rawEntries.Err? {
      return Err(InvalidCertificate);
    }
    SliceAt(w, at + 3, entriesLen.value);
    var entries := ParseVector(rawEntries.value, ext);
    if entries.Err? {
      return Err(entries.error);
    }
    return Ok(CertificateRef(rawEntries.value.buffer, context.value.buffer, entries.value));
  }

  // ---------- the round trip ----------

  lemma EntryRoundTrip(entry: Entry, rest: seq<byte>, ext: Extensions)
    requires entry.X509? && |entry.cert| < 0x100_0000 && ext([])
    ensures ParseEntry(EntryBytes(entry) + rest, ext) == Ok(ParsedEntry(entry, rest))
  {
    var n := |entry.cert|;
    var w := EntryBytes(entry) + rest;
    U24RoundTrip(n);
    assert w[..3] == U24Bytes(n) && w[3..3 + n] == entry.cert && w[3 + n..5 + n] == [0, 0];
    assert w[5 + n..5 + n + 0] == [] && w[5 + n + 0..] == rest;
  }

  lemma {:induction false} EntriesRoundTrip(entries: seq<Entry>, ext: Extensions, room: nat)
    requires AllX509(entries) && |entries| <= room && BodyLength(entries) < 0x100_0000 && ext([])
    ensures ParseEntries(EntriesBytes(entries), ext, room) == Ok(entries)
    decreases |entries|
  {
    hide ParseEntry, EntryBytes;
    if entries != [] {
      EntrySize(entries[0]);
      EntryRoundTrip(entries[0], EntriesBytes(entries[1..]), ext);
      EntriesRoundTrip(entries[1..], ext, room - 1);
      assert entries == [entries[0]] + entries[1..];
    }
  }

  /** A parsed entry takes at least its encoded length, and exactly it when it is its encoding. */
  lemma EntryAtLeast(w: seq<byte>, ext: Extensions)
    requires ParseEntry(w, ext).Ok?
    ensures var p := ParseEntry(w, ext).value;
            var n := 5 + |p.entry.cert| + |p.rest|;
            n <= |w| && (n == |w| <==> w == EntryBytes(p.entry) + p.rest)
  {
    var p := ParseEntry(w, ext).value;
    var n := |p.entry.cert|;
    U24Unique(w[..3]);
    if 5 + n + |p.rest| == |w| {
      assert w == w[..3] + w[3..3 + n] + w[3 + n..5 + n] + p.rest;
    }
  }

  lemma {:induction false} EntriesAtLeast(w: seq<byte>, ext: Extensions, room: nat)
    requires ParseEntries(w, ext, room).Ok?
    ensures var entries := ParseEntries(w, ext, room).value;
            BodyLength(entries) <= |w| && (BodyLength(entries) == |w| <==> w == EntriesBytes(entries))
    decreases |w|
  {
    hide ParseEntry, EntryBytes;
    if w != [] {
      var first := ParseEntry(w, ext).value;
      EntryAtLeast(w, ext);
      EntrySize(first.entry);
      EntriesAtLeast(first.rest, ext, room - 1);
      var entries := ParseEntries(w, ext, room).value;
      assert entries[0] == first.entry && entries[1..] == ParseEntries(first.rest, ext, room - 1).value;
      if w == EntriesBytes(entries) {
        assert |w| == BodyLength(entries);
      }
    }
  }

  predicate Fits(context: seq<byte>, entries: seq<Entry>)
    requires AllX509(entries)
  {
    |context| < 256 && |entries| <= MAX_ENTRIES && BodyLength(entries) < 0x100_0000
  }

  lemma FourParts(a: byte, b: seq<byte>, c: seq<byte>, d: seq<byte>, rest: seq<byte>)
    ensures var w := [a] + b + c + d + rest;
            var at := 1 + |b|;
            w[0] == a && w[1..at] == b && w[at..at + |c|] == c
            && w[at + |c|..at + |c| + |d|] == d && w[at + |c| + |d|..] == rest
  {}

  lemma CertificateParts(context: seq<byte>, entries: seq<Entry>, rest: seq<byte>)
    requires AllX509(entries) && |context| < 256 && BodyLength(entries) < 0x100_0000
    ensures var w := CertificateBytes(context, entries) + rest;
            var at := 1 + |context|;
            w[0] == |context| && w[1..at] == context && U24Val(w[at..at + 3]) == BodyLength(entries)
            && w[at + 3..at + 3 + BodyLength(entries)] == EntriesBytes(entries)
               && w[at + 3 + BodyLength(entries)..] == rest
  {
    hide EntriesBytes, BodyLength;
    FourParts(|context|, context, U24Bytes(BodyLength(entries)), EntriesBytes(entries), rest);
    U24RoundTrip(BodyLength(entries));
  }

  /**
   Parsing an encoded message gives the context and entries back, and stops at
   its end, exactly when they fit their length fields and there are at most 16.
   */
  lemma CertificateRoundTrip(context: seq<byte>, entries: seq<Entry>, rest: seq<byte>, ext: Extensions)
    requires AllX509(entries) && ext([])
    ensures ParseCertificate(CertificateBytes(context, entries) + rest, ext)
            == Ok(ParsedCertificate(CertificateRef(EntriesBytes(entries), context, entries), rest))
            <==> Fits(context, entries)
  {
    hide EntriesBytes, BodyLength, ParseEntries;
    var w := CertificateBytes(context, entries) + rest;
    if Fits(context, entries) {
      CertificateParts(context, entries, rest);
      EntriesRoundTrip(entries, ext, MAX_ENTRIES);
    }
    var p := ParseCertificate(w, ext);
    if p == Ok(ParsedCertificate(CertificateRef(EntriesBytes(entries), context, entries), rest)) {
      var at := 1 + w[0] as int;
      assert |w[1..at]| == |context| && |context| < 256;
      U24Unique(w[at..at + 3]);
      assert U24Val(w[at..at + 3]) == |EntriesBytes(entries)|;
    }
  }

  /** What was parsed encodes to the bytes it came from exactly when no entry carried extensions. */
  lemma ParsedEncodes(w: seq<byte>, ext: Extensions)
    requires ParseCertificate(w, ext).Ok?
    ensures var p := ParseCertificate(w, ext).value;
            w == CertificateBytes(p.certificate.requestContext, p.certificate.entries) + p.rest
            <==> |p.certificate.rawEntries| == BodyLength(p.certificate.entries)
  {
    hide EntriesBytes, BodyLength, ParseEntries, U24Val, U24Bytes;
    var p := ParseCertificate(w, ext).value;
    var c := p.certificate;
    EntriesAtLeast(c.rawEntries, ext, MAX_ENTRIES);
    var at := 1 + w[0] as int;
    var end := at + 3 + |c.rawEntries|;
    U24Unique(w[at..at + 3]);
    assert w == [w[0]] + w[1..at] + w[at..at + 3] + w[at + 3..end] + w[end..];
    if w == CertificateBytes(c.requestContext, c.entries) + p.rest {
      assert |w| == 4 + |c.requestContext| + BodyLength(c.entries) + |p.rest|;
    }
  }
}
