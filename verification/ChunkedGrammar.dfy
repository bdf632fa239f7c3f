/**
 The grammar of section 7.1 of RFC 9112, without extensions and trailers and
 with size lines of at most eight digits, written down apart from the decoder;
 and how far what the decoder accepts is that grammar.
 */
module ChunkedGrammar {
  import opened Bytes
  import opened ChunkedCoding
  import opened Wrappers

  /** A chunk as it is written: the digits of its size, in either case and with any leading zeros, and its data. */
  datatype ChunkText = ChunkText(digits: seq<byte>, data: seq<byte>)

  predicate IsSize(digits: seq<byte>, n: nat) {
    1 <= |digits| <= 8 && FromHex(digits) == Some(n)
  }

  predicate AreChunks(cs: seq<ChunkText>) {
    forall i :: 0 <= i < |cs| ==> cs[i].data != [] && IsSize(cs[i].digits, |cs[i].data|)
  }

  function Text(cs: seq<ChunkText>): seq<byte> {
    if cs == [] then [] else cs[0].digits + NEWLINE + cs[0].data + NEWLINE + Text(cs[1..])
  }

  function Data(cs: seq<ChunkText>): seq<byte> {
    if cs == [] then [] else cs[0].data + Data(cs[1..])
  }

  /** Chunks, the last size line and an empty line, then `rest`. */
  function Written(cs: seq<ChunkText>, last: seq<byte>, rest: seq<byte>): seq<byte> {
    Text(cs) + (last + NEWLINE + NEWLINE + rest)
  }

  predicate Writes(w: seq<byte>, body: seq<byte>, rest: seq<byte>, cs: seq<ChunkText>, last: seq<byte>) {
    w == Written(cs, last, rest) && body == Data(cs) && AreChunks(cs) && IsSize(last, 0)
  }

  /** `w` is a chunked body that stands for `body`, followed by `rest`. */
  ghost predicate IsChunkedBody(w: seq<byte>, body: seq<byte>, rest: seq<byte>) {
    exists cs, last :: Writes(w, body, rest, cs, last)
  }

  // ---------- reading a size line ----------

  lemma {:induction false} HexIsDigits(s: seq<byte>)
    requires FromHex(s).Some?
    ensures forall i :: 0 <= i < |s| ==> s[i] != LF
  {
    if s != [] {
      HexIsDigits(s[..|s| - 1]);
      assert forall i :: 0 <= i < |s| - 1 ==> s[i] == s[..|s| - 1][i];
    }
  }

  lemma ReadDigits(digits: seq<byte>, rest: seq<byte>)
    requires |digits| <= 8 && FromHex(digits).Some?
    ensures ReadSize(digits + NEWLINE + rest) == Size(FromHex(digits).value, |digits| + 2)
  {
    var w, k := digits + NEWLINE + rest, |digits|;
    HexIsDigits(digits);
    assert w[k] == CR && w[k + 1] == LF;
    assert forall i :: 0 <= i < k ==> w[i] == digits[i];
    assert LineEnd(w, 0) == k + 1;
    assert w[..k] == digits;
  }

  /** What the next size line consists of. */
  function SizeDigits(w: seq<byte>): (digits: seq<byte>)
    requires ReadSize(w).Size?
    ensures |digits| <= 8 && FromHex(digits) == Some(ReadSize(w).len)
    ensures w == digits + NEWLINE + w[ReadSize(w).used..]
  {
    w[..LineEnd(w, 0) - 1]
  }

  // ---------- the decoder's view ----------

  lemma AfterChunk(w: seq<byte>)
    requires Decode(w).Some?
    ensures ReadSize(w).Size?
    ensures var len, tail := ReadSize(w).len, w[ReadSize(w).used..];
            if len == 0 then tail == NEWLINE + tail[2..] && Decode(w).value == Ahead([], tail[2..])
            else
              && len + 2 <= |tail| && tail == tail[..len] + NEWLINE + tail[len + 2..] && Decode(tail[len + 2..]).Some?
              && Decode(w).value.body == tail[..len] + Decode(tail[len + 2..]).value.body
              && Decode(w).value.rest == Decode(tail[len + 2..]).value.rest
  {
    hide ReadSize;
    var len, used := ReadSize(w).len, ReadSize(w).used;
    var tail := w[used..];
    if len == 0 {
      assert tail[..2] == w[used..used + 2] && tail[2..] == w[used + 2..] && tail == tail[..2] + tail[2..];
    } else {
      assert tail == tail[..len] + tail[len..len + 2] + tail[len + 2..];
    }
  }

  lemma BeforeChunk(w: seq<byte>, len: nat, used: nat, after: seq<byte>)
    requires ReadSize(w) == Size(len, used) && len > 0
    requires len + 2 <= |w[used..]| && w[used..][len..len + 2] == NEWLINE && w[used..][len + 2..] == after
             && Decode(after).Some?
    ensures Decode(w) == Some(Ahead(w[used..][..len] + Decode(after).value.body, Decode(after).value.rest))
  {
    hide ReadSize;
  }

  datatype Parts = Parts(cs: seq<ChunkText>, last: seq<byte>)

  /** The chunks and the last size line of what the decoder accepts. */
  function Split(w: seq<byte>): (p: Parts)
    requires Decode(w).Some?
    decreases |w|
  {
    var len, used := ReadSize(w).len, ReadSize(w).used;
    if len == 0 then Parts([], SizeDigits(w))
    else
      AfterChunk(w);
      var tail := Split(w[used..][len + 2..]);
      Parts([ChunkText(SizeDigits(w), w[used..][..len])] + tail.cs, tail.last)
  }

  /** The size line that ends the body. */
  function LastSizeLine(w: seq<byte>): seq<byte>
    requires Decode(w).Some?
  {
    Split(w).last
  }

  lemma AreChunksPush(c: ChunkText, cs: seq<ChunkText>)
    requires AreChunks(cs) && c.data != [] && IsSize(c.digits, |c.data|)
    ensures AreChunks([c] + cs)
  {}

  lemma {:induction false} SplitWrites(w: seq<byte>)
    requires Decode(w).Some?
    ensures var p, a := Split(w), Decode(w).value;
            && w == Written(p.cs, p.last, a.rest) && a.body == Data(p.cs) && AreChunks(p.cs)
            && |p.last| <= 8 && FromHex(p.last) == Some(0)
    decreases |w|
  {
    AfterChunk(w);
    var digits, len, used := SizeDigits(w), ReadSize(w).len, ReadSize(w).used;
    assert len > 0 ==> digits != [];
    hide Decode, ReadSize, SizeDigits, FromHex, Written, Data;
    var tail := w[used..];
    if len == 0 {
      EmptyData();
      Rejoined(digits, tail[2..]);
    } else {
      var data, after := tail[..len], tail[len + 2..];
      SplitWrites(after);
      var p, rest := Split(after), Decode(after).value.rest;
      AreChunksPush(ChunkText(digits, data), p.cs);
      ChunkBefore(ChunkText(digits, data), p.cs, p.last, rest);
    }
  }

  lemma EmptyData()
    ensures Data([]) == [] && AreChunks([])
  {}

  lemma Rejoined(digits: seq<byte>, rest: seq<byte>)
    ensures digits + NEWLINE + (NEWLINE + rest) == Written([], digits, rest)
  {}

  lemma FirstChunk(c: ChunkText, cs: seq<ChunkText>, last: seq<byte>, rest: seq<byte>)
    ensures Written([c] + cs, last, rest) == c.digits + NEWLINE + c.data + NEWLINE + Written(cs, last, rest)
    ensures Data([c] + cs) == c.data + Data(cs)
  {
    assert ([c] + cs)[1..] == cs;
    SeqRegroup(c.digits + NEWLINE + c.data + NEWLINE, Text(cs), last + NEWLINE + NEWLINE + rest);
  }

  lemma ChunkBefore(c: ChunkText, cs: seq<ChunkText>, last: seq<byte>, rest: seq<byte>)
    ensures c.digits + NEWLINE + (c.data + NEWLINE + Written(cs, last, rest)) == Written([c] + cs, last, rest)
    ensures Data([c] + cs) == c.data + Data(cs)
  {
    FirstChunk(c, cs, last, rest);
    hide Written;
    SeqRegroup(c.digits + NEWLINE, c.data + NEWLINE, Written(cs, last, rest));
    SeqRegroup(c.digits + NEWLINE, c.data, NEWLINE);
  }

  lemma {:induction false} WrittenSplits(cs: seq<ChunkText>, last: seq<byte>, rest: seq<byte>)
    requires AreChunks(cs) && |last| <= 8 && FromHex(last) == Some(0)
    ensures Decode(Written(cs, last, rest)) == Some(Ahead(Data(cs), rest))
    ensures Split(Written(cs, last, rest)) == Parts(cs, last)
    decreases |cs|
  {
    hide ReadSize, SizeDigits, FromHex, Written, Data;
    var w := Written(cs, last, rest);
    if cs == [] {
      EmptyData();
      ReadDigits(last, NEWLINE + rest);
      Rejoined(last, rest);
      var used := |last| + 2;
      assert w[used..] == NEWLINE + rest && w[used..used + 2] == NEWLINE && w[used + 2..] == rest;
      SameDigits(w, last, NEWLINE + rest);
    } else {
      var c, tail := cs[0], Written(cs[1..], last, rest);
      assert cs == [c] + cs[1..];
      WrittenSplits(cs[1..], last, rest);
      FirstChunk(c, cs[1..], last, rest);
      var behind, used := c.data + NEWLINE + tail, |c.digits| + 2;
      assert w == c.digits + NEWLINE + behind;
      ReadDigits(c.digits, behind);
      assert w[used..] == behind && behind[..|c.data|] == c.data;
      assert behind[|c.data|..|c.data| + 2] == NEWLINE && behind[|c.data| + 2..] == tail;
      BeforeChunk(w, |c.data|, used, tail);
      hide Decode;
      SameDigits(w, c.digits, behind);
    }
  }

  lemma SameDigits(w: seq<byte>, digits: seq<byte>, behind: seq<byte>)
    requires w == digits + NEWLINE + behind && ReadSize(w).Size? && ReadSize(w).used == |digits| + 2
    ensures SizeDigits(w) == digits
  {
    assert |SizeDigits(w)| == |digits|;
    assert SizeDigits(w) == w[..|digits|] == digits;
  }

  /** Whatever the grammar allows is accepted, with the body it stands for. */
  lemma GrammarIsAccepted(w: seq<byte>, body: seq<byte>, rest: seq<byte>)
    requires IsChunkedBody(w, body, rest)
    ensures Decode(w) == Some(Ahead(body, rest))
  {
    var cs, last :| Writes(w, body, rest, cs, last);
    WrittenSplits(cs, last, rest);
  }

  /** What is accepted is in the grammar exactly when its last size line has a digit. */
  lemma AcceptedIsGrammarIff(w: seq<byte>)
    requires Decode(w).Some?
    ensures IsChunkedBody(w, Decode(w).value.body, Decode(w).value.rest) <==> LastSizeLine(w) != []
  {
    var a, p := Decode(w).value, Split(w);
    SplitWrites(w);
    if IsChunkedBody(w, a.body, a.rest) {
      var cs, last :| Writes(w, a.body, a.rest, cs, last);
      WrittenSplits(cs, last, a.rest);
    }
    if p.last != [] {
      assert Writes(w, a.body, a.rest, p.cs, p.last);
    }
  }

  /** Two empty lines are accepted as an empty body; the grammar wants a zero. */
  lemma EmptySizeLineAccepted(rest: seq<byte>)
    ensures Decode(NEWLINE + NEWLINE + rest) == Some(Ahead([], rest))
    ensures !IsChunkedBody(NEWLINE + NEWLINE + rest, [], rest)
  {
    var w := NEWLINE + NEWLINE + rest;
    assert w == Written([], [], rest);
    WrittenSplits([], [], rest);
    AcceptedIsGrammarIff(w);
  }
}
