/**
 The chunked transfer coding of section 7.1 of RFC 9112, without extensions and
 trailers: chunk sizes in hexadecimal, chunk encoding, and the decoder that the
 body reader is measured against.
 */
module ChunkedCoding {
  import opened Bytes
  import opened Hexadecimal
  import opened Wrappers

  const CR: byte := 13
  const LF: byte := 10
  const NEWLINE: seq<byte> := [13, 10]
  const EMPTY_CHUNK: seq<byte> := [48, 13, 10, 13, 10]

  // ---------- hexadecimal sizes ----------

  function ToHex(n: nat): (s: seq<byte>)
    ensures |s| >= 1
  {
    if n < 16 then [HexDigit(n)] else ToHex(n / 16) + [HexDigit(n % 16)]
  }

  function FromHex(s: seq<byte>): Option<nat> {
    if s == [] then Some(0)
    else
      var high, low := FromHex(s[..|s| - 1]), DigitValue(s[|s| - 1]);
      if high.Some? && low.Some? then Some(16 * high.value + low.value) else None
  }

  lemma {:induction false} HexRoundTrip(n: nat)
    ensures FromHex(ToHex(n)) == Some(n)
  {
    if n >= 16 {
      HexRoundTrip(n / 16);
      assert ToHex(n)[..|ToHex(n)| - 1] == ToHex(n / 16);
    } else {
      assert FromHex(ToHex(n)[..0]) == Some(0);
    }
  }

  lemma {:induction false} HexHasNoLf(n: nat)
    ensures forall i :: 0 <= i < |ToHex(n)| ==> ToHex(n)[i] != LF && DigitValue(ToHex(n)[i]).Some?
  {
    if n >= 16 {
      HexHasNoLf(n / 16);
    }
  }

  /** Eight digits suffice exactly below 2^32. */
  lemma {:induction false} HexLength(n: nat, k: nat, bound: nat)
    requires k >= 1 && bound == HexBound(k)
    ensures |ToHex(n)| <= k <==> n < bound
  {
    if n >= 16 && k > 1 {
      HexLength(n / 16, k - 1, HexBound(k - 1));
    } else if n < 16 && k > 1 {
      HexLength(n, k - 1, HexBound(k - 1));
    }
  }

  function HexBound(k: nat): (b: nat)
    ensures b >= 1
  {
    if k == 0 then 1 else 16 * HexBound(k - 1)
  }

  lemma EightDigits()
    ensures HexBound(8) == 0x1_0000_0000
  {
    assert HexBound(4) == 16 * (16 * (16 * (16 * HexBound(0))));
    assert HexBound(8) == 16 * (16 * (16 * (16 * HexBound(4))));
  }

  lemma {:induction false} HexMonotone(m: nat, n: nat)
    requires m <= n
    ensures |ToHex(m)| <= |ToHex(n)|
  {
    if m >= 16 {
      HexMonotone(m / 16, n / 16);
    }
  }

  lemma {:induction false} HexShorterThanNumber(n: nat)
    requires n >= 2
    ensures |ToHex(n)| < n
  {
    if n >= 32 {
      HexShorterThanNumber(n / 16);
    } else if n >= 16 {
      assert ToHex(n / 16) == [HexDigit(1)];
    }
  }

  // ---------- encoding ----------

  function Concat(cs: seq<seq<byte>>): seq<byte> {
    if cs == [] then [] else Concat(cs[..|cs| - 1]) + cs[|cs| - 1]
  }

  function EncodeChunk(data: seq<byte>): seq<byte> {
    ToHex(|data|) + NEWLINE + data + NEWLINE
  }

  function EncodeChunks(cs: seq<seq<byte>>): seq<byte> {
    if cs == [] then [] else EncodeChunks(cs[..|cs| - 1]) + EncodeChunk(cs[|cs| - 1])
  }

  lemma PushChunk(cs: seq<seq<byte>>, c: seq<byte>)
    ensures Concat(cs + [c]) == Concat(cs) + c
    ensures EncodeChunks(cs + [c]) == EncodeChunks(cs) + EncodeChunk(c)
  {
    assert (cs + [c])[..|cs|] == cs;
  }

  lemma {:induction false} SplitFirstChunk(cs: seq<seq<byte>>)
    requires cs != []
    ensures EncodeChunks(cs) == EncodeChunk(cs[0]) + EncodeChunks(cs[1..])
    ensures Concat(cs) == cs[0] + Concat(cs[1..])
  {
    var n := |cs| - 1;
    if n > 0 {
      var mid := cs[1..n];
      assert cs[..n][1..] == mid && cs[1..] == mid + [cs[n]];
      SplitFirstChunk(cs[..n]);
      PushChunk(mid, cs[n]);
      SeqRegroup(EncodeChunk(cs[0]), EncodeChunks(mid), EncodeChunk(cs[n]));
      SeqRegroup(cs[0], Concat(mid), cs[n]);
    } else {
      assert cs[..0] == [] && cs[1..] == [];
    }
  }

  /** A chunk byte by byte: 26 bytes behind the size line "1a". */
  lemma TwentySixBytes(data: seq<byte>)
    requires |data| == 26
    ensures EncodeChunk(data) == [49, 97, 13, 10] + data + [13, 10]
  {
    HexDigits(1);
    HexDigits(10);
    assert ToHex(26) == ToHex(1) + [97] == [49, 97];
  }

  // ---------- decoding ----------

  /** What the reader makes of the next size line. */
  datatype SizeLine = Size(len: nat, used: nat) | Malformed | Truncated

  /** Position of the first line feed at or after `i`, or the end. */
  function LineEnd(w: seq<byte>, i: nat): (j: nat)
    requires i <= |w|
    ensures i <= j <= |w| && (j < |w| ==> w[j] == LF)
    ensures forall k :: i <= k < j ==> w[k] != LF
    decreases |w| - i
  {
    if i == |w| || w[i] == LF then i else LineEnd(w, i + 1)
  }

  /** At most eight hexadecimal digits and CR LF; ten bytes without a line feed are too many. */
  function ReadSize(w: seq<byte>): (line: SizeLine)
    ensures line.Size? ==> 2 <= line.used <= |w| && line.len < 0x1_0000_0000
  {
    var j := LineEnd(w, 0);
    if j >= 10 then Malformed
    else if j == |w| then Truncated
    else if j == 0 || w[j - 1] != CR then Malformed
    else
      var value := FromHex(w[..j - 1]);
      if value.None? then Malformed
      else FromHexBound(w[..j - 1]); Size(value.value, j + 1)
  }

  lemma {:induction false} FromHexBound(s: seq<byte>)
    requires |s| <= 8
    ensures FromHex(s).Some? ==> FromHex(s).value < HexBound(|s|)
    ensures HexBound(|s|) <= 0x1_0000_0000
  {
    EightDigits();
    HexBoundMonotone(|s|, 8);
    FromHexBelow(s);
  }

  lemma {:induction false} FromHexBelow(s: seq<byte>)
    ensures FromHex(s).Some? ==> FromHex(s).value < HexBound(|s|)
  {
    if s != [] {
      FromHexBelow(s[..|s| - 1]);
    }
  }

  lemma {:induction false} HexBoundMonotone(k: nat, m: nat)
    requires k <= m
    ensures HexBound(k) <= HexBound(m)
  {
    if k < m {
      HexBoundMonotone(k, m - 1);
    }
  }

  datatype ChunkState = NoChunk | NotEmpty(remaining: u32) | Empty

  /** The body still to come and what follows it, if the bytes ahead are well formed. */
  datatype Ahead = Ahead(body: seq<byte>, rest: seq<byte>)

  predicate NewlineAt(w: seq<byte>, i: nat) {
    i + 2 <= |w| && w[i..i + 2] == NEWLINE
  }

  function Decode(w: seq<byte>): Option<Ahead>
    decreases |w|, 1
  {
    match ReadSize(w)
    case Size(len, used) =>
      if len > 0 then DecodeInChunk(len, w[used..])
      else if NewlineAt(w, used) then Some(Ahead([], w[used + 2..]))
      else None
    case _ => None
  }

  /** Inside a chunk with `remaining` bytes left. */
  function DecodeInChunk(remaining: nat, w: seq<byte>): Option<Ahead>
    decreases |w|, 0
  {
    if !NewlineAt(w, remaining) then None
    else
      var next := Decode(w[remaining + 2..]);
      if next.None? then None else Some(Ahead(w[..remaining] + next.value.body, next.value.rest))
  }

  function Pending(state: ChunkState, w: seq<byte>): Option<Ahead> {
    match state
    case NoChunk => Decode(w)
    case NotEmpty(remaining) => DecodeInChunk(remaining, w)
    case Empty => Some(Ahead([], w))
  }

  /** A printed size line reads back as the same size, exactly below 2^32. */
  lemma ReadPrintedSize(n: nat, rest: seq<byte>)
    ensures ReadSize(ToHex(n) + NEWLINE + rest)
            == if n < 0x1_0000_0000 then Size(n, |ToHex(n)| + 2) else Malformed
  {
    var w := ToHex(n) + NEWLINE + rest;
    var k := |ToHex(n)|;
    HexHasNoLf(n);
    HexRoundTrip(n);
    EightDigits();
    HexLength(n, 8, HexBound(8));
    assert w[k + 1] == LF && w[k] == CR;
    assert forall i :: 0 <= i < k ==> w[i] == ToHex(n)[i];
    var j := LineEnd(w, 0);
    assert j == k + 1;
    assert w[..j - 1] == ToHex(n);
  }

  lemma DecodeOneChunk(data: seq<byte>, rest: seq<byte>)
    requires 0 < |data|
    ensures Decode(EncodeChunk(data) + rest)
            == if |data| < 0x1_0000_0000 && Decode(rest).Some?
               then Some(Ahead(data + Decode(rest).value.body, Decode(rest).value.rest)) else None
  {
    var line := ToHex(|data|) + NEWLINE;
    var w := EncodeChunk(data) + rest;
    assert w == line + (data + NEWLINE + rest);
    ReadPrintedSize(|data|, data + NEWLINE + rest);
    var w' := data + NEWLINE + rest;
    assert w[|line|..] == w';
    assert w'[..|data|] == data && w'[|data|..|data| + 2] == NEWLINE && w'[|data| + 2..] == rest;
  }

  lemma DecodeLastChunk(rest: seq<byte>)
    ensures Decode(EMPTY_CHUNK + rest) == Some(Ahead([], rest))
  {
    var w := EMPTY_CHUNK + rest;
    assert ToHex(0) == [48];
    assert w == ToHex(0) + NEWLINE + (NEWLINE + rest);
    ReadPrintedSize(0, NEWLINE + rest);
    assert w[3..5] == NEWLINE && w[5..] == rest;
  }

  /** No chunk before the last is empty. */
  predicate NonEmptyChunks(cs: seq<seq<byte>>) {
    forall i :: 0 <= i < |cs| ==> cs[i] != []
  }

  predicate ReadableChunks(cs: seq<seq<byte>>) {
    forall i :: 0 <= i < |cs| ==> |cs[i]| < 0x1_0000_0000
  }

  lemma ReadableTail(cs: seq<seq<byte>>)
    requires cs != []
    ensures ReadableChunks(cs) <==> |cs[0]| < 0x1_0000_0000 && ReadableChunks(cs[1..])
  {
    if |cs[0]| < 0x1_0000_0000 && ReadableChunks(cs[1..]) {
      forall i | 0 <= i < |cs|
        ensures |cs[i]| < 0x1_0000_0000
      {
        assert i > 0 ==> cs[i] == cs[1..][i - 1];
      }
    }
  }

  /**
   A sequence of non-empty chunks followed by the empty chunk decodes to the
   concatenation of the chunks, exactly when every chunk is below 2^32 bytes.
   */
  lemma {:induction false} DecodeEncoded(cs: seq<seq<byte>>, rest: seq<byte>)
    requires NonEmptyChunks(cs)
    ensures Decode(EncodeChunks(cs) + EMPTY_CHUNK + rest)
            == if ReadableChunks(cs) then Some(Ahead(Concat(cs), rest)) else None
  {
    if cs == [] {
      DecodeLastChunk(rest);
      assert EncodeChunks(cs) + EMPTY_CHUNK + rest == EMPTY_CHUNK + rest;
    } else {
      DecodeEncoded(cs[1..], rest);
      SplitFirstChunk(cs);
      ReadableTail(cs);
      var tail := EncodeChunks(cs[1..]) + EMPTY_CHUNK + rest;
      assert EncodeChunks(cs) + EMPTY_CHUNK + rest == EncodeChunk(cs[0]) + tail;
      DecodeOneChunk(cs[0], tail);
    }
  }
}
