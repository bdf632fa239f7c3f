/** The cursor all TLS parsing goes through. */
module ParseBuffers {
  import opened Bytes
  import opened Powers
  import opened TlsRecords
  import opened Wrappers

  function U24Bytes(n: nat): (s: seq<byte>)
    ensures s == BeBytes(n, 3)
  {
    assert BeBytes(n / 256 / 256, 1) == BeBytes(n / 256 / 256 / 256, 0) + [n / 256 / 256 % 256];
    [n / 256 / 256 % 256, n / 256 % 256, n % 256]
  }

  function U16Val(s: seq<byte>): (n: nat)
    requires |s| == 2
    ensures n == BeVal(s)
  {
    assert s[..1][..0] == [] && BeVal(s[..1]) == s[0];
    s[0] as int * 256 + s[1]
  }

  function U24Val(s: seq<byte>): (n: nat)
    requires |s| == 3
    ensures n == BeVal(s)
  {
    assert s[..2][..1] == s[..1] && s[..1][..0] == [] && BeVal(s[..1]) == s[0];
    assert BeVal(s[..2]) == 256 * s[0] as int + s[1];
    s[0] as int * 0x1_0000 + s[1] as int * 256 + s[2]
  }

  lemma U24RoundTrip(n: nat)
    ensures U24Val(U24Bytes(n)) == n % 0x100_0000
  {
    var a := n / 256;
    var b := a / 256;
    RemainderIs(n, 0x100_0000, b / 256, b % 256 * 0x1_0000 + a % 256 * 256 + n % 256);
  }

  lemma U24Unique(s: seq<byte>)
    requires |s| == 3
    ensures U24Val(s) < 0x100_0000 && U24Bytes(U24Val(s)) == s
  {
    var high := s[0] as int * 256 + s[1] as int;
    RemainderIs(U24Val(s), 256, high, s[2] as int);
    RemainderIs(high, 256, s[0] as int, s[1] as int);
  }

  class ParseBuffer {
    const buffer: seq<byte>
    var pos: nat

    ghost predicate Valid()
      reads this
    {
      pos <= |buffer|
    }

    /** What has not been read yet. */
    ghost function Rest(): seq<byte>
      requires Valid()
      reads this
    {
      buffer[pos..]
    }

    constructor (buffer: seq<byte>)
      ensures Valid() && this.buffer == buffer && pos == 0 && Rest() == buffer
    {
      this.buffer := buffer;
      pos := 0;
    }

    method Slice(len: nat) returns (r: TlsResult<ParseBuffer>)
      requires Valid()
      modifies this
      ensures Valid()
      ensures r.Err? ==> r.error == ParseError && |old(Rest())| < len
      ensures r.Ok? ==> len <= |old(Rest())| && fresh(r.value) && r.value.Valid() && r.value.pos == 0
                        && r.value.buffer == old(Rest())[..len] && Rest() == old(Rest())[len..]
    {
      if pos + len <= |buffer| {
        var slice := new ParseBuffer(buffer[pos..pos + len]);
        pos := pos + len;
        return Ok(slice);
      }
      return Err(ParseError);
    }

    method ReadU8() returns (r: TlsResult<byte>)
      requires Valid()
      modifies this
      ensures Valid()
      ensures r == if |old(Rest())| < 1 then Err(ParseError) else Ok(old(Rest())[0])
      ensures r.Ok? ==> Rest() == old(Rest())[1..]
    {
      if pos < |buffer| {
        pos := pos + 1;
        return Ok(buffer[pos - 1]);
      }
      return Err(ParseError);
    }

    method ReadU16() returns (r: TlsResult<nat>)
      requires Valid()
      modifies this
      ensures Valid()
      ensures r == if |old(Rest())| < 2 then Err(ParseError) else Ok(U16Val(old(Rest())[..2]))
      ensures r.Ok? ==> Rest() == old(Rest())[2..]
    {
      if pos + 2 <= |buffer| {
        pos := pos + 2;
        return Ok(U16Val([buffer[pos - 2], buffer[pos - 1]]));
      }
      return Err(ParseError);
    }

    method ReadU24() returns (r: TlsResult<nat>)
      requires Valid()
      modifies this
      ensures Valid()
      ensures r == if |old(Rest())| < 3 then Err(ParseError) else Ok(U24Val(old(Rest())[..3]))
      ensures r.Ok? ==> Rest() == old(Rest())[3..]
    {
      if pos + 3 <= |buffer| {
        pos := pos + 3;
        return Ok(U24Val([buffer[pos - 3], buffer[pos - 2], buffer[pos - 1]]));
      }
      return Err(ParseError);
    }
  }
}
