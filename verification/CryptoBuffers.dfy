/** The cursor over a byte buffer that all TLS encoding goes through. */
module CryptoBuffers {
  import opened Bytes
  import opened Slices
  import opened TlsRecords
  import opened Wrappers

  /** Writing `val` at `at` appends it to what lay between `offset` and `at`. */
  lemma Overlay(was: seq<byte>, now: seq<byte>, offset: nat, at: nat, val: seq<byte>)
    requires offset <= at && at + |val| <= |was|
    requires now == was[..at] + val + was[at + |val|..]
    ensures now[..offset] == was[..offset] && now[offset..at + |val|] == was[offset..at] + val
  {}

  class CryptoBuffer {
    const buf: array<byte>
    var offset: nat
    var len: nat

    ghost predicate Valid()
      reads this
    {
      offset + len <= buf.Length
    }

    /** The bytes of the view. */
    ghost function Contents(): (s: seq<byte>)
      requires Valid()
      reads this, buf
      ensures |s| == len
    {
      buf[..][offset..offset + len]
    }

    constructor WrapWithPos(buf: array<byte>, pos: nat)
      requires pos <= buf.Length
      ensures Valid() && this.buf == buf && offset == 0 && len == pos
      ensures Contents() == buf[..][..pos]
    {
      this.buf := buf;
      offset := 0;
      len := pos;
    }

    function Space(): nat
      requires Valid()
      reads this
    {
      buf.Length - (offset + len)
    }

    function AsSlice(): seq<byte>
      requires Valid()
      reads this, buf
    {
      buf[offset..offset + len]
    }

    method Push(b: byte) returns (r: TlsResult<()>)
      requires Valid()
      modifies this`len, buf
      ensures Valid() && (r.Ok? <==> old(Space()) > 0) && (r.Err? ==> r.error == InsufficientSpace)
      ensures Contents() == old(Contents()) + if r.Ok? then [b] else []
      ensures buf[..][..offset] == old(buf[..][..offset])
    {
      if Space() > 0 {
        ghost var was := buf[..];
        buf[offset + len] := b;
        len := len + 1;
        Overlay(was, buf[..], offset, offset + len - 1, [b]);
        return Ok(());
      }
      return Err(InsufficientSpace);
    }

    method ExtendFromSlice(other: seq<byte>) returns (r: TlsResult<()>)
      requires Valid()
      modifies this`len, buf
      ensures Valid() && (r.Ok? <==> |other| <= old(Space())) && (r.Err? ==> r.error == InsufficientSpace)
      ensures Contents() == old(Contents()) + if r.Ok? then other else []
      ensures buf[..][..offset] == old(buf[..][..offset])
    {
      if Space() < |other| {
        return Err(InsufficientSpace);
      }
      ghost var was := buf[..];
      CopyFromSlice(buf, offset + len, other);
      Overlay(was, buf[..], offset, offset + len, other);
      len := len + |other|;
      return Ok(());
    }

    /** Overwrites a byte already in the view. */
    method Set(idx: nat, val: byte) returns (r: TlsResult<()>)
      requires Valid()
      modifies buf
      ensures r == if idx < len then Ok(()) else Err(InsufficientSpace)
      ensures Contents() == if idx < len then old(Contents())[idx := val] else old(Contents())
      ensures buf[..][..offset] == old(buf[..][..offset])
    {
      if idx < len {
        ghost var was := buf[..];
        buf[offset + idx] := val;
        assert buf[..] == was[offset + idx := val];
        assert buf[..][offset..offset + len] == was[offset..offset + len][idx := val];
        return Ok(());
      }
      return Err(InsufficientSpace);
    }

    method Truncate(n: nat)
      requires Valid()
      modifies this`len
      ensures Valid() && len == (if n <= buf.Length - offset then n else old(len))
    {
      if n <= buf.Length - offset {
        len := n;
      }
    }

    /** The same bytes seen from another start: the end of the view stays. */
    method Offset(newOffset: nat)
      requires Valid() && newOffset <= offset + len
      modifies this`offset, this`len
      ensures Valid() && offset == newOffset && offset + len == old(offset + len)
    {
      len := len + offset - newOffset;
      offset := newOffset;
    }

    method Forward()
      requires Valid()
      modifies this`offset, this`len
      ensures Valid() && offset == old(len) && len == old(offset)
    {
      Offset(len);
    }

    method Rewind()
      requires Valid()
      modifies this`offset, this`len
      ensures Valid() && offset == 0 && len == old(offset + len)
    {
      Offset(0);
    }
  }
}
