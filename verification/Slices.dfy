/** The two slice moves the buffers are built on. */
module Slices {

  /** Overwrites `dst` from position `at` with `src`. */
  method CopyFromSlice<T>(dst: array<T>, at: nat, src: seq<T>)
    requires at + |src| <= dst.Length
    modifies dst
    ensures dst[..] == old(dst[..at]) + src + old(dst[at + |src|..])
  {
    forall i | 0 <= i < |src| {
      dst[at + i] := src[i];
    }
  }

  /** Moves `buf[from..to]` so that it starts at `dest`; the ranges may overlap. */
  method CopyWithin<T>(buf: array<T>, from: nat, to: nat, dest: nat)
    requires from <= to <= buf.Length && dest + (to - from) <= buf.Length
    modifies buf
    ensures buf[..] == old(buf[..dest]) + old(buf[from..to]) + old(buf[dest + (to - from)..])
  {
    forall i | 0 <= i < to - from {
      buf[dest + i] := buf[from + i];
    }
  }
}
