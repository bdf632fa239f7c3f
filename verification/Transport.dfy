/** A byte stream that hands out its bytes in fragments of its own choosing. */
module Transport {
  import opened Bytes
  import opened Wrappers

  class Source {
    var data: seq<byte>   // not yet delivered
    const ownBuffer: bool // whether the stream lends its own buffer
    var held: nat         // how much of the data is in there

    constructor (data: seq<byte>)
      ensures this.data == data && !ownBuffer
    {
      this.data := data;
      ownBuffer := false;
      held := 0;
    }

    constructor WithOwnBuffer(data: seq<byte>)
      ensures this.data == data && ownBuffer
    {
      this.data := data;
      ownBuffer := true;
      held := 0;
    }

    /** How many bytes `TryConsume` can drop. */
    function Held(): nat
      reads this
    {
      Min(held, |data|)
    }

    /** Shows the stream's own buffer, filling it first if it is empty. */
    method TryFillBuf() returns (got: Option<seq<byte>>)
      modifies this`held
      ensures got.Some? <==> ownBuffer
      ensures got.Some? ==> got.value == data[..Held()] && (data != [] ==> got.value != [])
    {
      if !ownBuffer {
        return None;
      }
      if Held() == 0 {
        var fragment := FillBuf();
        held := |fragment|;
      }
      return Some(data[..Held()]);
    }

    /** Drops bytes of the stream's own buffer, as many as it holds at most. */
    method TryConsume(amount: nat)
      modifies this
      ensures data == if ownBuffer then old(data)[Min(amount, old(Held()))..] else old(data)
    {
      if ownBuffer {
        var n := Min(amount, Held());
        Consume(n);
        held := if held > n then held - n else 0;
      }
    }

    /** Delivers between one and `max` bytes while any are left, and none at the end. */
    method Read(max: nat) returns (got: seq<byte>)
      modifies this
      ensures got + data == old(data)
      ensures |got| <= max
      ensures max > 0 && old(data) != [] ==> got != []
    {
      var least := if max > 0 && |data| > 0 then 1 else 0;
      var most := Min(max, if Held() > 0 then Held() else |data|);
      var k: nat :| least <= k <= most;
      got := data[..k];
      data := data[k..];
      held := if held > k then held - k else 0;
    }

    /** Shows a fragment of what comes next without taking it; empty only at the end. */
    method FillBuf() returns (got: seq<byte>)
      ensures got <= data && (data != [] ==> got != [])
    {
      var least := if |data| > 0 then 1 else 0;
      var k: nat :| least <= k <= |data|;
      return data[..k];
    }

    method Consume(amount: nat)
      requires amount <= |data|
      modifies this`data
      ensures data == old(data)[amount..]
    {
      data := data[amount..];
    }
  }
}
