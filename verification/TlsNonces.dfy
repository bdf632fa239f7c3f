/**
 Which records share a nonce. A record counts once the transport has taken all
 of it; a record whose transmission failed leaves the counter where it was.
 */
module TlsNonces {
  import opened Bytes
  import opened TlsRecords
  import opened TlsWriting
  import opened Wrappers

  /** How many transmissions succeeded. */
  function Delivered(outcomes: seq<bool>): (n: nat)
    ensures n <= |outcomes|
  {
    if outcomes == [] then 0 else Delivered(outcomes[..|outcomes| - 1]) + if outcomes[|outcomes| - 1] then 1 else 0
  }

  lemma {:induction false} DeliveredBetween(outcomes: seq<bool>, i: nat, j: nat)
    requires i <= j <= |outcomes|
    ensures Delivered(outcomes[..i]) <= Delivered(outcomes[..j])
    ensures Delivered(outcomes[..i]) == Delivered(outcomes[..j]) <==> forall k :: i <= k < j ==> !outcomes[k]
  {
    if i < j {
      DeliveredBetween(outcomes, i, j - 1);
      assert outcomes[..j][..j - 1] == outcomes[..j - 1];
    }
  }

  /** The sending side of a connection over a transport that may fail. */
  class RecordSender {
    const tx: WriteBuffer
    var keys: Keys
    var sent: seq<byte>

    ghost const initial: Keys
    ghost var outcomes: seq<bool>     // for every record handed to the transport, whether it took all of it

    ghost predicate Valid()
      reads this, tx, tx.buffer
    {
      Lawful(keys.aead) && tx.Valid() && tx.currentHeader.None? && keys == Advance(initial, Delivered(outcomes))
    }

    constructor (buffer: array<byte>, keys: Keys)
      requires Lawful(keys.aead)
      ensures Valid() && initial == keys && outcomes == [] && sent == [] && fresh(tx) && tx.buffer == buffer
    {
      tx := new WriteBuffer(buffer);
      this.keys := keys;
      sent := [];
      initial := keys;
      outcomes := [];
    }

    /**
     Writes a whole record to the transport, which fails after `failsAfter` bytes
     if it fails; the counter advances only after a complete transmission.
     */
    method Send(header: ClientRecordHeader, payload: seq<byte>, failsAfter: Option<nat>) returns (r: TlsResult<()>)
      requires Valid() && HEADER_SIZE + |payload| + 1 + TAG_SIZE <= tx.buffer.Length
      modifies this`keys, this`sent, this`outcomes, tx, tx.buffer
      ensures Valid() && outcomes == old(outcomes) + [r.Ok?]
      ensures var record := RecordBytes(Advance(initial, Delivered(old(outcomes))), header, payload);
              r.Ok? == (failsAfter.None? || failsAfter.value >= |record|)
              && sent == old(sent) + if r.Ok? then record else record[..failsAfter.value]
    {
      hide RecordBytes, Lawful;
      var slice := tx.WriteRecord(header, payload, keys);
      assert (outcomes + [true])[..|outcomes|] == (outcomes + [false])[..|outcomes|] == outcomes;
      if failsAfter.Some? && failsAfter.value < |slice.value| {
        sent := sent + slice.value[..failsAfter.value];
        outcomes := outcomes + [false];
        return Err(IoError);
      }
      sent := sent + slice.value;
      keys := keys.(counter := keys.counter + 1);
      outcomes := outcomes + [true];
      return Ok(());
    }
  }

  /**
   Two records of one sender are sealed under the same nonce exactly if none from
   the first up to the second got through.
   */
  lemma NonceSharedIff(initial: Keys, outcomes: seq<bool>, i: nat, j: nat)
    requires i < j <= |outcomes| && initial.counter + |outcomes| <= U64_MAX
    ensures Nonce(initial.iv, Advance(initial, Delivered(outcomes[..i])).counter)
            == Nonce(initial.iv, Advance(initial, Delivered(outcomes[..j])).counter)
            <==> forall k :: i <= k < j ==> !outcomes[k]
  {
    hide Nonce, Delivered;
    var a, b := Delivered(outcomes[..i]), Delivered(outcomes[..j]);
    DeliveredBetween(outcomes, i, j);
    if Nonce(initial.iv, initial.counter + a) == Nonce(initial.iv, initial.counter + b) {
      NonceInjective(initial.iv, initial.counter + a, initial.counter + b);
    }
  }
}
