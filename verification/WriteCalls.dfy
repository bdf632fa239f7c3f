/** Sequences of calls to a writer and the bytes they hand over. */
module WriteCalls {
  import opened Bytes

  datatype Call = Write(data: seq<byte>) | WriteAll(data: seq<byte>) | Flush

  /** What one call may take: some of a write, at least a byte unless it is empty, and all of a `write_all`. */
  predicate MayTake(call: Call, n: nat) {
    match call
    case Write(data) => n <= |data| && (data != [] ==> n > 0)
    case WriteAll(data) => n == |data|
    case Flush => n == 0
  }

  /** `ns` are the counts the calls may answer. */
  predicate MayAnswer(calls: seq<Call>, ns: seq<nat>) {
    |ns| == |calls| && forall i :: 0 <= i < |calls| ==> MayTake(calls[i], ns[i])
  }

  function DataOf(call: Call): seq<byte> {
    if call.Flush? then [] else call.data
  }

  /** The bytes taken by the calls, in order. */
  function TakenOf(calls: seq<Call>, ns: seq<nat>): seq<byte>
    requires MayAnswer(calls, ns)
  {
    if calls == [] then []
    else
      var last := |calls| - 1;
      assert MayTake(calls[last], ns[last]);
      TakenOf(calls[..last], ns[..last]) + DataOf(calls[last])[..ns[last]]
  }

  function AllData(calls: seq<Call>): seq<byte> {
    if calls == [] then [] else AllData(calls[..|calls| - 1]) + DataOf(calls[|calls| - 1])
  }

  lemma NothingTaken(calls: seq<Call>)
    ensures MayAnswer(calls[..0], []) && TakenOf(calls[..0], []) == []
  {}

  /** The next call adds what it took. */
  lemma TakeNext(calls: seq<Call>, ns: seq<nat>, n: nat)
    requires |ns| < |calls| && MayAnswer(calls[..|ns|], ns) && MayTake(calls[|ns|], n)
    ensures n <= |DataOf(calls[|ns|])| && MayAnswer(calls[..|ns| + 1], ns + [n])
    ensures TakenOf(calls[..|ns| + 1], ns + [n]) == TakenOf(calls[..|ns|], ns) + DataOf(calls[|ns|])[..n]
  {
    var i := |ns|;
    var more, counts := calls[..i + 1], ns + [n];
    assert forall j :: 0 <= j < i ==> more[j] == calls[..i][j] && counts[j] == ns[j];
    assert more[..i] == calls[..i] && counts[..i] == ns;
  }

  /** When nothing is left to partial writes, everything is taken. */
  lemma {:induction false} NothingPartial(calls: seq<Call>, ns: seq<nat>)
    requires MayAnswer(calls, ns) && forall i :: 0 <= i < |calls| ==> !calls[i].Write?
    ensures TakenOf(calls, ns) == AllData(calls)
  {
    if calls != [] {
      var last := |calls| - 1;
      NothingPartial(calls[..last], ns[..last]);
      assert DataOf(calls[last])[..ns[last]] == DataOf(calls[last]);
    }
  }

  /** An upper bound on the records the calls close. */
  function Cost(calls: seq<Call>): nat {
    if calls == [] then 0
    else
      var last := calls[|calls| - 1];
      Cost(calls[..|calls| - 1]) + if last.WriteAll? then |last.data| else 1
  }

  lemma NoCost(calls: seq<Call>)
    ensures Cost(calls[..0]) == 0
  {}

  lemma CostNext(calls: seq<Call>, i: nat)
    requires i < |calls|
    ensures Cost(calls[..i + 1]) == Cost(calls[..i]) + if calls[i].WriteAll? then |calls[i].data| else 1
  {
    assert calls[..i + 1][..i] == calls[..i];
  }

  lemma {:induction false} CostGrows(calls: seq<Call>, i: nat)
    requires i <= |calls|
    ensures Cost(calls[..i]) <= Cost(calls)
    decreases |calls|
  {
    if i == |calls| {
      assert calls[..i] == calls;
    } else {
      var init := calls[..|calls| - 1];
      CostGrows(init, i);
      assert init[..i] == calls[..i];
    }
  }

  /** Nothing is written before the first flush. */
  predicate QuietStart(calls: seq<Call>) {
    calls == [] || calls[0].Flush? || (calls[0].data == [] && QuietStart(calls[1..]))
  }

  lemma QuietNext(calls: seq<Call>, i: nat)
    requires i < |calls| && QuietStart(calls[i..])
    ensures calls[i].Flush? || (calls[i].data == [] && QuietStart(calls[i + 1..]))
  {
    assert calls[i..][1..] == calls[i + 1..];
  }
}
