/**
 The bounded dedupe cache, against the history of accepted records: a record is
 a duplicate when one with the same reading was accepted recently enough and few
 enough acceptances ago.
 */
module DedupeCaching {
  import opened Bytes

  type u64 = x: int | 0 <= x <= 0xffff_ffff_ffff_ffff

  datatype TelemetryRecord =
    TelemetryRecord(sensorId: nat, channel: nat, temperatureDeciC: int, batteryOk: bool, timestamp: nat)
  datatype DedupeKey = DedupeKey(sensorId: nat, channel: nat, temperatureDeciC: int, batteryOk: bool)
  datatype CacheEntry = CacheEntry(key: DedupeKey, expiresAt: u64)
  datatype DedupeOutcome = New | Duplicate

  /** The timestamp is no part of a record's identity. */
  function KeyOf(record: TelemetryRecord): DedupeKey {
    DedupeKey(record.sensorId, record.channel, record.temperatureDeciC, record.batteryOk)
  }

  function SaturatingAdd(a: u64, b: u64): u64 {
    if a + b > U64_MAX then U64_MAX else a + b
  }

  // ---------- the history a cache answers for ----------

  datatype Acceptance = Acceptance(record: TelemetryRecord, at: u64)

  /** The same sensor on the same channel reports the same, at whatever time. */
  predicate SameReading(a: TelemetryRecord, b: TelemetryRecord) {
    && a.sensorId == b.sensorId && a.channel == b.channel
    && a.temperatureDeciC == b.temperatureDeciC && a.batteryOk == b.batteryOk
  }

  lemma SameKeyIff(a: TelemetryRecord, b: TelemetryRecord)
    ensures KeyOf(a) == KeyOf(b) <==> SameReading(a, b)
  {}

  /**
   Accepted with fewer than `capacity` acceptances since and less than `ttl` ago;
   nothing is remembered at the last instant the clock can show.
   */
  ghost predicate Remembered(history: seq<Acceptance>, i: nat, ttl: u64, capacity: nat, record: TelemetryRecord,
                             now: u64)
  {
    && i < |history| <= i + capacity && SameReading(history[i].record, record)
    && now - history[i].at < ttl && now < 0xffff_ffff_ffff_ffff
  }

  ghost predicate IsDuplicate(history: seq<Acceptance>, ttl: u64, capacity: nat, record: TelemetryRecord, now: u64) {
    exists i: nat :: Remembered(history, i, ttl, capacity, record, now)
  }

  ghost predicate Chronological(history: seq<Acceptance>, now: u64) {
    (forall i, j :: 0 <= i <= j < |history| ==> history[i].at <= history[j].at) &&
    (forall i :: 0 <= i < |history| ==> history[i].at <= now)
  }

  function LastN(history: seq<Acceptance>, n: nat): seq<Acceptance> {
    if |history| <= n then history else history[|history| - n..]
  }

  function EntryOf(a: Acceptance, ttl: u64): CacheEntry {
    CacheEntry(KeyOf(a.record), SaturatingAdd(a.at, ttl))
  }

  function Entries(history: seq<Acceptance>, ttl: u64): (s: seq<CacheEntry>)
    ensures |s| == |history| && forall i :: 0 <= i < |s| ==> s[i] == EntryOf(history[i], ttl)
  {
    seq(|history|, i requires 0 <= i < |history| => EntryOf(history[i], ttl))
  }

  function IfLive(e: CacheEntry, now: u64): seq<CacheEntry> {
    if now < e.expiresAt then [e] else []
  }

  /** The entries not expired at `now`, in order. */
  function Retain(entries: seq<CacheEntry>, now: u64): (kept: seq<CacheEntry>)
    ensures |kept| <= |entries|
  {
    if entries == [] then [] else IfLive(entries[0], now) + Retain(entries[1..], now)
  }

  /** What the cache should hold: the unexpired among the last `capacity` accepted. */
  function Expected(history: seq<Acceptance>, ttl: u64, capacity: nat, now: u64): seq<CacheEntry> {
    Retain(Entries(LastN(history, capacity), ttl), now)
  }

  // ---------- lemmas about pruning ----------

  lemma {:induction false} RetainMembers(entries: seq<CacheEntry>, now: u64, e: CacheEntry)
    ensures e in Retain(entries, now) <==> e in entries && now < e.expiresAt
  {
    if entries != [] {
      RetainMembers(entries[1..], now, e);
      assert e in entries <==> e == entries[0] || e in entries[1..];
    }
  }

  lemma {:induction false} RetainLater(entries: seq<CacheEntry>, t: u64, now: u64)
    requires t <= now
    ensures Retain(Retain(entries, t), now) == Retain(entries, now)
  {
    if entries != [] {
      RetainLater(entries[1..], t, now);
      var kept := Retain(entries[1..], t);
      if t < entries[0].expiresAt {
        assert ([entries[0]] + kept)[1..] == kept;
      } else {
        assert [] + kept == kept;
      }
    }
  }

  ghost predicate SortedByExpiry(entries: seq<CacheEntry>) {
    forall i, j :: 0 <= i <= j < |entries| ==> entries[i].expiresAt <= entries[j].expiresAt
  }

  /** With expiry times in order, a live front means nothing has expired. */
  lemma {:induction false} LiveFront(entries: seq<CacheEntry>, now: u64)
    requires SortedByExpiry(entries) && entries != [] && now < entries[0].expiresAt
    ensures Retain(entries, now) == entries
  {
    if |entries| > 1 {
      LiveFront(entries[1..], now);
    }
  }

  lemma HistorySorted(history: seq<Acceptance>, ttl: u64, capacity: nat, now: u64)
    requires Chronological(history, now)
    ensures SortedByExpiry(Entries(LastN(history, capacity), ttl))
  {}

  lemma {:induction false} RetainPush(entries: seq<CacheEntry>, e: CacheEntry, now: u64)
    ensures Retain(entries + [e], now) == Retain(entries, now) + IfLive(e, now)
  {
    if entries != [] {
      RetainPush(entries[1..], e, now);
      assert (entries + [e])[1..] == entries[1..] + [e];
    }
  }

  /** Dropping the oldest entry of a full cache, or an expired one of a cache that is not. */
  lemma DropOldest(all: seq<CacheEntry>, now: u64, later: u64)
    requires SortedByExpiry(all) && all != [] && now <= later
    ensures var held := Retain(all, now);
            Retain(if |held| < |all| then held else held[1..], later) == Retain(all[1..], later)
  {
    if now < all[0].expiresAt {
      LiveFront(all, now);
    } else {
      RetainLater(all, now, later);
    }
  }

  /**
   Accepting one more: pruned entries with the oldest dropped if the cache is
   full, and the new one at the end, are what the longer history asks for.
   */
  lemma AcceptOneMore(history: seq<Acceptance>, ttl: u64, capacity: nat, now: u64, a: Acceptance, later: u64)
    requires capacity > 0 && Chronological(history, now) && now <= later
    ensures var held := Expected(history, ttl, capacity, now);
            Retain((if |held| < capacity then held else held[1..]) + [EntryOf(a, ttl)], later)
            == Expected(history + [a], ttl, capacity, later)
  {
    hide Retain;
    var recent := LastN(history, capacity);
    var all := Entries(recent, ttl);
    var held := Expected(history, ttl, capacity, now);
    RetainPush(if |held| < capacity then held else held[1..], EntryOf(a, ttl), later);
    if |history| < capacity {
      assert Entries(LastN(history + [a], capacity), ttl) == all + [EntryOf(a, ttl)];
      RetainPush(all, EntryOf(a, ttl), later);
      RetainLater(all, now, later);
    } else {
      assert Entries(LastN(history + [a], capacity), ttl) == all[1..] + [EntryOf(a, ttl)];
      RetainPush(all[1..], EntryOf(a, ttl), later);
      HistorySorted(history, ttl, capacity, now);
      DropOldest(all, now, later);
    }
  }

  // ---------- the cache ----------

  class DedupeCache {
    const capacity: nat
    const ttlMs: u64
    var entries: seq<CacheEntry>

    ghost var history: seq<Acceptance>
    ghost var clock: u64

    /** Pruned at any time from now on, the cache is what the history asks for. */
    ghost predicate Valid()
      reads this
    {
      && |entries| <= capacity
      && Chronological(history, clock)
      && (forall now: u64 :: now >= clock ==> Retain(entries, now) == Expected(history, ttlMs, capacity, now))
      && DistinctKeys(entries) && SortedByExpiry(entries)
    }

    constructor (capacity: nat, ttlMs: u64)
      ensures Valid() && this.capacity == capacity && this.ttlMs == ttlMs
      ensures history == [] && clock == 0
    {
      this.capacity := capacity;
      this.ttlMs := ttlMs;
      entries := [];
      history := [];
      clock := 0;
      new;
      assert Entries([], ttlMs) == [];
      assert forall now: u64 :: Expected([], ttlMs, capacity, now) == Retain([], now) == [];
    }

    /** Under a clock that does not run backwards the answer is the history's. */
    method Observe(record: TelemetryRecord, nowMs: u64) returns (outcome: DedupeOutcome)
      requires Valid() && clock <= nowMs
      modifies this
      ensures Valid() && clock == nowMs
      ensures outcome == Duplicate <==> IsDuplicate(old(history), ttlMs, capacity, record, nowMs)
      ensures history == if outcome == New then old(history) + [Acceptance(record, nowMs)] else old(history)
    {
      PruneExpired(nowMs);
      var key := KeyOf(record);
      HeldIffRemembered(history, ttlMs, capacity, record, nowMs);
      if exists i :: 0 <= i < |entries| && entries[i].key == key {
        return Duplicate;
      }
      Accept(record, key, nowMs);
      return New;
    }

    /** Appends the entry, making room first if the cache is full. */
    method Accept(ghost record: TelemetryRecord, key: DedupeKey, nowMs: u64)
      requires key == KeyOf(record) && Valid() && clock == nowMs && entries == Expected(history, ttlMs, capacity, nowMs)
      requires forall i :: 0 <= i < |entries| ==> entries[i].key != key
      modifies this`entries, this`history
      ensures Valid() && history == old(history) + [Acceptance(record, nowMs)]
    {
      hide Expected, Retain;
      ghost var a := Acceptance(record, nowMs);
      ghost var held := entries;
      ExpiresNoLater(history, ttlMs, capacity, nowMs);
      NoRoom(history + [a], ttlMs);
      forall later: u64 | later >= nowMs && capacity > 0
        ensures Retain((if |held| < capacity then held else held[1..]) + [EntryOf(a, ttlMs)], later)
                == Expected(history + [a], ttlMs, capacity, later)
      {
        AcceptOneMore(history, ttlMs, capacity, nowMs, a, later);
      }
      var newEntry := CacheEntry(key, SaturatingAdd(nowMs, ttlMs));
      if |entries| < capacity {
        entries := entries + [newEntry];
      } else {
        EvictOldest();
        if |entries| < capacity {
          entries := entries + [newEntry];
        }
      }
      history := history + [a];
    }

    method PruneExpired(nowMs: u64)
      requires Valid() && clock <= nowMs
      modifies this
      ensures Valid() && clock == nowMs && history == old(history)
      ensures entries == Expected(history, ttlMs, capacity, nowMs)
    {
      RetainSubsequence(entries, nowMs);
      forall now: u64 | now >= nowMs
        ensures Retain(Retain(entries, nowMs), now) == Expected(history, ttlMs, capacity, now)
      {
        RetainLater(entries, nowMs, now);
      }
      entries := Retain(entries, nowMs);
      clock := nowMs;
    }

    /** Removes the first entry with the least expiry time, which is the front. */
    method EvictOldest()
      requires SortedByExpiry(entries)
      modifies this`entries
      ensures entries == if old(entries) == [] then [] else old(entries)[1..]
    {
      if |entries| == 0 {
        return;
      }
      var idx := 0;
      for i := 1 to |entries|
        invariant idx == 0
      {
        if entries[i].expiresAt < entries[idx].expiresAt {
          idx := i;
        }
      }
      entries := entries[..idx] + entries[idx + 1..];
    }
  }

  ghost predicate DistinctKeys(entries: seq<CacheEntry>) {
    forall i, j :: 0 <= i < j < |entries| ==> entries[i].key != entries[j].key
  }

  lemma TailInOrder(entries: seq<CacheEntry>)
    requires entries != [] && DistinctKeys(entries) && SortedByExpiry(entries)
    ensures DistinctKeys(entries[1..]) && SortedByExpiry(entries[1..])
    ensures forall e :: e in entries[1..] ==> e.key != entries[0].key && entries[0].expiresAt <= e.expiresAt
  {}

  lemma FrontInOrder(e: CacheEntry, entries: seq<CacheEntry>)
    requires DistinctKeys(entries) && SortedByExpiry(entries)
    requires forall i :: 0 <= i < |entries| ==> entries[i].key != e.key && e.expiresAt <= entries[i].expiresAt
    ensures DistinctKeys([e] + entries) && SortedByExpiry([e] + entries)
  {}

  lemma {:induction false} RetainSubsequence(entries: seq<CacheEntry>, now: u64)
    requires DistinctKeys(entries) && SortedByExpiry(entries)
    ensures DistinctKeys(Retain(entries, now)) && SortedByExpiry(Retain(entries, now))
  {
    if entries != [] {
      var first, kept := entries[0], Retain(entries[1..], now);
      assert Retain(entries, now) == if now < first.expiresAt then [first] + kept else kept;
      hide Retain, DistinctKeys, SortedByExpiry;
      TailInOrder(entries);
      RetainSubsequence(entries[1..], now);
      forall i | 0 <= i < |kept|
        ensures kept[i].key != first.key && first.expiresAt <= kept[i].expiresAt
      {
        RetainMembers(entries[1..], now, kept[i]);
      }
      FrontInOrder(first, kept);
    } else {
      assert Retain(entries, now) == [];
    }
  }

  lemma ExpiresNoLater(history: seq<Acceptance>, ttl: u64, capacity: nat, now: u64)
    requires Chronological(history, now)
    ensures forall i :: 0 <= i < |Expected(history, ttl, capacity, now)| ==>
              Expected(history, ttl, capacity, now)[i].expiresAt <= SaturatingAdd(now, ttl)
  {
    var held := Expected(history, ttl, capacity, now);
    forall i | 0 <= i < |held|
      ensures held[i].expiresAt <= SaturatingAdd(now, ttl)
    {
      RetainMembers(Entries(LastN(history, capacity), ttl), now, held[i]);
    }
  }

  /** A cache without room is asked for nothing. */
  lemma NoRoom(history: seq<Acceptance>, ttl: u64)
    ensures forall now: u64 :: Expected(history, ttl, 0, now) == [] == Retain([], now)
  {
    assert LastN(history, 0) == [] && Entries([], ttl) == [];
  }

  lemma HeldIffRemembered(history: seq<Acceptance>, ttl: u64, capacity: nat, record: TelemetryRecord, now: u64)
    ensures (exists e :: e in Expected(history, ttl, capacity, now) && e.key == KeyOf(record))
            <==> IsDuplicate(history, ttl, capacity, record, now)
  {
    var recent := LastN(history, capacity);
    var skipped := |history| - |recent|;
    if e :| e in Expected(history, ttl, capacity, now) && e.key == KeyOf(record) {
      RetainMembers(Entries(recent, ttl), now, e);
      var i :| 0 <= i < |recent| && Entries(recent, ttl)[i] == e;
      SameKeyIff(recent[i].record, record);
      assert Remembered(history, skipped + i, ttl, capacity, record, now);
    }
    if i: nat :| Remembered(history, i, ttl, capacity, record, now) {
      var e := Entries(recent, ttl)[i - skipped];
      assert recent[i - skipped] == history[i];
      SameKeyIff(history[i].record, record);
      RetainMembers(Entries(recent, ttl), now, e);
      assert e in Expected(history, ttl, capacity, now);
    }
  }

  // ---------- whole runs ----------

  /** What a run should answer, from the history alone. */
  ghost function Answers(history: seq<Acceptance>, ttl: u64, capacity: nat, run: seq<(TelemetryRecord, u64)>)
    : seq<DedupeOutcome>
    decreases |run|
  {
    if run == [] then []
    else
      var record := run[0].0;
      if IsDuplicate(history, ttl, capacity, record, run[0].1)
      then [Duplicate] + Answers(history, ttl, capacity, run[1..])
      else [New] + Answers(history + [Acceptance(record, run[0].1)], ttl, capacity, run[1..])
  }

  lemma Append<T>(s: seq<T>, x: T, t: seq<T>)
    ensures s + ([x] + t) == (s + [x]) + t
  {}

  method Run(capacity: nat, ttlMs: u64, run: seq<(TelemetryRecord, u64)>) returns (outcomes: seq<DedupeOutcome>)
    requires forall i, j :: 0 <= i <= j < |run| ==> run[i].1 <= run[j].1
    ensures outcomes == Answers([], ttlMs, capacity, run)
  {
    var cache := new DedupeCache(capacity, ttlMs);
    outcomes := [];
    assert run[0..] == run;
    for i := 0 to |run|
      invariant cache.Valid() && fresh(cache) && cache.capacity == capacity && cache.ttlMs == ttlMs
      invariant i < |run| ==> cache.clock <= run[i].1
      invariant outcomes + Answers(cache.history, ttlMs, capacity, run[i..]) == Answers([], ttlMs, capacity, run)
    {
      ghost var was := cache.history;
      var outcome := cache.Observe(run[i].0, run[i].1);
      assert run[i..][0] == run[i];
      assert Answers(was, ttlMs, capacity, run[i..])
             == [outcome] + Answers(cache.history, ttlMs, capacity, run[i + 1..]);
      assert run[i..][1..] == run[i + 1..];
      Append(outcomes, outcome, Answers(cache.history, ttlMs, capacity, run[i + 1..]));
      outcomes := outcomes + [outcome];
    }
  }
}
