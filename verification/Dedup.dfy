/** Duplicate suppression with a ring of recent hashes and a wrapping millisecond clock. */
module Dedup {
  import opened Bytes

  const SIZE: int := 64
  const BRIDGE_TTL_MS: int := 60000
  const RELAY_TTL_MS: int := 30000

  datatype Entry = Entry(hash: uint32, time: uint32)

  /** What the clock reads d milliseconds after it read time. */
  function Later(time: uint32, d: nat): uint32 {
    var t: int := time + d;
    t % TWO32
  }

  /** e has this hash and was recorded less than ttl milliseconds, and less than one turn of the clock, before now. */
  ghost predicate Repeats(e: Entry, hash: uint32, now: uint32, ttl: int) {
    e.hash == hash && exists d: nat :: d < ttl && d < TWO32 && now == Later(e.time, d)
  }

  /** Unsigned difference of two clock readings, as the code computes it. */
  function Age(now: uint32, time: uint32): uint32 {
    var d: int := now - time as int;
    d % TWO32
  }

  predicate Hit(e: Entry, hash: uint32, now: uint32, ttl: int) {
    e.hash == hash && Age(now, e.time) < ttl
  }

  /** The difference is the time elapsed, wherever the clock stands and whether or not it wrapped around. */
  lemma AgeIsElapsed(time: uint32, d: nat)
    requires d < TWO32
    ensures Age(Later(time, d), time) == d
  {
  }

  lemma LaterByAge(time: uint32, now: uint32)
    ensures Later(time, Age(now, time)) == now
  {
  }

  /** The code's test is the specification's. */
  lemma HitIff(e: Entry, hash: uint32, now: uint32, ttl: int)
    ensures Hit(e, hash, now, ttl) <==> Repeats(e, hash, now, ttl)
  {
    LaterByAge(e.time, now);
    if Repeats(e, hash, now, ttl) {
      var d: nat :| d < ttl && d < TWO32 && now == Later(e.time, d);
      AgeIsElapsed(e.time, d);
    }
  }

  /** Every entry ever recorded, behind the 64 zero entries the ring starts with. */
  function EmptyLog(): (log: seq<Entry>)
    ensures |log| == SIZE
  {
    seq(SIZE, _ => Entry(0, 0))
  }

  /** One of the last 64 entries is a fresh one with this hash. */
  ghost predicate Duplicate(log: seq<Entry>, hash: uint32, now: uint32, ttl: int)
    requires |log| >= SIZE
  {
    exists k :: |log| - 64 <= k < |log| && Repeats(log[k], hash, now, ttl)
  }

  class DedupRing {
    const ttl: int
    var entries: seq<Entry>
    var idx: nat
    ghost var log: seq<Entry>

    ghost predicate Valid()
      reads this
    {
      && |entries| == SIZE && |log| >= SIZE && idx == |log| % SIZE
      && forall k :: |log| - SIZE <= k < |log| ==> entries[k % SIZE] == log[k]
    }

    constructor (ttl: int)
      ensures Valid() && this.ttl == ttl && log == EmptyLog()
    {
      this.ttl := ttl;
      entries, idx, log := EmptyLog(), 0, EmptyLog();
    }

    /** Scanning the ring decides whether one of the last 64 recorded entries matches. */
    method IsDuplicate(hash: uint32, now: uint32) returns (dup: bool)
      requires Valid()
      ensures dup <==> Duplicate(log, hash, now, ttl)
    {
      hide Repeats, Hit;
      for i := 0 to SIZE
        invariant forall j :: 0 <= j < i ==> !Repeats(entries[j], hash, now, ttl)
      {
        HitIff(entries[i], hash, now, ttl);
        if Hit(entries[i], hash, now, ttl) {
          ghost var k := LastAt(|log|, i);
          assert log[k] == entries[i];
          return true;
        }
      }
      assert forall k :: |log| - SIZE <= k < |log| ==> !Repeats(log[k], hash, now, ttl) by {
        forall k | |log| - SIZE <= k < |log|
          ensures !Repeats(log[k], hash, now, ttl)
        {
          assert entries[k % SIZE] == log[k];
        }
      }
      dup := false;
    }

    /** Recording overwrites the oldest entry. */
    method Record(hash: uint32, now: uint32)
      requires Valid()
      modifies this
      ensures Valid() && log == old(log) + [Entry(hash, now)]
    {
      ghost var n := |log|;
      entries := entries[idx := Entry(hash, now)];
      idx := (idx + 1) % SIZE;
      log := log + [Entry(hash, now)];
      forall k | n + 1 - SIZE <= k < n + 1
        ensures entries[k % SIZE] == log[k]
      {
        if k < n {
          SlotsDiffer(k, n);
        }
      }
    }

    /** The gate of both message handlers: a duplicate is dropped, anything else is recorded and passed on. */
    method Gate(hash: uint32, now: uint32) returns (pass: bool)
      requires Valid()
      modifies this
      ensures Valid() && (pass <==> !Duplicate(old(log), hash, now, ttl))
      ensures log == if pass then old(log) + [Entry(hash, now)] else old(log)
    {
      var dup := IsDuplicate(hash, now);
      if dup {
        return false;
      }
      Record(hash, now);
      pass := true;
    }
  }

  /** The position in the last 64 whose slot is i. */
  lemma LastAt(n: nat, i: nat) returns (k: nat)
    requires n >= SIZE && i < SIZE
    ensures n - SIZE <= k < n && k % SIZE == i
  {
    k := n - 1 - (n - 1 - i) % SIZE;
  }

  lemma SlotsDiffer(k: nat, n: nat)
    requires n - SIZE < k < n
    ensures k % SIZE != n % SIZE
  {
  }

  /////////////////////////////////////////////////////////////////////////////
  // Runs
  /////////////////////////////////////////////////////////////////////////////

  /** A message at the gate, or a hash recorded for an outgoing text. */
  datatype Op = Message(hash: uint32, now: uint32) | Outgoing(hash: uint32, now: uint32)

  /** The log, and the log positions of the messages that were passed on. */
  datatype Trace = Trace(log: seq<Entry>, passed: seq<nat>)

  ghost function Do(t: Trace, op: Op, ttl: int): Trace
    requires |t.log| >= SIZE
  {
    match op
    case Message(h, now) =>
      if Duplicate(t.log, h, now, ttl) then t else Trace(t.log + [Entry(h, now)], t.passed + [|t.log|])
    case Outgoing(h, now) => t.(log := t.log + [Entry(h, now)])
  }

  ghost function Run(ops: seq<Op>, ttl: int): (t: Trace)
    ensures |t.log| >= SIZE
  {
    if ops == [] then Trace(EmptyLog(), []) else Do(Run(ops[..|ops| - 1], ttl), ops[|ops| - 1], ttl)
  }

  /** Passed messages sit at increasing positions behind the seed, and none repeats a fresh entry of its last 64. */
  ghost predicate Separated(t: Trace, ttl: int)
    requires |t.log| >= SIZE
  {
    && (forall i :: 0 <= i < |t.passed| ==> SIZE <= t.passed[i] < |t.log|)
    && (forall i, j :: 0 <= i < j < |t.passed| ==> t.passed[i] < t.passed[j])
    && (forall i, p :: 0 <= i < |t.passed| && t.passed[i] - SIZE <= p < t.passed[i] ==>
          !Repeats(t.log[p], t.log[t.passed[i]].hash, t.log[t.passed[i]].time, ttl))
  }

  lemma {:induction false} RunSeparated(ops: seq<Op>, ttl: int)
    ensures Separated(Run(ops, ttl), ttl)
  {
    if ops != [] {
      hide Repeats;
      RunSeparated(ops[..|ops| - 1], ttl);
      StepSeparated(Run(ops[..|ops| - 1], ttl), ops[|ops| - 1], ttl);
    }
  }

  lemma StepSeparated(t: Trace, op: Op, ttl: int)
    requires |t.log| >= SIZE && Separated(t, ttl)
    ensures Separated(Do(t, op, ttl), ttl)
  {
    hide Repeats;
    var u := Do(t, op, ttl);
    forall i, p | 0 <= i < |u.passed| && u.passed[i] - SIZE <= p < u.passed[i]
      ensures !Repeats(u.log[p], u.log[u.passed[i]].hash, u.log[u.passed[i]].time, ttl)
    {
      if i < |t.passed| {
        assert u.log[p] == t.log[p] && u.log[u.passed[i]] == t.log[t.passed[i]];
      } else {
        assert u.log[p] == t.log[p] && u.log[u.passed[i]] == Entry(op.hash, op.now);
      }
    }
  }

  /** In every run, two passed messages with one hash, the second recorded d milliseconds of the wrapping clock after
      the first with d below the window, have at least 64 recordings between them. */
  lemma SameHashFarApart(ops: seq<Op>, ttl: int, i: nat, j: nat, d: nat)
    requires d < ttl && d < TWO32
    ensures var t := Run(ops, ttl);
            i < j < |t.passed| ==>
              && t.passed[i] < t.passed[j] < |t.log|
              && var e, f := t.log[t.passed[i]], t.log[t.passed[j]];
              (e.hash == f.hash && f.time == Later(e.time, d) ==> t.passed[j] > t.passed[i] + 64)
  {
    hide Run;
    RunSeparated(ops, ttl);
    var t := Run(ops, ttl);
    if i < j < |t.passed| {
      var p, q := t.passed[i], t.passed[j];
      if t.log[p].hash == t.log[q].hash && t.log[q].time == Later(t.log[p].time, d) {
        assert Repeats(t.log[p], t.log[q].hash, t.log[q].time, ttl);
      }
    }
  }

  /** The bridge's window: one minute. */
  lemma BridgeWindow(ops: seq<Op>, i: nat, j: nat, d: nat)
    requires d < 60000
    ensures var t := Run(ops, BRIDGE_TTL_MS);
            i < j < |t.passed| ==>
              && t.passed[i] < t.passed[j] < |t.log|
              && var e, f := t.log[t.passed[i]], t.log[t.passed[j]];
              (e.hash == f.hash && f.time == Later(e.time, d) ==> t.passed[j] > t.passed[i] + 64)
  {
    hide Run;
    SameHashFarApart(ops, BRIDGE_TTL_MS, i, j, d);
  }

  /** A message is dropped exactly when one of the last 64 recordings is a fresh one with its hash, or when its hash is
      zero in the first window after the clock's zero while the ring still holds a seed entry. */
  lemma DroppedIff(ops: seq<Op>, ttl: int, hash: uint32, now: uint32)
    requires 0 <= ttl
    ensures var log := Run(ops, ttl).log;
            Duplicate(log, hash, now, ttl) <==>
              || (exists k :: SIZE <= k < |log| && |log| - SIZE <= k && Repeats(log[k], hash, now, ttl))
              || (|log| < 2 * SIZE && hash == 0 && now < ttl)
  {
    SeedKept(ops, ttl);
    var log := Run(ops, ttl).log;
    hide Run;
    if |log| < 2 * SIZE && hash == 0 && now < ttl {
      assert now == Later(0, now);
      assert Repeats(log[SIZE - 1], hash, now, ttl);
    }
    if Duplicate(log, hash, now, ttl) {
      var k :| |log| - SIZE <= k < |log| && Repeats(log[k], hash, now, ttl);
      if k < SIZE {
        assert log[k] == Entry(0, 0);
      }
    }
  }

  /** The seed costs a message: one with hash 0 that reaches a ring nothing was ever recorded in, at the clock's zero,
      is dropped. */
  lemma SeedDropsUnseen()
    ensures Run([], BRIDGE_TTL_MS).log == EmptyLog() && Duplicate(EmptyLog(), 0, 0, BRIDGE_TTL_MS)
  {
    DroppedIff([], BRIDGE_TTL_MS, 0, 0);
  }

  lemma {:induction false} SeedKept(ops: seq<Op>, ttl: int)
    ensures Run(ops, ttl).log[..SIZE] == EmptyLog()
  {
    if ops != [] {
      hide Duplicate;
      SeedKept(ops[..|ops| - 1], ttl);
      var t := Run(ops[..|ops| - 1], ttl);
      assert Do(t, ops[|ops| - 1], ttl).log[..SIZE] == t.log[..SIZE];
    }
  }
}
