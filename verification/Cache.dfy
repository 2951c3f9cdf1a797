/**
 The TTL-respecting response cache (crates/dns-core/src/cache.rs), and its refinement of an
 unbounded log of insertions. Time and durations are whole nanoseconds.
 */
module Cache {
  import opened Strings
  import opened Wrappers

  type U32 = x: int | 0 <= x < 0x1_0000_0000

  const SECOND: nat := 1_000_000_000
  const MAX_TTL: nat := 3600 * SECOND
  const MIN_TTL: nat := 5 * SECOND
  const NEGATIVE_TTL: nat := 30 * SECOND

  datatype ResponseCode = NoError | NXDomain | ServFail | OtherCode(code: nat)

  datatype Record = Record(owner: string, ttl: U32, data: string)

  datatype Message = Message(code: ResponseCode, answers: seq<Record>, authority: seq<Record>, additional: seq<Record>)

  datatype Key = Key(name: string, recordType: nat)

  datatype Entry = Entry(message: Message, storedAt: nat, ttl: nat)

  type Entries = map<Key, Entry>

  // ------------------------------------------------------------------------- keys

  function KeyOf(name: string, recordType: nat): Key {
    Key(Lower(name), recordType)
  }

  // -------------------------------------------------------------------- lifetimes

  function MinTtl(rs: seq<Record>): (m: U32)
    requires rs != []
    ensures exists r :: r in rs && m == r.ttl
    ensures forall r <- rs :: m <= r.ttl
  {
    if |rs| == 1 then assert rs[0] in rs; rs[0].ttl
    else
      var more := MinTtl(rs[1..]);
      assert rs[0] in rs;
      if rs[0].ttl < more then rs[0].ttl else more
  }

  function Clamp(x: nat, lo: nat, hi: nat): nat {
    if x < lo then lo else if x > hi then hi else x
  }

  function CacheableTtl(m: Message): Option<nat> {
    if m.code == NXDomain then Some(NEGATIVE_TTL)
    else if m.code != NoError then None
    else if m.answers == [] then Some(NEGATIVE_TTL)
    else Some(Clamp(MinTtl(m.answers) * SECOND, MIN_TTL, MAX_TTL))
  }

  /** `saturating_duration_since`. */
  function Elapsed(now: nat, storedAt: nat): nat {
    if now < storedAt then 0 else now - storedAt
  }

  predicate Live(e: Entry, now: nat) {
    Elapsed(now, e.storedAt) < e.ttl
  }

  /** `ttl.saturating_sub(elapsed)`. */
  function Remaining(e: Entry, now: nat): nat {
    if Live(e, now) then e.ttl - Elapsed(now, e.storedAt) else 0
  }

  function AgeRecord(r: Record, spent: U32): Record {
    r.(ttl := if r.ttl < spent then 0 else r.ttl - spent)
  }

  function AgeAll(rs: seq<Record>, spent: U32): seq<Record> {
    seq(|rs|, i requires 0 <= i < |rs| => AgeRecord(rs[i], spent))
  }

  /** Answer and authority records age; additional records do not. */
  function Age(m: Message, spent: U32): Message {
    m.(answers := AgeAll(m.answers, spent), authority := AgeAll(m.authority, spent))
  }

  function Lookup(es: Entries, k: Key, now: nat): Option<Message> {
    if k !in es || !Live(es[k], now) then None
    else Some(Age(es[k].message, (Elapsed(now, es[k].storedAt) / SECOND) % 0x1_0000_0000))
  }

  // ------------------------------------------------------------- the log of insertions

  datatype Insertion = Insertion(key: Key, message: Message, at: nat)

  /** The latest cacheable insertion for a key. */
  function Latest(log: seq<Insertion>, k: Key): (r: Option<Insertion>)
    ensures r.Some? ==> r.value in log && r.value.key == k && CacheableTtl(r.value.message).Some?
  {
    if log == [] then None else
    var last := log[|log| - 1];
    if last.key == k && CacheableTtl(last.message).Some? then Some(last) else Latest(log[..|log| - 1], k)
  }

  /**
   What a hit on an insertion has to look like: inside its lifetime, every answer and authority
   TTL reduced by the whole seconds elapsed (never below zero), the rest untouched.
   */
  ghost predicate Serves(ins: Insertion, now: nat, m: Message) {
    var elapsed: nat := if now <= ins.at then 0 else now - ins.at;
    && CacheableTtl(ins.message).Some? && now < ins.at + CacheableTtl(ins.message).value
    && m.code == ins.message.code && m.additional == ins.message.additional
    && AgedBy(ins.message.answers, m.answers, elapsed / SECOND)
    && AgedBy(ins.message.authority, m.authority, elapsed / SECOND)
  }

  ghost predicate AgedBy(before: seq<Record>, after: seq<Record>, seconds: nat) {
    && |after| == |before|
    && forall i :: 0 <= i < |after| ==>
         && after[i].owner == before[i].owner && after[i].data == before[i].data
         && after[i].ttl as int == (if before[i].ttl <= seconds then 0 else before[i].ttl as int - seconds)
  }

  /** Every entry is the latest cacheable insertion for its key. */
  ghost predicate Agrees(es: Entries, log: seq<Insertion>) {
    forall k <- es ::
      && Latest(log, k).Some?
      && es[k] == Entry(Latest(log, k).value.message, Latest(log, k).value.at,
                        CacheableTtl(Latest(log, k).value.message).value)
  }

  /** Every lifetime lies in [5 s, 3600 s]. */
  lemma LifetimeBounds(m: Message)
    requires CacheableTtl(m).Some?
    ensures 5 * SECOND <= CacheableTtl(m).value <= 3600 * SECOND
  {}

  /** No answer outlives its own TTL within `l`, the floor aside. */
  ghost predicate Affordable(m: Message, l: nat) {
    5 * SECOND <= l <= 3600 * SECOND && (l == 5 * SECOND || forall r <- m.answers :: l <= r.ttl * SECOND)
  }

  /** A positive answer is kept for the longest affordable time; only NOERROR and NXDOMAIN are kept at all. */
  lemma LifetimeIsLongest(m: Message)
    ensures CacheableTtl(m).Some? <==> m.code == NoError || m.code == NXDomain
    ensures m.code == NoError && m.answers != [] ==>
              && Affordable(m, CacheableTtl(m).value)
              && forall l: nat :: Affordable(m, l) ==> l <= CacheableTtl(m).value
    ensures CacheableTtl(m).Some? && (m.code == NXDomain || m.answers == []) ==> CacheableTtl(m).value == 30 * SECOND
  {
    if m.code == NoError && m.answers != [] {
      var shortest := MinTtl(m.answers);
      var r :| r in m.answers && shortest == r.ttl;
    }
  }

  lemma AgeIsAgedBy(rs: seq<Record>, seconds: nat)
    requires seconds < 0x1_0000_0000
    ensures AgedBy(rs, AgeAll(rs, seconds), seconds)
  {}

  /** A hit serves the latest insertion; the 32-bit cast of the elapsed seconds loses nothing. */
  lemma HitServesLatest(es: Entries, log: seq<Insertion>, k: Key, now: nat)
    requires Agrees(es, log) && Lookup(es, k, now).Some?
    ensures Latest(log, k).Some? && Serves(Latest(log, k).value, now, Lookup(es, k, now).value)
    ensures Elapsed(now, es[k].storedAt) / SECOND < 3600
  {
    var ins := Latest(log, k).value;
    LifetimeBounds(ins.message);
    var seconds := Elapsed(now, ins.at) / SECOND;
    assert seconds % 0x1_0000_0000 == seconds;
    AgeIsAgedBy(ins.message.answers, seconds);
    AgeIsAgedBy(ins.message.authority, seconds);
  }

  /**
   Staleness: a client that caches what it is served holds an answer for less than one second
   longer than the original lifetime (or the five-second floor) allowed.
   */
  lemma StalenessBound(ins: Insertion, now: nat, m: Message, i: nat)
    requires Serves(ins, now, m) && ins.message.code == NoError && i < |ins.message.answers|
    ensures var original := ins.message.answers[i].ttl as int;
            now + m.answers[i].ttl * SECOND < ins.at + (if original < 5 then 5 else original) * SECOND + SECOND
  {}

  // ----------------------------------------------------------------------- operations

  datatype Op = Insert(key: Key, message: Message, now: nat) | Purge(now: nat) | Clear

  ghost predicate IsVictim(es: Entries, v: Key, now: nat) {
    v in es && forall k <- es :: Remaining(es[v], now) <= Remaining(es[k], now)
  }

  /** Some entry with the least life left is dropped, if there is one. */
  ghost predicate Evicted(es: Entries, now: nat, es': Entries) {
    if es == map[] then es' == es else exists v :: IsVictim(es, v, now) && es' == es - {v}
  }

  ghost predicate MakesRoom(es: Entries, capacity: nat, k: Key, now: nat, es': Entries) {
    if |es| >= capacity && k !in es then Evicted(es, now, es') else es' == es
  }

  function Purged(es: Entries, now: nat): Entries {
    map k | k in es && Live(es[k], now) :: es[k]
  }

  ghost predicate Inserted(es: Entries, capacity: nat, k: Key, m: Message, now: nat, es': Entries) {
    match CacheableTtl(m)
    case None => es' == es
    case Some(ttl) => exists room :: MakesRoom(es, capacity, k, now, room) && es' == room[k := Entry(m, now, ttl)]
  }

  /** What one operation may do; ties between victims are broken arbitrarily. */
  ghost predicate Step(capacity: nat, es: Entries, op: Op, es': Entries) {
    match op
    case Insert(k, m, now) => Inserted(es, capacity, k, m, now, es')
    case Purge(now) => es' == Purged(es, now)
    case Clear => es' == map[]
  }

  function LogOf(ops: seq<Op>): seq<Insertion> {
    if ops == [] then [] else
    var last := ops[|ops| - 1];
    LogOf(ops[..|ops| - 1]) + (if last.Insert? then [Insertion(last.key, last.message, last.now)] else [])
  }

  /** `states[i]` is what the cache may hold after `i` operations on an empty cache. */
  ghost predicate IsRun(capacity: nat, ops: seq<Op>, states: seq<Entries>) {
    && |states| == |ops| + 1 && states[0] == map[]
    && forall i :: 0 <= i < |ops| ==> Step(capacity, states[i], ops[i], states[i + 1])
  }

  lemma LatestSnoc(log: seq<Insertion>, ins: Insertion, k: Key)
    ensures Latest(log + [ins], k) ==
            if ins.key == k && CacheableTtl(ins.message).Some? then Some(ins) else Latest(log, k)
  {}

  lemma SubsetAgrees(es: Entries, es': Entries, log: seq<Insertion>)
    requires Agrees(es, log) && forall k <- es' :: k in es && es'[k] == es[k]
    ensures Agrees(es', log)
  {}

  /** Logging an insertion: the entry becomes the latest, or an uncacheable one changes nothing. */
  lemma InsertAgrees(es: Entries, log: seq<Insertion>, ins: Insertion)
    requires Agrees(es, log)
    ensures var ttl := CacheableTtl(ins.message);
            Agrees(if ttl.Some? then es[ins.key := Entry(ins.message, ins.at, ttl.value)] else es, log + [ins])
  {}

  lemma StepAgrees(capacity: nat, es: Entries, op: Op, es': Entries, log: seq<Insertion>)
    requires Agrees(es, log) && Step(capacity, es, op, es')
    ensures Agrees(es', log + (if op.Insert? then [Insertion(op.key, op.message, op.now)] else []))
  {
    hide CacheableTtl, Agrees, Latest;
    match op
    case Insert(k, m, now) =>
      if CacheableTtl(m).Some? {
        var room :| MakesRoom(es, capacity, k, now, room) && es' == room[k := Entry(m, now, CacheableTtl(m).value)];
        SubsetAgrees(es, room, log);
        InsertAgrees(room, log, Insertion(k, m, now));
      } else {
        InsertAgrees(es, log, Insertion(k, m, now));
      }
    case Purge(_) =>
      assert log + [] == log;
      SubsetAgrees(es, es', log);
    case Clear =>
      assert log + [] == log;
      SubsetAgrees(es, es', log);
  }

  /** Every run agrees with the log of its insertions. */
  lemma {:induction false} RunAgrees(capacity: nat, ops: seq<Op>, states: seq<Entries>)
    requires IsRun(capacity, ops, states)
    ensures Agrees(states[|ops|], LogOf(ops))
    decreases |ops|
  {
    if ops != [] {
      var n := |ops| - 1;
      assert IsRun(capacity, ops[..n], states[..n + 1]);
      RunAgrees(capacity, ops[..n], states[..n + 1]);
      StepAgrees(capacity, states[n], ops[n], states[n + 1], LogOf(ops[..n]));
    }
  }

  /**
   Refinement over any sequence of operations: every hit equals the latest cacheable insertion
   for its key, still inside its lifetime, aged by whole elapsed seconds.
   */
  lemma CacheRefinesLog(capacity: nat, ops: seq<Op>, states: seq<Entries>, k: Key, now: nat)
    requires IsRun(capacity, ops, states) && Lookup(states[|ops|], k, now).Some?
    ensures Latest(LogOf(ops), k).Some?
    ensures Serves(Latest(LogOf(ops), k).value, now, Lookup(states[|ops|], k, now).value)
  {
    RunAgrees(capacity, ops, states);
    HitServesLatest(states[|ops|], LogOf(ops), k, now);
  }

  /** Two spellings of a name share an entry exactly when they differ only in letter case. */
  lemma KeysFoldCase(a: string, b: string, t: nat)
    ensures KeyOf(a, t) == KeyOf(b, t) <==> SameSpelling(a, b)
    ensures forall u: nat :: KeyOf(a, t) == KeyOf(b, u) ==> t == u
  {
    LowerFoldsCase(a, b);
  }

  // --------------------------------------------------- purge, eviction, and their limits

  /** Purging at a time never changes any lookup at that time or later. */
  lemma PurgeIsInvisible(es: Entries, t: nat, k: Key, now: nat)
    requires t <= now
    ensures Lookup(Purged(es, t), k, now) == Lookup(es, k, now)
  {}

  /** The entry's lifetime has begun, or is still to begin, and has not run out. */
  predicate InTime(e: Entry, now: nat) {
    e.ttl > 0 && now < e.storedAt + e.ttl
  }

  /** When the entry runs out, its lifetime counted from now at the latest. */
  function RunsOut(e: Entry, now: nat): nat {
    (if e.storedAt < now then e.storedAt else now) + e.ttl
  }

  /** A purge keeps every entry in time, and nothing else. */
  lemma PurgedExactly(es: Entries, now: nat)
    ensures forall k :: k in Purged(es, now) <==> k in es && InTime(es[k], now)
    ensures forall k <- Purged(es, now) :: Purged(es, now)[k] == es[k]
  {}

  /** A victim has run out, or is the first of all that will. */
  lemma VictimExactly(es: Entries, v: Key, now: nat)
    ensures IsVictim(es, v, now) <==>
              v in es && (RunsOut(es[v], now) <= now || forall k <- es :: RunsOut(es[v], now) <= RunsOut(es[k], now))
  {}

  /**
   What an insertion does: nothing for an uncacheable message; otherwise the entry is put, and one
   victim goes if and only if the cache is full and the key is new; all else stays.
   */
  lemma InsertExactly(capacity: nat, es: Entries, k: Key, m: Message, now: nat, es': Entries)
    ensures Step(capacity, es, Insert(k, m, now), es') <==>
              if CacheableTtl(m).None? then es' == es
              else
                var entry := Entry(m, now, CacheableTtl(m).value);
                if |es| < capacity || k in es || es == map[] then es' == es[k := entry]
                else exists v :: IsVictim(es, v, now) && es' == (es - {v})[k := entry]
  {
    if CacheableTtl(m).Some? {
      var entry := Entry(m, now, CacheableTtl(m).value);
      if |es| < capacity || k in es || es == map[] {
        assert MakesRoom(es, capacity, k, now, es);
      } else if v :| IsVictim(es, v, now) && es' == (es - {v})[k := entry] {
        assert MakesRoom(es, capacity, k, now, es - {v});
      }
    }
  }

  /** A live entry is evicted only when every stored entry is live; no other entry is touched. */
  lemma EvictionSparesLive(es: Entries, now: nat, v: Key)
    requires IsVictim(es, v, now) && Live(es[v], now)
    ensures forall k <- es :: Live(es[k], now) && Remaining(es[v], now) <= Remaining(es[k], now)
  {}

  lemma StepBoundsSize(capacity: nat, es: Entries, op: Op, es': Entries)
    requires |es| <= (if capacity < 1 then 1 else capacity) && Step(capacity, es, op, es')
    ensures |es'| <= (if capacity < 1 then 1 else capacity)
  {
    match op
    case Insert(k, m, now) =>
      if CacheableTtl(m).Some? {
        var room :| MakesRoom(es, capacity, k, now, room) && es' == room[k := Entry(m, now, CacheableTtl(m).value)];
        RoomSize(es, capacity, k, now, room);
        assert es'.Keys == room.Keys + {k};
      }
    case Purge(now) => PurgedSize(es, now);
    case Clear =>
  }

  lemma RoomSize(es: Entries, capacity: nat, k: Key, now: nat, room: Entries)
    requires MakesRoom(es, capacity, k, now, room)
    ensures k in es ==> room == es
    ensures k !in es && |es| < capacity ==> room == es
    ensures k !in es && |es| >= capacity ==> |room| == if |es| == 0 then 0 else |es| - 1
    ensures k in room <==> k in es
  {}

  lemma PurgedSize(es: Entries, now: nat)
    ensures |Purged(es, now)| <= |es|
  {
    SubsetSize(Purged(es, now).Keys, es.Keys);
  }

  lemma {:induction false} SubsetSize<T>(a: set<T>, b: set<T>)
    requires a <= b
    ensures |a| <= |b|
  {
    if x :| x in a {
      SubsetSize(a - {x}, b - {x});
    }
  }

  /** The size never exceeds max(1, capacity) in any run. */
  lemma {:induction false} RunBoundsSize(capacity: nat, ops: seq<Op>, states: seq<Entries>)
    requires IsRun(capacity, ops, states)
    ensures |states[|ops|]| <= if capacity < 1 then 1 else capacity
    decreases |ops|
  {
    if ops != [] {
      var n := |ops| - 1;
      assert IsRun(capacity, ops[..n], states[..n + 1]);
      RunBoundsSize(capacity, ops[..n], states[..n + 1]);
      StepBoundsSize(capacity, states[n], ops[n], states[n + 1]);
    }
  }

  // ----------------------------------- completeness: nothing is lost until room runs out

  /** What one operation does to the log since the last clear. */
  function Logged(log: seq<Insertion>, op: Op): seq<Insertion> {
    match op
    case Insert(k, m, now) => log + [Insertion(k, m, now)]
    case Purge(_) => log
    case Clear => []
  }

  /** The log an unbounded cache would hold: insertions since the last clear. */
  function SinceClear(ops: seq<Op>): seq<Insertion> {
    if ops == [] then [] else Logged(SinceClear(ops[..|ops| - 1]), ops[|ops| - 1])
  }

  /**
   What an unbounded log answers: a hit if and only if there is a cacheable insertion for the key
   and the latest one is inside its lifetime, and then that insertion, aged.
   */
  ghost predicate AnswersAs(log: seq<Insertion>, k: Key, now: nat, r: Option<Message>) {
    match Latest(log, k)
    case None => r.None?
    case Some(ins) =>
      && (r.Some? <==> now < ins.at + CacheableTtl(ins.message).value)
      && (r.Some? ==> Serves(ins, now, r.value))
  }

  /** No insertion of the run met a full cache. */
  ghost predicate NeverFull(capacity: nat, ops: seq<Op>, states: seq<Entries>)
    requires |states| == |ops| + 1
  {
    forall i :: 0 <= i < |ops| && ops[i].Insert? ==> |states[i]| < capacity || ops[i].key in states[i]
  }

  ghost predicate PurgedBy(ops: seq<Op>, t: nat) {
    forall op <- ops :: op.Purge? ==> op.now <= t
  }

  lemma StepEqualsLog(capacity: nat, es: Entries, op: Op, es': Entries, log: seq<Insertion>, k: Key, now: nat)
    requires Step(capacity, es, op, es') && AnswersAs(log, k, now, Lookup(es, k, now))
    requires (op.Insert? ==> |es| < capacity || op.key in es) && (op.Purge? ==> op.now <= now)
    ensures AnswersAs(Logged(log, op), k, now, Lookup(es', k, now))
  {
    hide Age, Serves, CacheableTtl, Latest;
    match op
    case Insert(k', m, at) =>
      LatestSnoc(log, Insertion(k', m, at), k);
      InsertExactly(capacity, es, k', m, at, es');
      if CacheableTtl(m).Some? { EntryAnswers(es', k', Insertion(k', m, at), now); }
    case Purge(t) => PurgeIsInvisible(es, t, k, now);
    case Clear =>
  }

  /** An entry answers as the insertion that made it. */
  lemma EntryAnswers(es: Entries, k: Key, ins: Insertion, now: nat)
    requires CacheableTtl(ins.message).Some? && k in es
    requires es[k] == Entry(ins.message, ins.at, CacheableTtl(ins.message).value)
    ensures Lookup(es, k, now).Some? <==> now < ins.at + CacheableTtl(ins.message).value
    ensures Lookup(es, k, now).Some? ==> Serves(ins, now, Lookup(es, k, now).value)
  {
    LifetimeBounds(ins.message);
    var seconds := Elapsed(now, ins.at) / SECOND;
    if Lookup(es, k, now).Some? {
      assert seconds % 0x1_0000_0000 == seconds;
      AgeIsAgedBy(ins.message.answers, seconds);
      AgeIsAgedBy(ins.message.authority, seconds);
    }
  }

  lemma NothingLogged(k: Key, now: nat)
    ensures AnswersAs([], k, now, Lookup(map[], k, now))
  {}

  /**
   Until an insertion meets a full cache, every lookup (no earlier than the last purge) answers
   exactly as the unbounded log does: misses included.
   */
  lemma {:induction false} CacheEqualsLog(capacity: nat, ops: seq<Op>, states: seq<Entries>, k: Key, now: nat)
    requires IsRun(capacity, ops, states) && NeverFull(capacity, ops, states) && PurgedBy(ops, now)
    ensures AnswersAs(SinceClear(ops), k, now, Lookup(states[|ops|], k, now))
    decreases |ops|
  {
    hide Step, Lookup, AnswersAs;
    if ops == [] {
      NothingLogged(k, now);
    } else {
      var n := |ops| - 1;
      assert IsRun(capacity, ops[..n], states[..n + 1]);
      assert NeverFull(capacity, ops[..n], states[..n + 1]) by {
        assert forall i :: 0 <= i < n ==> ops[..n][i] == ops[i] && states[..n + 1][i] == states[i];
      }
      CacheEqualsLog(capacity, ops[..n], states[..n + 1], k, now);
      assert Step(capacity, states[n], ops[n], states[n + 1]);
      assert ops[n] in ops;
      StepEqualsLog(capacity, states[n], ops[n], states[n + 1], SinceClear(ops[..n]), k, now);
    }
  }

  // ------------------------------------------------------------------------ the class

  class TtlCache {
    var entries: Entries
    const capacity: nat
    /** Every insertion ever made, oldest first. */
    ghost var log: seq<Insertion>

    ghost predicate Valid()
      reads this
    {
      Agrees(entries, log) && |entries| <= if capacity < 1 then 1 else capacity
    }

    constructor (capacity: nat)
      ensures Valid() && entries == map[] && this.capacity == capacity && log == []
    {
      entries, this.capacity, log := map[], capacity, [];
    }

    method GetAt(key: Key, now: nat) returns (r: Option<Message>)
      requires Valid()
      ensures r == Lookup(entries, key, now)
      ensures r.Some? <==> key in entries && InTime(entries[key], now)
      ensures r.Some? ==> Latest(log, key).Some? && Serves(Latest(log, key).value, now, r.value)
    {
      if key !in entries { return None; }
      var entry := entries[key];
      var elapsed := Elapsed(now, entry.storedAt);
      if entry.ttl < elapsed { return None; }
      var remaining := entry.ttl - elapsed;
      if remaining == 0 { return None; }
      var spent: U32 := (elapsed / SECOND) % 0x1_0000_0000;
      var answers := AgeLoop(entry.message.answers, spent);
      var authority := AgeLoop(entry.message.authority, spent);
      r := Some(entry.message.(answers := answers, authority := authority));
      HitServesLatest(entries, log, key, now);
    }

    static method AgeLoop(records: seq<Record>, spent: U32) returns (out: seq<Record>)
      ensures out == AgeAll(records, spent)
    {
      out := records;
      for i := 0 to |records|
        invariant |out| == |records|
        invariant out[..i] == AgeAll(records, spent)[..i] && out[i..] == records[i..]
      {
        var ttl := if out[i].ttl < spent then 0 else out[i].ttl - spent;
        assert out[i] == records[i] by { assert out[i..][0] == records[i..][0]; }
        var aged := AgeAll(records, spent);
        assert out[i].(ttl := ttl) == aged[i];
        var next := out[i := out[i].(ttl := ttl)];
        assert next[..i + 1] == out[..i] + [aged[i]] == aged[..i + 1];
        assert next[i + 1..] == out[i..][1..];
        out := next;
      }
    }

    method InsertAt(key: Key, message: Message, now: nat) returns (r: Option<nat>)
      requires Valid()
      modifies this
      ensures Valid() && r == CacheableTtl(message)
      ensures log == old(log) + [Insertion(key, message, now)]
      ensures Step(capacity, old(entries), Insert(key, message, now), entries)
      ensures r.None? ==> entries == old(entries)
      ensures r.Some? ==> key in entries && entries[key] == Entry(message, now, r.value)
      ensures r.Some? && (|old(entries)| < capacity || key in old(entries)) ==>
                entries == old(entries)[key := Entry(message, now, r.value)]
    {
      log := log + [Insertion(key, message, now)];
      r := CacheableTtl(message);
      if r.Some? {
        if |entries| >= capacity && key !in entries {
          EvictOne(now);
        }
        assert MakesRoom(old(entries), capacity, key, now, entries);
        entries := entries[key := Entry(message, now, r.value)];
      }
      StepAgrees(capacity, old(entries), Insert(key, message, now), entries, old(log));
      StepBoundsSize(capacity, old(entries), Insert(key, message, now), entries);
    }

    /** One pass over the entries in an arbitrary order, keeping the first with the least life left. */
    method EvictOne(now: nat)
      modifies this`entries
      ensures Evicted(old(entries), now, entries)
      ensures old(entries) != map[] ==> exists v ::
                && v in old(entries) && entries == old(entries) - {v}
                && (RunsOut(old(entries)[v], now) <= now ||
                    forall k <- old(entries) :: RunsOut(old(entries)[v], now) <= RunsOut(old(entries)[k], now))
    {
      if entries == map[] { return; }
      var keys := entries.Keys;
      var victim :| victim in keys;
      var rest := keys - {victim};
      while rest != {}
        invariant rest <= keys && victim in keys
        invariant forall k <- keys - rest :: Remaining(entries[victim], now) <= Remaining(entries[k], now)
        decreases rest
      {
        var k :| k in rest;
        if Remaining(entries[k], now) < Remaining(entries[victim], now) {
          victim := k;
        }
        rest := rest - {k};
      }
      assert keys - rest == keys;
      assert IsVictim(entries, victim, now);
      VictimExactly(entries, victim, now);
      entries := entries - {victim};
    }

    method PurgeExpired(now: nat)
      requires Valid()
      modifies this`entries
      ensures Valid() && Step(capacity, old(entries), Purge(now), entries)
      ensures forall k :: k in entries <==> k in old(entries) && InTime(old(entries)[k], now)
      ensures forall k <- entries :: entries[k] == old(entries)[k]
    {
      entries := map k | k in entries && entries[k].ttl > Elapsed(now, entries[k].storedAt) :: entries[k];
      assert entries == Purged(old(entries), now);
      StepBoundsSize(capacity, old(entries), Purge(now), entries);
    }

    method Clear()
      requires Valid()
      modifies this`entries
      ensures Valid() && Step(capacity, old(entries), Op.Clear, entries) && entries == map[]
    {
      entries := map[];
    }
  }
}
