/**
 The DoH resolver over the shared cache (crates/dns-core/src/resolver.rs): the fallback loop
 over providers, and any number of lookups that release the cache between check and insert.
 */
module Resolver {
  import opened Wrappers
  import opened Cache

  /** What one provider makes of one query: anything at all. */
  datatype Reply = Failure(error: string) | Answer(message: Message)

  datatype Cause = HttpStatus(status: nat) | QueryFailed(error: string) | NoProviders

  datatype ResolveError = AllProvidersFailed(tried: nat, source: Cause)

  predicate Acceptable(r: Reply) {
    r.Answer? && r.message.code != ServFail
  }

  ghost predicate FirstAcceptableAt(rs: seq<Reply>, n: nat, m: Message) {
    && n < |rs| && rs[n] == Answer(m) && m.code != ServFail
    && forall i :: 0 <= i < n ==> rs[i].Failure? || rs[i].message.code == ServFail
  }

  /** The last of the replies is the first acceptable one. */
  ghost predicate FirstAcceptable(rs: seq<Reply>, m: Message) {
    0 < |rs| && FirstAcceptableAt(rs, |rs| - 1, m)
  }

  ghost predicate NoneAcceptable(rs: seq<Reply>) {
    forall r <- rs :: r.Failure? || r.message.code == ServFail
  }

  function CauseOf(r: Reply): Cause {
    match r
    case Failure(e) => QueryFailed(e)
    case Answer(_) => HttpStatus(502)
  }

  /** The fallback loop, for the replies the providers would give in order. */
  method ResolveUncached(replies: seq<Reply>) returns (r: Result<Message, ResolveError>)
    ensures r.Ok? ==> exists n: nat :: FirstAcceptableAt(replies, n, r.value)
    ensures r.Err? ==> NoneAcceptable(replies)
    ensures r.Err? ==> r.error == AllProvidersFailed(|replies|,
                         if replies == [] then NoProviders else CauseOf(replies[|replies| - 1]))
  {
    var last: Option<Cause> := None;
    for i := 0 to |replies|
      invariant NoneAcceptable(replies[..i])
      invariant last == if i == 0 then None else Some(CauseOf(replies[i - 1]))
    {
      assert replies[..i + 1] == replies[..i] + [replies[i]];
      match replies[i]
      case Answer(m) =>
        if m.code == ServFail {
          last := Some(HttpStatus(502));
        } else {
          assert forall j :: 0 <= j < i ==> replies[j] in replies[..i];
          assert FirstAcceptableAt(replies, i, m);
          return Ok(m);
        }
      case Failure(e) =>
        last := Some(QueryFailed(e));
    }
    assert replies[..|replies|] == replies;
    return Err(AllProvidersFailed(|replies|, if last.Some? then last.value else NoProviders));
  }

  /** One lookup from end to end: the cache is locked for the check, and again for the insert. */
  method Resolve(cache: TtlCache, name: string, recordType: nat, replies: seq<Reply>, checkedAt: nat, storedAt: nat)
    returns (r: Result<Message, ResolveError>)
    requires cache.Valid()
    modifies cache
    ensures cache.Valid()
    ensures var key := KeyOf(name, recordType);
            var hit := Lookup(old(cache.entries), key, checkedAt);
            if hit.Some? then
              r == Ok(hit.value) && cache.entries == old(cache.entries) && cache.log == old(cache.log)
            else if r.Ok? then
              && (exists n: nat :: FirstAcceptableAt(replies, n, r.value))
              && Step(cache.capacity, old(cache.entries), Insert(key, r.value, storedAt), cache.entries)
              && cache.log == old(cache.log) + [Insertion(key, r.value, storedAt)]
            else
              NoneAcceptable(replies) && cache.entries == old(cache.entries) && cache.log == old(cache.log)
  {
    var key := KeyOf(name, recordType);
    var hit := cache.GetAt(key, checkedAt);
    if hit.Some? { return Ok(hit.value); }
    r := ResolveUncached(replies);
    if r.Ok? {
      var _ := cache.InsertAt(key, r.value, storedAt);
    }
  }

  // -------------------------------------------------------- lookups that interleave

  /**
   Where a lookup stands. `Hit` and `Answered` are its two ways to succeed, `GaveUp` its one
   way to fail; `at` is the time of the cache check that served the hit.
   */
  datatype Phase =
    | Checking
    | Asking(replies: seq<Reply>)
    | Storing(replies: seq<Reply>, answer: Message)
    | Hit(served: Message, at: nat)
    | Answered(replies: seq<Reply>, answer: Message)
    | GaveUp(replies: seq<Reply>)

  datatype Task = Task(key: Key, phase: Phase)

  /** The shared cache, the lookups, the clock, and which lookup made each insertion. */
  datatype System = System(entries: Entries, tasks: map<nat, Task>, now: nat, log: seq<Insertion>, takers: seq<nat>)

  datatype Config = Config(capacity: nat, providers: nat)

  datatype Event =
    | Begin(id: nat, name: string, recordType: nat)
    | Check(id: nat)
    | Reply(id: nat, reply: Reply)
    | GiveUp(id: nat)
    | Store(id: nat)
    | Tick(to: nat)
    | PurgeAll
    | ClearAll

  ghost predicate At(s: System, id: nat, p: Phase) {
    id in s.tasks && s.tasks[id].phase == p
  }

  function Move(s: System, id: nat, p: Phase): System
    requires id in s.tasks
  {
    s.(tasks := s.tasks[id := s.tasks[id].(phase := p)])
  }

  /** One atomic step of one lookup, or of the housekeeping; the lock is held for no longer. */
  ghost predicate Next(c: Config, s: System, e: Event, s': System) {
    match e
    case Begin(id, name, recordType) =>
      id !in s.tasks && s' == s.(tasks := s.tasks[id := Task(KeyOf(name, recordType), Checking)])
    case Check(id) =>
      && At(s, id, Checking)
      && s' == (match Lookup(s.entries, s.tasks[id].key, s.now)
                case Some(m) => Move(s, id, Hit(m, s.now))
                case None => Move(s, id, Asking([])))
    case Reply(id, reply) =>
      && id in s.tasks && s.tasks[id].phase.Asking? && |s.tasks[id].phase.replies| < c.providers
      && var rs := s.tasks[id].phase.replies + [reply];
         s' == Move(s, id, if Acceptable(reply) then Storing(rs, reply.message) else Asking(rs))
    case GiveUp(id) =>
      && id in s.tasks && s.tasks[id].phase.Asking? && |s.tasks[id].phase.replies| == c.providers
      && s' == Move(s, id, GaveUp(s.tasks[id].phase.replies))
    case Store(id) =>
      && id in s.tasks && s.tasks[id].phase.Storing?
      && var k, m := s.tasks[id].key, s.tasks[id].phase.answer;
         && Step(c.capacity, s.entries, Insert(k, m, s.now), s'.entries)
         && s' == Move(s, id, Answered(s.tasks[id].phase.replies, m)).(entries := s'.entries,
              log := s.log + [Insertion(k, m, s.now)], takers := s.takers + [id])
    case Tick(to) => s.now <= to && s' == s.(now := to)
    case PurgeAll => s' == s.(entries := Purged(s.entries, s.now))
    case ClearAll => s' == s.(entries := map[])
  }

  ghost predicate IsRun(c: Config, es: seq<Event>, ss: seq<System>) {
    && |ss| == |es| + 1
    && ss[0].entries == map[] && ss[0].tasks == map[] && ss[0].log == [] && ss[0].takers == []
    && forall i :: 0 <= i < |es| ==> Next(c, ss[i], es[i], ss[i + 1])
  }

  /** The insertion came from a lookup for that key, which took the first acceptable answer. */
  ghost predicate Genuine(s: System, i: nat) {
    && i < |s.log| == |s.takers|
    && s.takers[i] in s.tasks && s.tasks[s.takers[i]].key == s.log[i].key
    && s.tasks[s.takers[i]].phase.Answered?
    && s.tasks[s.takers[i]].phase.answer == s.log[i].message
    && FirstAcceptable(s.tasks[s.takers[i]].phase.replies, s.log[i].message)
  }

  /** What a lookup may claim in each phase. */
  ghost predicate Justified(c: Config, s: System, t: Task) {
    match t.phase
    case Checking => true
    case Asking(rs) => |rs| <= c.providers && NoneAcceptable(rs)
    case Storing(rs, m) => |rs| <= c.providers && FirstAcceptable(rs, m)
    case Hit(m, at) =>
      m.code != ServFail &&
      exists i :: 0 <= i < |s.log| && s.log[i].key == t.key && Serves(s.log[i], at, m)
    case Answered(rs, m) => m.code != ServFail && |rs| <= c.providers && FirstAcceptable(rs, m)
    case GaveUp(rs) => |rs| == c.providers && NoneAcceptable(rs)
  }

  ghost predicate Inv(c: Config, s: System) {
    && |s.log| == |s.takers|
    && Agrees(s.entries, s.log)
    && (forall i :: 0 <= i < |s.log| ==> Genuine(s, i))
    && (forall id <- s.tasks :: Justified(c, s, s.tasks[id]))
  }

  /** A hit is an aged copy of something in the log, and never a server failure. */
  lemma HitIsJustified(c: Config, s: System, k: Key)
    requires Inv(c, s) && Lookup(s.entries, k, s.now).Some?
    ensures Justified(c, s, Task(k, Hit(Lookup(s.entries, k, s.now).value, s.now)))
  {
    HitServesLatest(s.entries, s.log, k, s.now);
    var ins := Latest(s.log, k).value;
    var i :| 0 <= i < |s.log| && s.log[i] == ins;
  }

  /** Extending the log and moving one lookup keeps every other claim. */
  lemma OthersKeep(c: Config, s: System, s': System, id: nat)
    requires Inv(c, s) && id in s'.tasks
    requires |s.log| <= |s'.log| == |s'.takers|
    requires s'.log[..|s.log|] == s.log && s'.takers[..|s.takers|] == s.takers
    requires forall j <- s'.tasks :: j != id ==> j in s.tasks && s'.tasks[j] == s.tasks[j]
    requires forall j <- s.tasks :: j in s'.tasks
    requires id in s.tasks ==> !s.tasks[id].phase.Answered?
    ensures forall j <- s'.tasks :: j != id ==> Justified(c, s', s'.tasks[j])
    ensures forall i :: 0 <= i < |s.log| ==> Genuine(s', i)
  {
    forall j <- s'.tasks | j != id ensures Justified(c, s', s'.tasks[j]) {
      var t := s.tasks[j];
      assert Justified(c, s, t);
      if t.phase.Hit? {
        var i :| 0 <= i < |s.log| && s.log[i].key == t.key && Serves(s.log[i], t.phase.at, t.phase.served);
        assert s'.log[i] == s'.log[..|s.log|][i] == s.log[i];
      }
    }
    forall i | 0 <= i < |s.log| ensures Genuine(s', i) {
      assert Genuine(s, i);
      assert s'.log[i] == s'.log[..|s.log|][i] && s'.takers[i] == s'.takers[..|s.takers|][i];
    }
  }

  lemma SnocNoneAcceptable(rs: seq<Reply>, r: Reply)
    requires NoneAcceptable(rs)
    ensures !Acceptable(r) ==> NoneAcceptable(rs + [r])
    ensures Acceptable(r) ==> FirstAcceptable(rs + [r], r.message)
  {}

  lemma StoreKeeps(c: Config, s: System, id: nat, s': System)
    requires Inv(c, s) && Next(c, s, Store(id), s')
    ensures Inv(c, s')
  {
    assert Justified(c, s, s.tasks[id]);
    var m := s.tasks[id].phase.answer;
    StepAgrees(c.capacity, s.entries, Insert(s.tasks[id].key, m, s.now), s'.entries, s.log);
    OthersKeep(c, s, s', id);
  }

  /** A lookup moves to a phase it may claim; nothing else changes. */
  lemma MoveKeeps(c: Config, s: System, id: nat, p: Phase)
    requires Inv(c, s) && id in s.tasks && !s.tasks[id].phase.Answered?
    requires Justified(c, s, s.tasks[id].(phase := p))
    ensures Inv(c, Move(s, id, p))
  {
    hide Agrees, Serves, NoneAcceptable, FirstAcceptable;
    OthersKeep(c, s, Move(s, id, p), id);
  }

  lemma NextKeeps(c: Config, s: System, e: Event, s': System)
    requires Inv(c, s) && Next(c, s, e, s')
    ensures Inv(c, s')
  {
    hide Agrees, Step, Lookup, Serves;
    match e
    case Begin(id, _, _) => OthersKeep(c, s, s', id);
    case Check(id) =>
      if Lookup(s.entries, s.tasks[id].key, s.now).Some? { HitIsJustified(c, s, s.tasks[id].key); }
      MoveKeeps(c, s, id, s'.tasks[id].phase);
    case Reply(id, reply) =>
      assert Justified(c, s, s.tasks[id]);
      SnocNoneAcceptable(s.tasks[id].phase.replies, reply);
      MoveKeeps(c, s, id, s'.tasks[id].phase);
    case GiveUp(id) =>
      assert Justified(c, s, s.tasks[id]);
      MoveKeeps(c, s, id, s'.tasks[id].phase);
    case Store(id) => StoreKeeps(c, s, id, s');
    case Tick(_) => SameTasksKeep(c, s, s');
    case PurgeAll =>
      SubsetAgrees(s.entries, s'.entries, s.log);
      SameTasksKeep(c, s, s');
    case ClearAll =>
      SubsetAgrees(s.entries, s'.entries, s.log);
      SameTasksKeep(c, s, s');
  }

  lemma SameTasksKeep(c: Config, s: System, s': System)
    requires Inv(c, s) && s'.tasks == s.tasks && s'.log == s.log && s'.takers == s.takers && Agrees(s'.entries, s.log)
    ensures Inv(c, s')
  {
    forall i | 0 <= i < |s.log| ensures Genuine(s', i) { assert Genuine(s, i); }
    forall id <- s.tasks ensures Justified(c, s', s.tasks[id]) { assert Justified(c, s, s.tasks[id]); }
  }

  lemma NothingYet(c: Config, s: System)
    requires s.entries == map[] && s.tasks == map[] && s.log == [] && s.takers == []
    ensures Inv(c, s)
  {}

  lemma {:induction false} RunKeeps(c: Config, es: seq<Event>, ss: seq<System>)
    requires IsRun(c, es, ss)
    ensures Inv(c, ss[|es|])
    decreases |es|
  {
    hide Next, Inv;
    if es == [] {
      NothingYet(c, ss[0]);
    } else {
      var n := |es| - 1;
      assert IsRun(c, es[..n], ss[..n + 1]);
      RunKeeps(c, es[..n], ss[..n + 1]);
      NextKeeps(c, ss[n], es[n], ss[n + 1]);
    }
  }

  /** A lookup succeeded with `m`. */
  ghost predicate Succeeded(t: Task, m: Message) {
    (t.phase.Hit? && t.phase.served == m) || (t.phase.Answered? && t.phase.answer == m)
  }

  /**
   For every interleaving and every provider behaviour: a success is never SERVFAIL, and is the
   first acceptable provider answer, the lookup's own or an aged one for the same folded name
   and type that another lookup took; a lookup fails only when every provider did.
   */
  lemma EveryOutcomeIsJustified(c: Config, es: seq<Event>, ss: seq<System>, id: nat)
    requires IsRun(c, es, ss) && id in ss[|es|].tasks
    ensures var s := ss[|es|];
            var t := s.tasks[id];
            && (forall m :: Succeeded(t, m) ==> m.code != ServFail)
            && (t.phase.Answered? ==> FirstAcceptable(t.phase.replies, t.phase.answer))
            && (t.phase.Hit? ==>
                 exists i: nat :: Genuine(s, i) && s.log[i].key == t.key &&
                                  Serves(s.log[i], t.phase.at, t.phase.served))
            && (t.phase.GaveUp? ==> |t.phase.replies| == c.providers && NoneAcceptable(t.phase.replies))
  {
    RunKeeps(c, es, ss);
    var s := ss[|es|];
    var t := s.tasks[id];
    assert Justified(c, s, t);
    if t.phase.Hit? {
      var i :| 0 <= i < |s.log| && s.log[i].key == t.key && Serves(s.log[i], t.phase.at, t.phase.served);
      assert Genuine(s, i);
    }
  }
}
