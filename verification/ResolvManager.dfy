/**
 The commands of crates/dns-helper/src/resolvconf.rs as they are written, changing the files
 one operation at a time, and the helper's `run` (crates/dns-helper/src/main.rs) on top of
 them. Every method is proved to perform exactly the actions that module ResolvConf gives
 for its command, so the theorems there speak about these methods.
 */
module ResolvManager {
  import opened Wrappers
  import opened ResolvConf

  lemma ExecSnoc(d: Disk, ops: seq<Op>, op: Op)
    ensures Exec(d, ops + [op]) == Apply(Exec(d, ops), op)
  {
    ExecAppend(d, ops, [op]);
    assert Exec(Exec(d, ops), [op]) == Exec(Apply(Exec(d, ops), op), []);
  }

  lemma StepOps(d: Disk, done: seq<Action>, a: Action, chunks: nat)
    ensures Ops(done + [a], chunks) == Ops(done, chunks) + Expand(a, chunks)
    ensures Exec(d, Ops(done + [a], chunks)) == Exec(Exec(d, Ops(done, chunks)), Expand(a, chunks))
  {
    OpsAppend(done, [a], chunks);
    assert Ops([a], chunks) == Expand(a, chunks) + Ops([], chunks) == Expand(a, chunks);
    ExecAppend(d, Ops(done, chunks), Expand(a, chunks));
  }

  lemma FinishWrite(d: Disk, p: Path, c: Contents, chunks: nat)
    ensures var ops := Expand(Put(p, c), chunks);
            && ops == ops[..|ops| - 1] + [Rename(p)]
            && Exec(d, ops) == Apply(Exec(d, ops[..|ops| - 1]), Rename(p))
  {
    var ops := Expand(Put(p, c), chunks);
    assert ops == ops[..|ops| - 1] + [Rename(p)];
    ExecSnoc(d, ops[..|ops| - 1], Rename(p));
  }

  /** How one use of the helper ends, when no command is cut. */
  datatype Exit =
    | BadListenAddress
    | ResolverNotBuilt
    | BindFails
    | NoTakeover
    | SignalSetupFails
    | ServerPanics
    | ServerFails
    | Interrupted

  /** The process that the record on disk names. */
  function RecordedPid(f: Files): Option<nat> {
    if State in f && f[State].File? && f[State].contents.Json? then Some(f[State].contents.record.pid) else None
  }

  class Manager {
    const world: World
    var files: Files
    var temps: map<Path, Contents>
    /** Every operation performed, oldest first. */
    ghost var log: seq<Op>

    constructor (world: World, files: Files)
      ensures this.world == world && this.files == files && temps == map[] && log == []
    {
      this.world, this.files, temps, log := world, files, map[], [];
    }

    ghost function Snapshot(): Disk
      reads this
    {
      Disk(files, temps)
    }

    /** From `base` exactly the operations of `done` have run. */
    ghost predicate Reached(base: Disk, baseLog: seq<Op>, done: seq<Action>, chunks: nat)
      reads this
    {
      log == baseLog + Ops(done, chunks) && Snapshot() == Exec(base, Ops(done, chunks))
    }

    lemma ReachedFiles(base: Disk, baseLog: seq<Op>, done: seq<Action>, chunks: nat)
      requires Reached(base, baseLog, done, chunks)
      ensures files == Perform(base.files, done)
    {
      var ops := Ops(done, chunks);
      assert ops[..|ops|] == ops;
      CutRefinesActions(base, done, chunks, |ops|);
      assert done[..|done|] == done;
    }

    method WriteAtomic(p: Path, c: Contents, chunks: nat,
                       ghost base: Disk, ghost baseLog: seq<Op>, ghost done: seq<Action>)
      requires Reached(base, baseLog, done, chunks)
      modifies this
      ensures Reached(base, baseLog, done + [Put(p, c)], chunks)
      ensures files == old(files)[p := File(c)]
    {
      hide Exec, Ops, Expand;
      ghost var start := Snapshot();
      FillTemp(p, c, chunks);
      FinishWrite(start, p, c, chunks);
      StepOps(base, done, Put(p, c), chunks);
      files, temps := files[p := File(temps[p])], temps - {p};
      log := log + [Rename(p)];
    }

    /** Create the temporary file and write it, one chunk at a time. */
    method FillTemp(p: Path, c: Contents, chunks: nat)
      modifies this
      ensures files == old(files) && p in temps && temps[p] == c
      ensures var ops := Expand(Put(p, c), chunks);
              log == old(log) + ops[..|ops| - 1] && Snapshot() == Exec(old(Snapshot()), ops[..|ops| - 1])
    {
      ghost var ops := Expand(Put(p, c), chunks);
      ghost var start := Snapshot();
      for i := 0 to chunks + 1
        invariant files == old(files)
        invariant log == old(log) + ops[..i] && Snapshot() == Exec(start, ops[..i])
      {
        ExecSnoc(start, ops[..i], ops[i]);
        assert ops[..i + 1] == ops[..i] + [ops[i]];
        temps := temps[p := Torn(c, i)];
        log := log + [WriteTemp(p, Torn(c, i))];
      }
      ExecSnoc(start, ops[..chunks + 1], ops[chunks + 1]);
      assert ops[..chunks + 2] == ops[..chunks + 1] + [ops[chunks + 1]];
      temps := temps[p := c];
      log := log + [WriteTemp(p, c)];
    }

    method RemoveFile(p: Path, chunks: nat, ghost base: Disk, ghost baseLog: seq<Op>, ghost done: seq<Action>)
      requires Reached(base, baseLog, done, chunks)
      modifies this
      ensures Reached(base, baseLog, done + [Remove(p)], chunks)
      ensures files == old(files) - {p}
    {
      StepOps(base, done, Remove(p), chunks);
      ExecSnoc(Snapshot(), [], Unlink(p));
      files := files - {p};
      log := log + [Unlink(p)];
    }

    /** The caller has just removed whatever stood at `p`. */
    method MakeLink(p: Path, target: string, chunks: nat,
                    ghost base: Disk, ghost baseLog: seq<Op>, ghost done: seq<Action>)
      requires Reached(base, baseLog, done, chunks) && p !in files
      modifies this
      ensures Reached(base, baseLog, done + [LinkTo(p, target)], chunks)
      ensures files == old(files)[p := Link(target)]
    {
      StepOps(base, done, LinkTo(p, target), chunks);
      ExecSnoc(Snapshot(), [], Symlink(p, target));
      files := files[p := Link(target)];
      log := log + [Symlink(p, target)];
    }

    method Restore(chunks: nat, ghost base: Disk, ghost baseLog: seq<Op>, ghost done: seq<Action>)
      returns (r: Result<(), Error>)
      requires Reached(base, baseLog, done, chunks)
      modifies this
      ensures Reached(base, baseLog, done + RestoreActions(old(files)), chunks)
      ensures r.Ok? <==> RestoreSucceeds(old(files))
      ensures Backup !in old(files) ==> r == Err(NoBackup) && files == old(files) - {State}
      ensures r.Ok? ==> State !in files && Backup !in files
      ensures r.Err? ==> !r.error.AlreadyActive?
    {
      hide Reached;
      if Backup !in files {
        RemoveFile(State, chunks, base, baseLog, done);
        return Err(NoBackup);
      }
      if files[Backup].Link? {
        assert done + [] == done;
        return Err(Io);
      }
      var read := ReadState(files);
      var state := if read.Ok? then read.value else None;
      ghost var all := RestoreActions(files);
      ghost var acts := PutBack(state, files[Backup].contents, chunks, base, baseLog, done);
      if state.None? || state.value.wroteDropin {
        RemoveFile(DropIn, chunks, base, baseLog, done + acts);
        assert done + acts + [Remove(DropIn)] == done + (acts + [Remove(DropIn)]);
        acts := acts + [Remove(DropIn)];
      }
      RemoveFile(State, chunks, base, baseLog, done + acts);
      RemoveFile(Backup, chunks, base, baseLog, done + acts + [Remove(State)]);
      assert all == acts + [Remove(State), Remove(Backup)];
      assert done + acts + [Remove(State)] + [Remove(Backup)] == done + all;
      return Ok(());
    }

    /** Recreate the link that was recorded, or write the backed-up contents. */
    method PutBack(state: Option<TakeoverState>, contents: Contents, chunks: nat,
                   ghost base: Disk, ghost baseLog: seq<Op>, ghost done: seq<Action>)
      returns (ghost acts: seq<Action>)
      requires Reached(base, baseLog, done, chunks)
      modifies this
      ensures acts == if state.Some? && state.value.link.Some?
                      then [Remove(Resolv), LinkTo(Resolv, state.value.link.value)] else [Put(Resolv, contents)]
      ensures Reached(base, baseLog, done + acts, chunks)
      ensures files - {Resolv} == old(files) - {Resolv}
    {
      if state.Some? && state.value.link.Some? {
        var target := state.value.link.value;
        RemoveFile(Resolv, chunks, base, baseLog, done);
        MakeLink(Resolv, target, chunks, base, baseLog, done + [Remove(Resolv)]);
        acts := [Remove(Resolv), LinkTo(Resolv, target)];
        assert done + [Remove(Resolv)] + [LinkTo(Resolv, target)] == done + acts;
      } else {
        WriteAtomic(Resolv, contents, chunks, base, baseLog, done);
        acts := [Put(Resolv, contents)];
      }
    }

    method ReconcileAfterCrash(living: set<nat>, chunks: nat) returns (r: Result<Option<TakeoverState>, Error>)
      modifies this
      ensures Reached(old(Snapshot()), old(log), ReconcileActions(old(files), living), chunks)
      ensures r.Ok? ==> ReadState(old(files)) == r
      ensures r.Ok? <==> ReadState(old(files)).Ok? && (ReadState(old(files)).value.Some? ==>
                           !OwnerLives(old(files), living) && RestoreSucceeds(old(files)))
      ensures forall pid: nat :: r == Err(AlreadyActive(pid)) <==>
                RecordedPid(old(files)) == Some(pid) && pid != 0 && pid in living
      ensures r.Err? && r.error.AlreadyActive? ==> files == old(files)
    {
      ghost var base, baseLog := Snapshot(), log;
      var read := ReadState(files);
      if read.Err? { return Err(CorruptState); }
      if read.value.None? { return Ok(None); }
      if IsAlive(read.value.value.pid, living) { return Err(AlreadyActive(read.value.value.pid)); }
      var done := Restore(chunks, base, baseLog, []);
      assert [] + RestoreActions(old(files)) == RestoreActions(old(files));
      match done
      case Ok(_) => return Ok(read.value);
      case Err(e) => return Err(e);
    }

    method WriteNmDropin(chunks: nat, ghost base: Disk, ghost baseLog: seq<Op>, ghost done: seq<Action>)
      returns (wrote: bool)
      requires Reached(base, baseLog, done, chunks)
      modifies this
      ensures wrote <==> WritesDropin(world, old(files))
      ensures Reached(base, baseLog, done + (if wrote then [Put(DropIn, Text(world.dropin))] else []), chunks)
      ensures files == if wrote then old(files)[DropIn := File(Text(world.dropin))] else old(files)
    {
      assert done + [] == done;
      if !world.nmDir { return false; }
      if Exists(world, NodeAt(files, DropIn)) { return false; }
      WriteAtomic(DropIn, Text(world.dropin), chunks, base, baseLog, done);
      return true;
    }

    method TakeOver(e: Event) returns (r: Result<TakeoverState, Error>)
      requires e.cmd == ResolvConf.TakeOver
      modifies this
      ensures Reached(old(Snapshot()), old(log), TakeOverActions(world, old(files), e), e.chunks)
      ensures State !in old(files) ==> (r.Ok? <==> TextOf(world, NodeAt(old(files), Resolv)).Some?)
      ensures State !in old(files) && r.Ok? ==>
                && r.value.link == LinkOf(NodeAt(old(files), Resolv))
                && (r.value.wroteDropin <==> world.nmDir && !Exists(world, NodeAt(old(files), DropIn)))
      ensures r.Ok? ==>
                && r.value.pid == e.pid && r.value.takenOverAt == e.at
                && NodeAt(files, State) == Some(File(Json(r.value)))
                && NodeAt(files, Resolv) == Some(File(Text(world.header + e.listen + world.trailer)))
      ensures forall pid: nat :: r == Err(AlreadyActive(pid)) <==>
                RecordedPid(old(files)) == Some(pid) && pid != 0 && pid in e.living
    {
      ghost var base, baseLog := Snapshot(), log;
      ghost var done: seq<Action> := [];
      var read := ReadState(files);
      if read.Err? { return Err(CorruptState); }
      if read.value.Some? {
        if IsAlive(read.value.value.pid, e.living) { return Err(AlreadyActive(read.value.value.pid)); }
        var undone := Restore(e.chunks, base, baseLog, []);
        done := RestoreActions(old(files));
        assert [] + done == done && done + [] == done;
        if undone.Err? { return Err(undone.error); }
        ReachedFiles(base, baseLog, done, e.chunks);
      }
      assert done + FreshActions(world, files, e) == TakeOverActions(world, old(files), e);
      r := TakeOverFresh(e, base, baseLog, done);
    }

    method TakeOverFresh(e: Event, ghost base: Disk, ghost baseLog: seq<Op>, ghost done: seq<Action>)
      returns (r: Result<TakeoverState, Error>)
      requires Reached(base, baseLog, done, e.chunks)
      modifies this
      ensures Reached(base, baseLog, done + FreshActions(world, old(files), e), e.chunks)
      ensures r.Ok? <==> TextOf(world, NodeAt(old(files), Resolv)).Some?
      ensures r.Err? ==> r.error == Io
      ensures r.Ok? ==>
                && r.value.pid == e.pid && r.value.takenOverAt == e.at
                && r.value.link == LinkOf(NodeAt(old(files), Resolv))
                && (r.value.wroteDropin <==> world.nmDir && !Exists(world, NodeAt(old(files), DropIn)))
                && NodeAt(files, State) == Some(File(Json(r.value)))
                && NodeAt(files, Resolv) == Some(File(Text(world.header + e.listen + world.trailer)))
    {
      var link := LinkOf(NodeAt(files, Resolv));
      var original := TextOf(world, NodeAt(files, Resolv));
      if original.None? {
        assert done + [] == done;
        return Err(Io);
      }
      ghost var all := FreshActions(world, files, e);
      var backup := Text(original.value);
      WriteAtomic(Backup, backup, e.chunks, base, baseLog, done);
      ghost var acts := [Put(Backup, backup)];
      var wrote := WriteNmDropin(e.chunks, base, baseLog, done + acts);
      ghost var maybe := if wrote then [Put(DropIn, Text(world.dropin))] else [];
      assert done + acts + maybe == done + (acts + maybe);
      acts := acts + maybe;
      var state := TakeoverState(e.pid, e.at, link, wrote);
      WriteAtomic(State, Json(state), e.chunks, base, baseLog, done + acts);
      WriteAtomic(Resolv, Managed(world, e.listen), e.chunks, base, baseLog, done + acts + [Put(State, Json(state))]);
      assert all == acts + [Put(State, Json(state)), Put(Resolv, Managed(world, e.listen))];
      assert done + acts + [Put(State, Json(state))] + [Put(Resolv, Managed(world, e.listen))] == done + all;
      return Ok(state);
    }
  }

  // ---------------------------------------------------------------------- the helper

  /** The outcome of one uncut use of the helper. */
  ghost predicate Restored(o: Origin, f: Files) {
    State !in f && NodeAt(f, Resolv) == o.node && NodeAt(f, DropIn) == o.dropin
  }

  lemma RecordIsReadable(w: World, o: Origin, f: Files)
    requires Inv(w, o, f)
    ensures ReadState(f).Ok? && (ReadState(f).value.Some? <==> State in f)
    ensures State in f ==> RestoreSucceeds(f)
  {}

  lemma AliveOwnerStops(f: Files, living: set<nat>)
    requires ReadState(f).Ok? && (ReadState(f).value.Some? <==> State in f)
    ensures OwnerLives(f, living) ==> Perform(f, ReconcileActions(f, living)) == f
    ensures !OwnerLives(f, living) ==> ReconcileActions(f, living) == ReconcileActions(f, {})
    ensures OwnerLives(f, living) <==> RecordedPid(f).Some? && RecordedPid(f).value in living - {0}
  {}

  lemma ReconcileUncut(w: World, o: Origin, f: Files)
    requires Inv(w, o, f)
    ensures var g := Perform(f, ReconcileActions(f, {}));
            Inv(w, o, g) && Restored(o, g)
  {
    if State in f {
      var all := RestoreActions(f);
      assert all[..|all|] == all;
      RestoreWithRecord(w, o, f, |all|);
    } else {
      Unroll(f, []);
    }
  }

  /** What a whole takeover leaves to be put back: a dangling drop-in link has been written over. */
  function OriginTaken(w: World, o: Origin): Origin {
    if w.nmDir && !Exists(w, o.dropin) then o.(dropin := None) else o
  }

  lemma TakeOverUncut(w: World, o: Origin, f: Files, e: Event)
    requires Inv(w, o, f) && State !in f
    ensures var g := Perform(f, TakeOverActions(w, f, e));
            && (TextOf(w, o.node).Some? ==> Inv(w, OriginTaken(w, o), g))
            && (TextOf(w, o.node).Some? ==> State in g && IsManaged(w, NodeAt(g, Resolv)))
            && (TextOf(w, o.node).None? ==> g == f)
  {
    var all := FreshActions(w, f, e);
    assert all[..|all|] == all;
    FreshKeeps(w, o, f, e, |all|);
    if all == [] {
      Unroll(f, all);
    } else {
      var text := TextOf(w, o.node).value;
      if WritesDropin(w, f) { FateOfFour(w, f, e, text, 4); } else { FateOfThree(w, f, e, text, 3); }
      assert all[..|all|] == if WritesDropin(w, f) then FourPuts(w, f, e, text)[..4] else ThreePuts(w, f, e, text)[..3];
    }
  }

  lemma RestoreUncut(w: World, o: Origin, f: Files)
    requires Inv(w, o, f) && State in f
    ensures Inv(w, o, Perform(f, RestoreActions(f))) && Restored(o, Perform(f, RestoreActions(f)))
  {
    var all := RestoreActions(f);
    assert all[..|all|] == all;
    RestoreWithRecord(w, o, f, |all|);
  }

  /** The exits that a takeover precedes, and those of them that leave without a restore. */
  predicate TakesOver(exit: Exit) {
    exit in {SignalSetupFails, ServerPanics, ServerFails, Interrupted}
  }

  predicate SkipsRestore(exit: Exit) {
    exit in {SignalSetupFails, ServerPanics}
  }

  /**
   The effects of `run` on the files, from any state the protocol can leave, when no operation
   fails. A bad listen address or a living owner leaves them alone; every other exit ends restored,
   but for the two that skip the restore, which end recorded, hence recoverable.
   */
  method RunHelper(m: Manager, e: Event, exit: Exit, ghost o: Origin) returns (r: Result<(), Error>)
    requires e.cmd == TakeOver && Inv(m.world, o, m.files)
    modifies m
    ensures exit == BadListenAddress || OwnerLives(old(m.files), e.living) ==> r.Err? && m.files == old(m.files)
    ensures exit != BadListenAddress && OwnerLives(old(m.files), e.living) ==>
              RecordedPid(old(m.files)).Some? && r == Err(AlreadyActive(RecordedPid(old(m.files)).value))
    ensures !(exit == BadListenAddress || OwnerLives(old(m.files), e.living)) ==>
              var took := TakesOver(exit) && TextOf(m.world, o.node).Some?;
              var o' := if took then OriginTaken(m.world, o) else o;
              && Inv(m.world, o', m.files)
              && (if took && SkipsRestore(exit)
                  then r.Err? && State in m.files && IsManaged(m.world, NodeAt(m.files, Resolv))
                  else Restored(o', m.files))
    ensures r.Ok? ==> exit in {NoTakeover, Interrupted}
  {
    hide Inv, Perform, TakeOverActions, RestoreActions, ReconcileActions, ReadState, RestoreSucceeds, TextOf, IsManaged;
    RecordIsReadable(m.world, o, m.files);
    if exit == BadListenAddress { return Err(Io); }
    ghost var base, baseLog := m.Snapshot(), m.log;
    var reconciled := m.ReconcileAfterCrash(e.living, e.chunks);
    m.ReachedFiles(base, baseLog, ReconcileActions(old(m.files), e.living), e.chunks);
    AliveOwnerStops(old(m.files), e.living);
    if reconciled.Err? { return Err(reconciled.error); }
    ReconcileUncut(m.world, o, old(m.files));
    if TextOf(m.world, NodeAt(m.files, Resolv)).None? { return Err(Io); }
    if exit == ResolverNotBuilt || exit == BindFails { return Err(Io); }
    if exit == NoTakeover { return Ok(()); }

    base, baseLog := m.Snapshot(), m.log;
    ghost var before := m.files;
    var taken := m.TakeOver(e);
    m.ReachedFiles(base, baseLog, TakeOverActions(m.world, before, e), e.chunks);
    TakeOverUncut(m.world, o, before, e);
    // A takeover of a readable file fails only where an operation does; those are the cuts.
    assert taken.Ok?;
    if exit == SignalSetupFails || exit == ServerPanics { return Err(Io); }

    base, baseLog := m.Snapshot(), m.log;
    before := m.files;
    assert m.Reached(base, baseLog, [], e.chunks);
    var restored := m.Restore(e.chunks, base, baseLog, []);
    assert [] + RestoreActions(before) == RestoreActions(before);
    m.ReachedFiles(base, baseLog, RestoreActions(before), e.chunks);
    RestoreUncut(m.world, OriginTaken(m.world, o), before);
    RecordIsReadable(m.world, OriginTaken(m.world, o), before);
    if exit == ServerFails || restored.Err? { return Err(Io); }
    return Ok(());
  }
}
