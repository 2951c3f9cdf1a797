/**
 Crash-safe takeover of `/etc/resolv.conf` (crates/dns-helper/src/resolvconf.rs).

 The four files of the protocol are a small file system. Each command is a program of
 actions (put a file atomically, remove one, create a link); each action expands into
 single file operations, and a process may die between any two of them. What the code
 would put back at a given moment is tracked as an `Origin`.
 */
module ResolvConf {
  import opened Wrappers

  // ------------------------------------------------------------ the file system

  datatype Path = Resolv | Backup | State | DropIn

  datatype TakeoverState = TakeoverState(pid: nat, takenOverAt: nat, link: Option<string>, wroteDropin: bool)

  /** `Torn` is the beginning of a file whose write has not finished. */
  datatype Contents = Text(body: string) | Json(record: TakeoverState) | Torn(whole: Contents, chunks: nat)

  datatype Node = File(contents: Contents) | Link(target: string)

  type Files = map<Path, Node>

  /** The files under their own names, and the temporary file beside each of them. */
  datatype Disk = Disk(files: Files, temps: map<Path, Contents>)

  /**
   What the protocol reads but never changes: the texts behind links, the other link targets that
   are there, whether NetworkManager's directory is there, the fixed drop-in text, and the fixed
   text around the listen address.
   */
  datatype World = World(
    targets: map<string, string>, unreadable: set<string>, nmDir: bool, dropin: string, header: string, trailer: string)

  /** The file that points resolution at the local proxy. */
  function Managed(w: World, listen: string): Contents {
    Text(w.header + listen + w.trailer)
  }

  function NodeAt(f: Files, p: Path): Option<Node> {
    if p in f then Some(f[p]) else None
  }

  /** Reading through a node, following a link. */
  function TextOf(w: World, n: Option<Node>): Option<string> {
    match n
    case Some(File(Text(body))) => Some(body)
    case Some(Link(t)) => if t in w.targets then Some(w.targets[t]) else None
    case _ => None
  }

  /** `Path::exists`: a file, or a link that leads somewhere. */
  predicate Exists(w: World, n: Option<Node>) {
    match n
    case None => false
    case Some(File(_)) => true
    case Some(Link(t)) => t in w.targets || t in w.unreadable
  }

  function LinkOf(n: Option<Node>): Option<string> {
    match n
    case Some(Link(t)) => Some(t)
    case _ => None
  }

  datatype Error = AlreadyActive(pid: nat) | CorruptState | NoBackup | Io

  function ReadState(f: Files): Result<Option<TakeoverState>, Error> {
    match NodeAt(f, State)
    case None => Ok(None)
    case Some(File(Json(r))) => Ok(Some(r))
    case _ => Err(CorruptState)
  }

  // ------------------------------------------------- single operations, and actions

  datatype Op = WriteTemp(path: Path, contents: Contents) | Rename(path: Path) | Unlink(path: Path) |
                Symlink(path: Path, target: string)

  function Apply(d: Disk, op: Op): Disk {
    match op
    case WriteTemp(p, c) => d.(temps := d.temps[p := c])
    case Rename(p) => if p in d.temps then Disk(d.files[p := File(d.temps[p])], d.temps - {p}) else d
    case Unlink(p) => d.(files := d.files - {p})
    case Symlink(p, t) => if p in d.files then d else d.(files := d.files[p := Link(t)])
  }

  function Exec(d: Disk, ops: seq<Op>): Disk
    decreases |ops|
  {
    if ops == [] then d else Exec(Apply(d, ops[0]), ops[1..])
  }

  datatype Action = Put(path: Path, contents: Contents) | Remove(path: Path) | LinkTo(path: Path, target: string)

  function Act(f: Files, a: Action): Files {
    match a
    case Put(p, c) => f[p := File(c)]
    case Remove(p) => f - {p}
    case LinkTo(p, t) => if p in f then f else f[p := Link(t)]
  }

  function Perform(f: Files, actions: seq<Action>): Files
    decreases |actions|
  {
    if actions == [] then f else Perform(Act(f, actions[0]), actions[1..])
  }

  /** The temporary file is created empty and filled in `chunks` writes. */
  function TornWrites(p: Path, c: Contents, chunks: nat): seq<Op> {
    seq(chunks + 1, i requires 0 <= i => WriteTemp(p, Torn(c, i)))
  }

  /** `write_atomic` creates and fills the temporary file, completes it, and renames it. */
  function Expand(a: Action, chunks: nat): seq<Op> {
    match a
    case Put(p, c) => TornWrites(p, c, chunks) + [WriteTemp(p, c), Rename(p)]
    case Remove(p) => [Unlink(p)]
    case LinkTo(p, t) => [Symlink(p, t)]
  }

  function Ops(actions: seq<Action>, chunks: nat): seq<Op> {
    if actions == [] then [] else Expand(actions[0], chunks) + Ops(actions[1..], chunks)
  }

  /** How many actions are complete once `k` operations have run. */
  function Completed(actions: seq<Action>, chunks: nat, k: nat): (j: nat)
    ensures j <= |actions|
  {
    if actions == [] || k < |Expand(actions[0], chunks)| then 0
    else 1 + Completed(actions[1..], chunks, k - |Expand(actions[0], chunks)|)
  }

  lemma {:induction false} ExecAppend(d: Disk, a: seq<Op>, b: seq<Op>)
    ensures Exec(d, a + b) == Exec(Exec(d, a), b)
    decreases |a|
  {
    if a == [] {
      assert a + b == b;
    } else {
      assert (a + b)[1..] == a[1..] + b;
      ExecAppend(Apply(d, a[0]), a[1..], b);
    }
  }

  lemma {:induction false} OpsAppend(a: seq<Action>, b: seq<Action>, chunks: nat)
    ensures Ops(a + b, chunks) == Ops(a, chunks) + Ops(b, chunks)
  {
    if a == [] {
      assert a + b == b;
    } else {
      assert (a + b)[1..] == a[1..] + b;
      OpsAppend(a[1..], b, chunks);
    }
  }

  lemma {:induction false} PerformAppend(f: Files, a: seq<Action>, b: seq<Action>)
    ensures Perform(f, a + b) == Perform(Perform(f, a), b)
    decreases |a|
  {
    if a == [] {
      assert a + b == b;
    } else {
      assert (a + b)[1..] == a[1..] + b;
      PerformAppend(Act(f, a[0]), a[1..], b);
    }
  }

  lemma {:induction false} TempWritesKeepFiles(d: Disk, ops: seq<Op>)
    requires forall i :: 0 <= i < |ops| ==> ops[i].WriteTemp?
    ensures Exec(d, ops).files == d.files
    decreases |ops|
  {
    if ops != [] {
      TempWritesKeepFiles(Apply(d, ops[0]), ops[1..]);
    }
  }

  /** One action: a reader sees the old files until the last operation, and then the new ones. */
  lemma ExpandIsAtomic(d: Disk, a: Action, chunks: nat, k: nat)
    requires k <= |Expand(a, chunks)|
    ensures Exec(d, Expand(a, chunks)[..k]).files ==
            if k < |Expand(a, chunks)| then d.files else Act(d.files, a)
  {
    match a
    case Put(p, c) => PutIsAtomic(d, p, c, chunks, k);
    case Remove(p) => SingleIsAtomic(d, Unlink(p), k);
    case LinkTo(p, t) => SingleIsAtomic(d, Symlink(p, t), k);
  }

  lemma SingleIsAtomic(d: Disk, op: Op, k: nat)
    requires k <= 1
    ensures Exec(d, [op][..k]) == if k < 1 then d else Apply(d, op)
  {}

  lemma PutIsAtomic(d: Disk, p: Path, c: Contents, chunks: nat, k: nat)
    requires k <= chunks + 3
    ensures Exec(d, (TornWrites(p, c, chunks) + [WriteTemp(p, c), Rename(p)])[..k]).files ==
            if k < chunks + 3 then d.files else d.files[p := File(c)]
  {
    hide Apply, Exec;
    var torn, last := TornWrites(p, c, chunks), [WriteTemp(p, c), Rename(p)];
    var ops := torn + last;
    if k < |ops| {
      TempWritesKeepFiles(d, ops[..k]);
    } else {
      assert ops[..k] == torn + last;
      ExecAppend(d, torn, last);
      TempWritesKeepFiles(d, torn);
      FinishesPut(Exec(d, torn), p, c);
    }
  }

  lemma ExecSingle(d: Disk, op: Op)
    ensures Exec(d, [op]) == Apply(d, op)
  {}

  lemma FinishesPut(d: Disk, p: Path, c: Contents)
    ensures Exec(d, [WriteTemp(p, c), Rename(p)]).files == d.files[p := File(c)]
  {
    var last := [WriteTemp(p, c), Rename(p)];
    assert last[1..] == [Rename(p)];
    assert Exec(d, last) == Exec(Apply(d, last[0]), [Rename(p)]);
    ExecSingle(Apply(d, last[0]), Rename(p));
  }

  /**
   Operations refine actions: after any number of operations the files are exactly those
   left by the completed actions.
   */
  lemma {:induction false} CutRefinesActions(d: Disk, actions: seq<Action>, chunks: nat, k: nat)
    requires k <= |Ops(actions, chunks)|
    ensures Exec(d, Ops(actions, chunks)[..k]).files ==
            Perform(d.files, actions[..Completed(actions, chunks, k)])
    ensures k == |Ops(actions, chunks)| ==> Completed(actions, chunks, k) == |actions|
    decreases |actions|
  {
    if actions != [] {
      var first, rest := Expand(actions[0], chunks), Ops(actions[1..], chunks);
      if k < |first| {
        assert (first + rest)[..k] == first[..k];
        ExpandIsAtomic(d, actions[0], chunks, k);
      } else {
        assert (first + rest)[..k] == first + rest[..k - |first|];
        ExecAppend(d, first, rest[..k - |first|]);
        assert first[..|first|] == first;
        ExpandIsAtomic(d, actions[0], chunks, |first|);
        CutRefinesActions(Exec(d, first), actions[1..], chunks, k - |first|);
        var j := Completed(actions, chunks, k);
        assert actions[..j][1..] == actions[1..][..j - 1];
      }
    }
  }

  // ------------------------------------------------------------------- the commands

  datatype Command = TakeOver | Restore | Reconcile

  /**
   One use of a command by process `pid`, while the processes `living` live; the process dies (or
   an operation fails) after `cut` operations.
   */
  datatype Event = Event(
    cmd: Command, living: set<nat>, pid: nat, at: nat, listen: string, chunks: nat, cut: nat)

  /** `process_is_alive`: zero is nobody. */
  predicate IsAlive(pid: nat, living: set<nat>) {
    pid != 0 && pid in living
  }

  /** There is a readable record, and the process that wrote it lives. */
  predicate OwnerLives(f: Files, living: set<nat>) {
    match ReadState(f)
    case Ok(Some(r)) => IsAlive(r.pid, living)
    case _ => false
  }

  function RestoreActions(f: Files): seq<Action> {
    if Backup !in f then [Remove(State)]
    else if f[Backup].Link? then []
    else
      var state := match ReadState(f) case Ok(s) => s case Err(_) => None;
      (if state.Some? && state.value.link.Some?
       then [Remove(Resolv), LinkTo(Resolv, state.value.link.value)]
       else [Put(Resolv, f[Backup].contents)]) +
      (if state.None? || state.value.wroteDropin then [Remove(DropIn)] else []) +
      [Remove(State), Remove(Backup)]
  }

  predicate WritesDropin(w: World, f: Files) {
    w.nmDir && !Exists(w, NodeAt(f, DropIn))
  }

  function Record(w: World, f: Files, e: Event): TakeoverState {
    TakeoverState(e.pid, e.at, LinkOf(NodeAt(f, Resolv)), WritesDropin(w, f))
  }

  /** A takeover from files that hold no state record. */
  function FreshActions(w: World, f: Files, e: Event): seq<Action> {
    match TextOf(w, NodeAt(f, Resolv))
    case None => []
    case Some(original) =>
      [Put(Backup, Text(original))] +
      (if WritesDropin(w, f) then [Put(DropIn, Text(w.dropin))] else []) +
      [Put(State, Json(Record(w, f, e))), Put(Resolv, Managed(w, e.listen))]
  }

  /** `restore` reports success exactly when there is a readable backup. */
  predicate RestoreSucceeds(f: Files) {
    Backup in f && f[Backup].File?
  }

  function TakeOverActions(w: World, f: Files, e: Event): seq<Action> {
    match ReadState(f)
    case Err(_) => []
    case Ok(None) => FreshActions(w, f, e)
    case Ok(Some(r)) =>
      if IsAlive(r.pid, e.living) then []
      else RestoreActions(f) +
           (if RestoreSucceeds(f) then FreshActions(w, Perform(f, RestoreActions(f)), e) else [])
  }

  function ReconcileActions(f: Files, living: set<nat>): seq<Action> {
    match ReadState(f)
    case Ok(Some(r)) => if IsAlive(r.pid, living) then [] else RestoreActions(f)
    case _ => []
  }

  function Actions(w: World, f: Files, e: Event): seq<Action> {
    match e.cmd
    case TakeOver => TakeOverActions(w, f, e)
    case Restore => RestoreActions(f)
    case Reconcile => ReconcileActions(f, e.living)
  }

  function Cut(w: World, d: Disk, e: Event): (k: nat)
    ensures k <= |Ops(Actions(w, d.files, e), e.chunks)|
  {
    var n := |Ops(Actions(w, d.files, e), e.chunks)|;
    if e.cut < n then e.cut else n
  }

  function After(w: World, d: Disk, e: Event): Disk {
    Exec(d, Ops(Actions(w, d.files, e), e.chunks)[..Cut(w, d, e)])
  }

  /** The actions an event completed before it was cut. */
  function Done(w: World, d: Disk, e: Event): seq<Action> {
    Actions(w, d.files, e)[..Completed(Actions(w, d.files, e), e.chunks, Cut(w, d, e))]
  }

  lemma AfterIsDone(w: World, d: Disk, e: Event)
    ensures After(w, d, e).files == Perform(d.files, Done(w, d, e))
    ensures Cut(w, d, e) == |Ops(Actions(w, d.files, e), e.chunks)| ==> Done(w, d, e) == Actions(w, d.files, e)
  {
    CutRefinesActions(d, Actions(w, d.files, e), e.chunks, Cut(w, d, e));
  }

  /** A run: any number of commands, each cut anywhere, recovery included. */
  function Run(w: World, d: Disk, es: seq<Event>): Disk
    decreases |es|
  {
    if es == [] then d else Run(w, After(w, d, es[0]), es[1..])
  }

  // ------------------------------------------------------------------ the invariant

  /** What the protocol treats as the user's own resolv.conf and drop-in. */
  datatype Origin = Origin(node: Option<Node>, dropin: Option<Node>)

  function OurDropin(w: World): Node {
    File(Text(w.dropin))
  }

  ghost predicate IsManaged(w: World, n: Option<Node>) {
    n.Some? && n.value.File? && exists listen :: n.value.contents == Managed(w, listen)
  }

  ghost predicate RecordFits(w: World, o: Origin, f: Files, r: TakeoverState) {
    && r.link == LinkOf(o.node)
    && (NodeAt(f, Resolv) == o.node || IsManaged(w, NodeAt(f, Resolv)) || (Resolv !in f && r.link.Some?))
    && (if r.wroteDropin then o.dropin == None && (DropIn in f ==> f[DropIn] == OurDropin(w))
        else NodeAt(f, DropIn) == o.dropin)
  }

  /**
   Holds between any two operations: a state record comes with a backup of the original,
   and without a record both user files are in place.
   */
  ghost predicate Inv(w: World, o: Origin, f: Files) {
    && (o.node.Some? && o.node.value.File? ==> o.node.value.contents.Text?)
    && (Backup in f ==> TextOf(w, o.node).Some? && f[Backup] == File(Text(TextOf(w, o.node).value)))
    && (State in f ==>
          && Backup in f && f[State].File? && f[State].contents.Json?
          && RecordFits(w, o, f, f[State].contents.record))
    && (State !in f ==> NodeAt(f, Resolv) == o.node && NodeAt(f, DropIn) == o.dropin)
  }

  /** A cut after the drop-in was written and before the state record was. */
  predicate InDropinWindow(w: World, done: seq<Action>) {
    Put(DropIn, Text(w.dropin)) in done && forall a <- done :: !(a.Put? && a.path == State)
  }

  /** A `restore` that finds a backup but no state record. */
  predicate StrayRestore(f: Files, e: Event) {
    e.cmd == Restore && Backup in f && State !in f
  }

  /**
   What becomes of the user's drop-in. `Adopted`: ours is left and counts as the user's.
   `Forgotten`: recovery leaves none.
   */
  datatype Fate = Kept | Adopted | Forgotten

  /** A takeover that writes the drop-in owns it once the record says so, and not before. */
  function TakeoverFate(w: World, done: seq<Action>): Fate {
    if Put(DropIn, Text(w.dropin)) !in done then Kept
    else if InDropinWindow(w, done) then Adopted else Forgotten
  }

  function DropinFate(w: World, d: Disk, e: Event): Fate {
    if e.cmd == TakeOver then TakeoverFate(w, Done(w, d, e))
    else if StrayRestore(d.files, e) && Remove(DropIn) in Done(w, d, e) then Forgotten
    else Kept
  }

  function Befall(w: World, fate: Fate, dropin: Option<Node>): Option<Node> {
    match fate
    case Kept => dropin
    case Adopted => Some(OurDropin(w))
    case Forgotten => None
  }

  /** What the protocol treats as the user's files after an event. */
  function OriginAfter(w: World, o: Origin, d: Disk, e: Event): Origin {
    Origin(if StrayRestore(d.files, e) && |Done(w, d, e)| >= 1 then Some(d.files[Backup]) else o.node,
           Befall(w, DropinFate(w, d, e), o.dropin))
  }

  function RunOrigin(w: World, o: Origin, d: Disk, es: seq<Event>): Origin
    decreases |es|
  {
    if es == [] then o else RunOrigin(w, OriginAfter(w, o, d, es[0]), After(w, d, es[0]), es[1..])
  }

  // -------------------------------------------- every prefix of every command keeps it

  lemma Unroll(f: Files, a: seq<Action>)
    ensures |a| == 0 ==> Perform(f, a) == f
    ensures |a| == 1 ==> Perform(f, a) == Act(f, a[0])
    ensures |a| == 2 ==> Perform(f, a) == Act(Act(f, a[0]), a[1])
    ensures |a| == 3 ==> Perform(f, a) == Act(Act(Act(f, a[0]), a[1]), a[2])
    ensures |a| == 4 ==> Perform(f, a) == Act(Act(Act(Act(f, a[0]), a[1]), a[2]), a[3])
    ensures |a| == 5 ==> Perform(f, a) == Act(Act(Act(Act(Act(f, a[0]), a[1]), a[2]), a[3]), a[4])
  {
    if 1 <= |a| {
      PerformAppend(f, a[..|a| - 1], [a[|a| - 1]]);
      assert a == a[..|a| - 1] + [a[|a| - 1]];
      Unroll(f, a[..|a| - 1]);
    }
  }

  /** `restore` with a record: the invariant at every cut, and at the end everything is back. */
  lemma RestoreWithRecord(w: World, o: Origin, f: Files, j: nat)
    requires Inv(w, o, f) && State in f && j <= |RestoreActions(f)|
    ensures Inv(w, o, Perform(f, RestoreActions(f)[..j]))
    ensures j == |RestoreActions(f)| ==>
              Backup !in Perform(f, RestoreActions(f)) && State !in Perform(f, RestoreActions(f))
  {
    Unroll(f, RestoreActions(f)[..j]);
    assert j == |RestoreActions(f)| ==> RestoreActions(f)[..j] == RestoreActions(f);
  }

  /** The takeover program spelled out, when it writes the drop-in and when it does not. */
  function FourPuts(w: World, f: Files, e: Event, text: string): seq<Action> {
    [Put(Backup, Text(text)), Put(DropIn, Text(w.dropin)), Put(State, Json(Record(w, f, e))),
     Put(Resolv, Managed(w, e.listen))]
  }

  function ThreePuts(w: World, f: Files, e: Event, text: string): seq<Action> {
    [Put(Backup, Text(text)), Put(State, Json(Record(w, f, e))), Put(Resolv, Managed(w, e.listen))]
  }

  lemma FourPutsKeep(w: World, o: Origin, f: Files, e: Event, text: string, j: nat)
    requires Inv(w, o, f) && State !in f && WritesDropin(w, f) && TextOf(w, NodeAt(f, Resolv)) == Some(text) && j <= 4
    ensures Inv(w, o.(dropin := if j < 2 then o.dropin else if j == 2 then Some(OurDropin(w)) else None),
                Perform(f, FourPuts(w, f, e, text)[..j]))
  {
    hide Perform;
    var all := FourPuts(w, f, e, text);
    Unroll(f, all[..j]);
    assert forall i :: 0 <= i < j ==> all[..j][i] == all[i];
  }

  lemma ThreePutsKeep(w: World, o: Origin, f: Files, e: Event, text: string, j: nat)
    requires Inv(w, o, f) && State !in f && !WritesDropin(w, f) && TextOf(w, NodeAt(f, Resolv)) == Some(text) && j <= 3
    ensures Inv(w, o, Perform(f, ThreePuts(w, f, e, text)[..j]))
  {
    hide Perform;
    var all := ThreePuts(w, f, e, text);
    Unroll(f, all[..j]);
    assert forall i :: 0 <= i < j ==> all[..j][i] == all[i];
  }

  lemma FateOfFour(w: World, f: Files, e: Event, text: string, j: nat)
    requires j <= 4
    ensures TakeoverFate(w, FourPuts(w, f, e, text)[..j]) ==
            if j < 2 then Kept else if j == 2 then Adopted else Forgotten
  {
    var all := FourPuts(w, f, e, text);
    if j >= 2 { assert all[..j][1] == all[1]; }
    if j >= 3 { assert all[..j][2] == all[2]; }
  }

  lemma FateOfThree(w: World, f: Files, e: Event, text: string, j: nat)
    requires j <= 3
    ensures TakeoverFate(w, ThreePuts(w, f, e, text)[..j]) == Kept
  {}

  lemma TakenOver(w: World, f: Files, e: Event)
    requires FreshActions(w, f, e) != []
    ensures var g := Perform(f, FreshActions(w, f, e));
            IsManaged(w, NodeAt(g, Resolv)) && State in g
  {
    Unroll(f, FreshActions(w, f, e));
  }

  lemma NothingDone(w: World, done: seq<Action>)
    requires done == []
    ensures TakeoverFate(w, done) == Kept
  {}

  lemma FreshKeeps(w: World, o: Origin, f: Files, e: Event, j: nat)
    requires Inv(w, o, f) && State !in f && j <= |FreshActions(w, f, e)|
    ensures var done := FreshActions(w, f, e)[..j];
            Inv(w, o.(dropin := Befall(w, TakeoverFate(w, done), o.dropin)), Perform(f, done))
    ensures FreshActions(w, f, e) != [] && j == |FreshActions(w, f, e)| ==>
              var g := Perform(f, FreshActions(w, f, e));
              IsManaged(w, NodeAt(g, Resolv)) && State in g
  {
    hide Inv, Perform, TextOf, IsManaged, TakeoverFate, WritesDropin;
    var all := FreshActions(w, f, e);
    var text := TextOf(w, NodeAt(f, Resolv));
    if text.None? {
      Unroll(f, all[..j]);
      NothingDone(w, all[..j]);
    } else {
      TakenOver(w, f, e);
      if WritesDropin(w, f) {
        assert all == FourPuts(w, f, e, text.value);
        FourPutsKeep(w, o, f, e, text.value, j);
        FateOfFour(w, f, e, text.value, j);
      } else {
        assert all == ThreePuts(w, f, e, text.value);
        ThreePutsKeep(w, o, f, e, text.value, j);
        FateOfThree(w, f, e, text.value, j);
      }
    }
  }

  /** The original is backed up before a takeover changes anything else. */
  lemma BackedUpFirst(w: World, f: Files, e: Event, j: nat, p: Path)
    requires j <= |FreshActions(w, f, e)| && p != Backup
    requires NodeAt(Perform(f, FreshActions(w, f, e)[..j]), p) != NodeAt(f, p)
    ensures var original := TextOf(w, NodeAt(f, Resolv));
            original.Some? && NodeAt(Perform(f, FreshActions(w, f, e)[..j]), Backup) == Some(File(Text(original.value)))
  {
    Unroll(f, FreshActions(w, f, e)[..j]);
  }

  lemma StrayRestoreKeeps(w: World, o: Origin, f: Files, j: nat)
    requires Inv(w, o, f) && State !in f && Backup in f && j <= |RestoreActions(f)|
    ensures var done := RestoreActions(f)[..j];
            Inv(w, Origin(if j >= 1 then Some(f[Backup]) else o.node, if j >= 2 then None else o.dropin),
                Perform(f, done)) &&
            (Remove(DropIn) in done <==> j >= 2)
  {
    var done := RestoreActions(f)[..j];
    Unroll(f, done);
    assert RestoreActions(f) == [Put(Resolv, f[Backup].contents), Remove(DropIn), Remove(State), Remove(Backup)];
    if j >= 2 { assert done[1] == Remove(DropIn); }
  }

  lemma NoDropinPutInRestore(f: Files)
    ensures forall a <- RestoreActions(f) :: a.Put? ==> a.path == Resolv
  {}

  lemma FateIgnoresUndo(w: World, undo: seq<Action>, more: seq<Action>)
    requires forall a <- undo :: a.Put? ==> a.path == Resolv
    ensures TakeoverFate(w, undo + more) == TakeoverFate(w, more)
    ensures forall j :: 0 <= j <= |undo| ==> TakeoverFate(w, undo[..j]) == Kept
  {}

  lemma TakeOverKeeps(w: World, o: Origin, f: Files, e: Event, j: nat)
    requires Inv(w, o, f) && j <= |TakeOverActions(w, f, e)|
    ensures var done := TakeOverActions(w, f, e)[..j];
            Inv(w, o.(dropin := Befall(w, TakeoverFate(w, done), o.dropin)), Perform(f, done))
  {
    hide Perform, TakeoverFate, FreshActions, RestoreActions;
    if State !in f {
      FreshKeeps(w, o, f, e, j);
    } else if OwnerLives(f, e.living) {
      Unroll(f, []);
      FateIgnoresUndo(w, [], []);
      assert TakeOverActions(w, f, e)[..j] == [][..0];
    } else {
      StaleKeeps(w, o, f, e, j);
    }
  }

  lemma StaleKeeps(w: World, o: Origin, f: Files, e: Event, j: nat)
    requires Inv(w, o, f) && State in f && !OwnerLives(f, e.living) && j <= |TakeOverActions(w, f, e)|
    ensures var done := TakeOverActions(w, f, e)[..j];
            Inv(w, o.(dropin := Befall(w, TakeoverFate(w, done), o.dropin)), Perform(f, done))
  {
    hide Perform, TakeoverFate, FreshActions, RestoreActions;
    var undo, done := RestoreActions(f), TakeOverActions(w, f, e)[..j];
    NoDropinPutInRestore(f);
    if j <= |undo| {
      assert done == undo[..j];
      FateIgnoresUndo(w, undo, []);
      RestoreWithRecord(w, o, f, j);
    } else {
      var g := Perform(f, undo);
      assert undo[..|undo|] == undo;
      RestoreWithRecord(w, o, f, |undo|);
      var more := FreshActions(w, g, e)[..j - |undo|];
      assert done == undo + more;
      PerformAppend(f, undo, more);
      FreshKeeps(w, o, g, e, j - |undo|);
      FateIgnoresUndo(w, undo, more);
    }
  }

  /** One event, cut anywhere, keeps the invariant for the origin it leaves. */
  lemma EventKeepsInvariant(w: World, o: Origin, d: Disk, e: Event)
    requires Inv(w, o, d.files)
    ensures Inv(w, OriginAfter(w, o, d, e), After(w, d, e).files)
  {
    AfterIsDone(w, d, e);
    var done := Done(w, d, e);
    match e.cmd
    case TakeOver =>
      TakeOverKeeps(w, o, d.files, e, |done|);
    case Reconcile =>
      if State in d.files && !OwnerLives(d.files, e.living) {
        RestoreWithRecord(w, o, d.files, |done|);
      }
    case Restore =>
      if State in d.files {
        RestoreWithRecord(w, o, d.files, |done|);
      } else if Backup in d.files {
        StrayRestoreKeeps(w, o, d.files, |done|);
      } else {
        Unroll(d.files, done);
      }
  }

  // ------------------------------------------------------------- whole-run theorems

  lemma {:induction false} RunKeepsInvariant(w: World, o: Origin, d: Disk, es: seq<Event>)
    requires Inv(w, o, d.files)
    ensures Inv(w, RunOrigin(w, o, d, es), Run(w, d, es).files)
    decreases |es|
  {
    if es != [] {
      EventKeepsInvariant(w, o, d, es[0]);
      RunKeepsInvariant(w, OriginAfter(w, o, d, es[0]), After(w, d, es[0]), es[1..]);
    }
  }

  /** No takeover has left anything behind. */
  ghost predicate Untouched(o: Origin, d: Disk) {
    && (o.node.Some? && o.node.value.File? ==> o.node.value.contents.Text?)
    && Backup !in d.files && State !in d.files
    && NodeAt(d.files, Resolv) == o.node && NodeAt(d.files, DropIn) == o.dropin
  }

  /** A reconcile that is not cut, with the recorded owner dead. */
  ghost predicate Uncut(w: World, d: Disk, e: Event) {
    e.cmd == Reconcile && !OwnerLives(d.files, e.living) && |Ops(Actions(w, d.files, e), e.chunks)| <= e.cut
  }

  /** Reconciling puts back what the protocol treats as the user's, whatever came before. */
  lemma ReconcileRecovers(w: World, o: Origin, d: Disk, e: Event)
    requires Inv(w, o, d.files) && Uncut(w, d, e)
    ensures var f := After(w, d, e).files;
            NodeAt(f, Resolv) == o.node && NodeAt(f, DropIn) == o.dropin && State !in f
  {
    AfterIsDone(w, d, e);
    if State in d.files {
      var all := RestoreActions(d.files);
      assert all[..|all|] == all;
      RestoreWithRecord(w, o, d.files, |all|);
    } else {
      Unroll(d.files, Done(w, d, e));
    }
  }

  lemma {:induction false} RunKeepsText(w: World, o: Origin, d: Disk, es: seq<Event>)
    requires Inv(w, o, d.files)
    ensures TextOf(w, RunOrigin(w, o, d, es).node) == TextOf(w, o.node)
    decreases |es|
  {
    if es != [] {
      EventKeepsInvariant(w, o, d, es[0]);
      RunKeepsText(w, OriginAfter(w, o, d, es[0]), After(w, d, es[0]), es[1..]);
    }
  }

  /**
   Crash recovery over every run: one uninterrupted reconcile leaves no state record and a
   resolv.conf that reads as it did before the first takeover.
   */
  lemma CrashRecovery(w: World, o: Origin, d: Disk, es: seq<Event>, e: Event)
    requires Untouched(o, d) && Uncut(w, Run(w, d, es), e)
    ensures var f := After(w, Run(w, d, es), e).files;
            && State !in f
            && TextOf(w, NodeAt(f, Resolv)) == TextOf(w, o.node)
            && NodeAt(f, Resolv) == RunOrigin(w, o, d, es).node
            && NodeAt(f, DropIn) == RunOrigin(w, o, d, es).dropin
  {
    RunKeepsInvariant(w, o, d, es);
    ReconcileRecovers(w, RunOrigin(w, o, d, es), Run(w, d, es), e);
    RunKeepsText(w, o, d, es);
  }

  /**
   Exactly which events change what is treated as the user's: a stray restore replaces a link by a
   file and forgets a drop-in; a takeover that writes the drop-in adopts its own when it is cut
   before the record, and otherwise forgets a dangling link that stood there. It never writes where
   the user has a drop-in that exists.
   */
  lemma OriginChangesExactly(w: World, o: Origin, d: Disk, e: Event)
    requires Inv(w, o, d.files)
    ensures OriginAfter(w, o, d, e).node != o.node <==>
              StrayRestore(d.files, e) && |Done(w, d, e)| >= 1 && LinkOf(o.node).Some?
    ensures OriginAfter(w, o, d, e).dropin != o.dropin <==>
              || (StrayRestore(d.files, e) && |Done(w, d, e)| >= 2 && o.dropin.Some?)
              || (PutsDropinIn(w, d, e) && (InDropinWindow(w, Done(w, d, e)) || o.dropin.Some?))
    ensures PutsDropinIn(w, d, e) ==> w.nmDir && !Exists(w, o.dropin)
    ensures DropinFate(w, d, e) == Adopted ==> PutsDropinIn(w, d, e)
  {
    var done := Done(w, d, e);
    if StrayRestore(d.files, e) {
      StrayRestoreKeeps(w, o, d.files, |done|);
    } else if PutsDropinIn(w, d, e) {
      PutMeansNoDropin(w, o, d.files, e, |done|);
    }
  }

  /** The event is a takeover that got as far as writing the drop-in. */
  predicate PutsDropinIn(w: World, d: Disk, e: Event) {
    e.cmd == TakeOver && Put(DropIn, Text(w.dropin)) in Done(w, d, e)
  }

  /** The drop-in is written only where the user has none that exists. */
  lemma PutMeansNoDropin(w: World, o: Origin, f: Files, e: Event, j: nat)
    requires Inv(w, o, f) && j <= |TakeOverActions(w, f, e)|
    requires Put(DropIn, Text(w.dropin)) in TakeOverActions(w, f, e)[..j]
    ensures w.nmDir && !Exists(w, o.dropin)
  {
    if State !in f {
      assert WritesDropin(w, f);
    } else {
      var undo := RestoreActions(f);
      NoDropinPutInRestore(f);
      assert undo[..|undo|] == undo;
      RestoreWithRecord(w, o, f, |undo|);
      assert Put(DropIn, Text(w.dropin)) in FreshActions(w, Perform(f, undo), e);
    }
  }

  /** Some takeover of the run was cut between the drop-in write and the state write. */
  ghost predicate HitsWindow(w: World, d: Disk, es: seq<Event>)
    decreases |es|
  {
    es != [] && (DropinFate(w, d, es[0]) == Adopted || HitsWindow(w, After(w, d, es[0]), es[1..]))
  }

  /** Some takeover of the run wrote the drop-in. */
  ghost predicate PutsDropin(w: World, d: Disk, es: seq<Event>)
    decreases |es|
  {
    es != [] && (PutsDropinIn(w, d, es[0]) || PutsDropin(w, After(w, d, es[0]), es[1..]))
  }

  /** No `restore` of the run finds a backup without a record. */
  ghost predicate NoStrayRestore(w: World, d: Disk, es: seq<Event>)
    decreases |es|
  {
    es == [] || (!StrayRestore(d.files, es[0]) && NoStrayRestore(w, After(w, d, es[0]), es[1..]))
  }

  /** Some stray restore of the run got as far as writing resolv.conf. */
  ghost predicate StrayRewrites(w: World, d: Disk, es: seq<Event>)
    decreases |es|
  {
    es != [] &&
    ((StrayRestore(d.files, es[0]) && |Done(w, d, es[0])| >= 1) || StrayRewrites(w, After(w, d, es[0]), es[1..]))
  }

  /** The last event of a run that did something to the drop-in decides. */
  function RunFate(w: World, d: Disk, es: seq<Event>): Fate
    decreases |es|
  {
    if es == [] then Kept else
    var later := RunFate(w, After(w, d, es[0]), es[1..]);
    if later != Kept then later else DropinFate(w, d, es[0])
  }

  /**
   Every run, stray restores included: the node comes back if and only if it was no link or no stray
   restore rewrote it, and the drop-in is what its last fate made of it.
   */
  lemma {:induction false} RunOriginExactly(w: World, o: Origin, d: Disk, es: seq<Event>)
    requires Inv(w, o, d.files)
    ensures RunOrigin(w, o, d, es).node == o.node <==> !(LinkOf(o.node).Some? && StrayRewrites(w, d, es))
    ensures RunOrigin(w, o, d, es).dropin == o.dropin <==>
              (match RunFate(w, d, es)
               case Kept => true
               case Adopted => o.dropin == Some(OurDropin(w))
               case Forgotten => o.dropin == None)
    ensures RunOrigin(w, o, d, es).dropin == Befall(w, RunFate(w, d, es), o.dropin)
    decreases |es|
  {
    hide Inv, After, Done, DropinFate, OurDropin;
    if es != [] {
      EventKeepsInvariant(w, o, d, es[0]);
      OriginChangesExactly(w, o, d, es[0]);
      StrayNodeIsFile(w, o, d, es[0]);
      RunOriginExactly(w, OriginAfter(w, o, d, es[0]), After(w, d, es[0]), es[1..]);
    }
  }

  lemma StrayNodeIsFile(w: World, o: Origin, d: Disk, e: Event)
    requires Inv(w, o, d.files)
    ensures StrayRestore(d.files, e) ==> LinkOf(Some(d.files[Backup])) == None
  {}

  /**
   Without stray restores the very node comes back, link or file. The drop-in ends as it began
   exactly when no takeover was cut in the window and none replaced a dangling link; one that
   exists always survives.
   */
  lemma {:induction false} RunKeepsOrigin(w: World, o: Origin, d: Disk, es: seq<Event>)
    requires Inv(w, o, d.files) && NoStrayRestore(w, d, es)
    ensures RunOrigin(w, o, d, es).node == o.node
    ensures RunOrigin(w, o, d, es).dropin == o.dropin <==>
              !HitsWindow(w, d, es) && (o.dropin.Some? ==> !PutsDropin(w, d, es))
    ensures Exists(w, o.dropin) || !w.nmDir ==> !PutsDropin(w, d, es) && !HitsWindow(w, d, es)
    ensures HitsWindow(w, d, es) ==> RunOrigin(w, o, d, es).dropin == Some(OurDropin(w))
    decreases |es|
  {
    hide Inv, OriginAfter, After, Done, InDropinWindow, DropinFate, PutsDropinIn;
    if es != [] {
      EventKeepsInvariant(w, o, d, es[0]);
      OriginChangesExactly(w, o, d, es[0]);
      FateWithoutStray(w, o, d, es[0]);
      RunKeepsOrigin(w, OriginAfter(w, o, d, es[0]), After(w, d, es[0]), es[1..]);
    }
  }

  lemma FateWithoutStray(w: World, o: Origin, d: Disk, e: Event)
    requires !StrayRestore(d.files, e)
    ensures OriginAfter(w, o, d, e).node == o.node
    ensures OriginAfter(w, o, d, e).dropin ==
            if !PutsDropinIn(w, d, e) then o.dropin
            else if DropinFate(w, d, e) == Adopted then Some(OurDropin(w)) else None
    ensures DropinFate(w, d, e) == Adopted ==> PutsDropinIn(w, d, e)
  {}

  // ------------------------------------------------------------- whose takeover it is

  /** A file of the protocol after some actions: as it was, or as one of them put or linked it. */
  lemma {:induction false} ComesFrom(f: Files, actions: seq<Action>, p: Path)
    requires forall a <- actions :: a.LinkTo? ==> a.path != p
    ensures var g := Perform(f, actions);
            p in g ==> (exists a :: a in actions && a.Put? && a.path == p && g[p] == File(a.contents)) ||
                       ((forall a <- actions :: a.Put? ==> a.path != p) && p in f && g[p] == f[p])
    decreases |actions|
  {
    if actions != [] {
      ComesFrom(Act(f, actions[0]), actions[1..], p);
      assert actions[0] in actions && forall a <- actions[1..] :: a in actions;
      assert forall a <- actions :: a == actions[0] || a in actions[1..];
    }
  }

  /** The event is a takeover that got as far as writing its record. */
  ghost predicate PutsRecord(w: World, d: Disk, e: Event) {
    exists a :: a in Done(w, d, e) && a.Put? && a.path == State
  }

  /** The process that wrote a record, and when. */
  datatype Writer = Writer(pid: nat, at: nat)

  /** Who wrote the last record of a run, and when: read off the events, not off the files. */
  ghost function LastWriter(w: World, d: Disk, es: seq<Event>, was: Option<Writer>): Option<Writer>
    decreases |es|
  {
    if es == [] then was
    else LastWriter(w, After(w, d, es[0]), es[1..],
                    if PutsRecord(w, d, es[0]) then Some(Writer(es[0].pid, es[0].at)) else was)
  }

  /** The record, if there is one, is that takeover's. */
  ghost predicate RecordIs(f: Files, who: Option<Writer>) {
    State in f ==> who.Some? && f[State].File? && f[State].contents.Json? &&
                   f[State].contents.record.pid == who.value.pid && f[State].contents.record.takenOverAt == who.value.at
  }

  ghost predicate NamesWriter(a: Action, e: Event) {
    && (a.LinkTo? ==> a.path != State)
    && (a.Put? && a.path == State ==>
          a.contents.Json? && a.contents.record.pid == e.pid && a.contents.record.takenOverAt == e.at)
  }

  lemma FreshNamesTheWriter(w: World, f: Files, e: Event)
    ensures forall a <- FreshActions(w, f, e) :: NamesWriter(a, e)
  {
    hide TextOf, WritesDropin, Managed, LinkOf;
  }

  lemma RestoreNamesNobody(f: Files, e: Event)
    ensures forall a <- RestoreActions(f) :: NamesWriter(a, e)
  {}

  /** Every record that a command writes carries the process and the time of that command. */
  lemma RecordsNameTheWriter(w: World, f: Files, e: Event)
    ensures forall a <- Actions(w, f, e) :: NamesWriter(a, e)
  {
    hide FreshActions, RestoreActions, NamesWriter, ReadState, IsAlive, RestoreSucceeds, Perform;
    FreshNamesTheWriter(w, f, e);
    RestoreNamesNobody(f, e);
    FreshNamesTheWriter(w, Perform(f, RestoreActions(f)), e);
  }

  lemma EventNamesTaker(w: World, d: Disk, e: Event, was: Option<Writer>)
    requires RecordIs(d.files, was)
    ensures RecordIs(After(w, d, e).files, if PutsRecord(w, d, e) then Some(Writer(e.pid, e.at)) else was)
  {
    hide Actions, Perform;
    var done := Done(w, d, e);
    AfterIsDone(w, d, e);
    RecordsNameTheWriter(w, d.files, e);
    assert forall a <- done :: a in Actions(w, d.files, e);
    ComesFrom(d.files, done, State);
  }

  lemma {:induction false} RunNamesTaker(w: World, d: Disk, es: seq<Event>, was: Option<Writer>)
    requires RecordIs(d.files, was)
    ensures RecordIs(Run(w, d, es).files, LastWriter(w, d, es, was))
    decreases |es|
  {
    hide After, RecordIs, PutsRecord;
    if es != [] {
      EventNamesTaker(w, d, es[0], was);
      RunNamesTaker(w, After(w, d, es[0]), es[1..],
                    if PutsRecord(w, d, es[0]) then Some(Writer(es[0].pid, es[0].at)) else was);
    }
  }

  /**
   Crash detection over every run: the record is that of the last takeover that wrote one. While
   that process lives, neither a start nor a takeover touches any file; once it is gone, or when
   there is no record, one uninterrupted reconcile recovers.
   */
  lemma CrashIsDetected(w: World, o: Origin, d: Disk, es: seq<Event>, e: Event)
    requires Untouched(o, d) && e.cmd != Restore
    ensures var f, who := Run(w, d, es).files, LastWriter(w, d, es, None);
            State in f ==>
              && who.Some? && ReadState(f).Ok? && ReadState(f).value.Some?
              && ReadState(f).value.value.pid == who.value.pid
              && ReadState(f).value.value.takenOverAt == who.value.at
              && (who.value.pid != 0 && who.value.pid in e.living ==> After(w, Run(w, d, es), e) == Run(w, d, es))
    ensures var d1, who := Run(w, d, es), LastWriter(w, d, es, None);
            e.cmd == Reconcile && (State in d1.files ==> who.value.pid !in e.living) &&
            |Ops(Actions(w, d1.files, e), e.chunks)| <= e.cut ==>
              && State !in After(w, d1, e).files
              && TextOf(w, NodeAt(After(w, d1, e).files, Resolv)) == TextOf(w, o.node)
  {
    var d1 := Run(w, d, es);
    RunNamesTaker(w, d, es, None);
    if OwnerLives(d1.files, e.living) {
      NothingPerformed(w, d1, e);
    } else if e.cmd == Reconcile && |Ops(Actions(w, d1.files, e), e.chunks)| <= e.cut {
      CrashRecovery(w, o, d, es, e);
    }
  }

  /** A living owner stops starts and takeovers. */
  lemma NothingPerformed(w: World, d: Disk, e: Event)
    requires OwnerLives(d.files, e.living) && e.cmd != Restore
    ensures After(w, d, e) == d
  {
    assert Actions(w, d.files, e) == [];
    assert Exec(d, []) == d;
  }

  /**
   A takeover holds: after a whole one by process `e.pid`, as long as that process lives, no number
   of starts and takeovers by others changes anything, and resolv.conf names its listen address; the
   first whole start that finds it dead puts the user's text back.
   */
  lemma TakeoverHolds(w: World, o: Origin, d: Disk, e: Event, es: seq<Event>, last: Event)
    requires Untouched(o, d) && TextOf(w, o.node).Some? && e.pid != 0
    requires e.cmd == TakeOver && |Ops(Actions(w, d.files, e), e.chunks)| <= e.cut
    requires forall x <- es :: x.cmd != Restore && e.pid in x.living
    ensures var d1 := After(w, d, e);
            && NodeAt(d1.files, Resolv) == Some(File(Text(w.header + e.listen + w.trailer)))
            && Run(w, d1, es) == d1
            && (last.cmd == Reconcile && e.pid !in last.living &&
                |Ops(Actions(w, d1.files, last), last.chunks)| <= last.cut ==>
                  State !in After(w, d1, last).files && NodeAt(After(w, d1, last).files, Resolv) == o.node)
  {
    hide After, Inv, RunOrigin, Cut, Perform;
    var d1 := After(w, d, e);
    var all := FreshActions(w, d.files, e);
    assert all[..|all|] == all;
    assert Cut(w, d, e) == |Ops(Actions(w, d.files, e), e.chunks)| by { UncutCut(w, d, e); }
    AfterIsDone(w, d, e);
    WholeTakeover(w, d.files, e);
    LivingOwnerHolds(w, d1, es, e.pid);
    assert [e][1..] == [] && Run(w, d, [e]) == d1;
    UntouchedIsInv(w, o, d);
    TakeoverKeepsNode(w, o, d, e);
    if last.cmd == Reconcile && e.pid !in last.living && |Ops(Actions(w, d1.files, last), last.chunks)| <= last.cut {
      CrashRecovery(w, o, d, [e], last);
    }
  }

  lemma TakeoverKeepsNode(w: World, o: Origin, d: Disk, e: Event)
    requires e.cmd == TakeOver
    ensures RunOrigin(w, o, d, [e]).node == o.node
  {
    hide After;
    assert [e][1..] == [];
  }

  lemma WholeTakeover(w: World, f: Files, e: Event)
    requires FreshActions(w, f, e) != []
    ensures var g := Perform(f, FreshActions(w, f, e));
            && NodeAt(g, Resolv) == Some(File(Text(w.header + e.listen + w.trailer)))
            && ReadState(g).Ok? && ReadState(g).value.Some? && ReadState(g).value.value.pid == e.pid
  {
    Unroll(f, FreshActions(w, f, e));
  }

  lemma {:induction false} LivingOwnerHolds(w: World, d: Disk, es: seq<Event>, pid: nat)
    requires ReadState(d.files).Ok? && ReadState(d.files).value.Some?
    requires ReadState(d.files).value.value.pid == pid != 0
    requires forall x <- es :: x.cmd != Restore && pid in x.living
    ensures Run(w, d, es) == d
    decreases |es|
  {
    hide After;
    if es != [] {
      assert es[0] in es;
      NothingPerformed(w, d, es[0]);
      LivingOwnerHolds(w, d, es[1..], pid);
    }
  }

  // ---------------------------------------------- the drop-in and the link: failing inputs

  lemma UntouchedIsInv(w: World, o: Origin, d: Disk)
    requires Untouched(o, d)
    ensures Inv(w, o, d.files)
  {}

  /** A takeover cut exactly after its first `n` atomic writes. */
  lemma {:induction false} CutAfterPuts(actions: seq<Action>, chunks: nat, n: nat)
    requires n <= |actions| && forall a <- actions :: a.Put?
    ensures n * (chunks + 3) <= |Ops(actions, chunks)| && Completed(actions, chunks, n * (chunks + 3)) == n
    decreases |actions|
  {
    if n > 0 {
      CutAfterPuts(actions[1..], chunks, n - 1);
      assert n * (chunks + 3) == (n - 1) * (chunks + 3) + (chunks + 3);
    } else if actions != [] {
      assert |Expand(actions[0], chunks)| == chunks + 3;
    }
  }

  lemma DoneAfterPuts(w: World, o: Origin, d: Disk, e: Event, n: nat)
    requires Untouched(o, d) && TextOf(w, o.node).Some? && e.cmd == TakeOver && e.cut == n * (e.chunks + 3)
    requires n <= |FreshActions(w, d.files, e)|
    ensures Done(w, d, e) == FreshActions(w, d.files, e)[..n]
  {
    CutAfterPuts(FreshActions(w, d.files, e), e.chunks, n);
  }

  /**
   Orphan drop-in: from an untouched disk without one, a takeover cut right after its second write
   leaves ours, and every later run without stray restores, ended by a reconcile, keeps it.
   */
  lemma OrphanDropinStays(w: World, o: Origin, d: Disk, e: Event, es: seq<Event>, last: Event)
    requires Untouched(o, d) && w.nmDir && o.dropin == None && TextOf(w, o.node).Some?
    requires e.cmd == TakeOver && e.cut == 2 * (e.chunks + 3)
    requires NoStrayRestore(w, After(w, d, e), es) && Uncut(w, Run(w, d, [e] + es), last)
    ensures NodeAt(After(w, Run(w, d, [e] + es), last).files, DropIn) == Some(OurDropin(w))
  {
    hide After, Inv, Uncut, RunOrigin;
    var text := TextOf(w, o.node).value;
    assert FreshActions(w, d.files, e) == FourPuts(w, d.files, e, text);
    DoneAfterPuts(w, o, d, e, 2);
    FateOfFour(w, d.files, e, text, 2);
    assert DropinFate(w, d, e) == Adopted;
    assert ([e] + es)[1..] == es;
    UntouchedIsInv(w, o, d);
    RunKeepsOrigin(w, o, d, [e] + es);
    CrashRecovery(w, o, d, [e] + es, last);
  }

  /**
   Stray restore: a takeover cut right after the backup, and then `restore`: the user's link becomes
   a file and the user's drop-in is gone.
   */
  lemma StrayRestoreLoses(w: World, o: Origin, d: Disk, e1: Event, e2: Event)
    requires Untouched(o, d) && LinkOf(o.node).Some? && TextOf(w, o.node).Some? && o.dropin.Some?
    requires e1.cmd == TakeOver && e1.cut == e1.chunks + 3
    requires e2.cmd == Restore
    requires |Ops(Actions(w, After(w, d, e1).files, e2), e2.chunks)| <= e2.cut
    ensures var f := Run(w, d, [e1, e2]).files;
            NodeAt(f, Resolv) == Some(File(Text(TextOf(w, o.node).value))) && NodeAt(f, DropIn) == None
  {
    hide After, Cut, Perform;
    var text := TextOf(w, o.node).value;
    var d1 := After(w, d, e1);
    DoneAfterPuts(w, o, d, e1, 1);
    var first := FreshActions(w, d.files, e1)[..1];
    assert first == [Put(Backup, Text(text))];
    AfterIsDone(w, d, e1);
    Unroll(d.files, first);
    assert d1.files == d.files[Backup := File(Text(text))];
    StrayRestoreFinishes(w, d1, e2);
    assert [e1, e2][1..] == [e2] && [e2][1..] == [];
    assert Run(w, d1, [e2]) == After(w, d1, e2);
  }

  lemma StrayRestoreFinishes(w: World, d: Disk, e: Event)
    requires StrayRestore(d.files, e) && RestoreSucceeds(d.files)
    requires |Ops(Actions(w, d.files, e), e.chunks)| <= e.cut
    ensures NodeAt(After(w, d, e).files, Resolv) == Some(d.files[Backup])
    ensures NodeAt(After(w, d, e).files, DropIn) == None
  {
    AfterIsDone(w, d, e);
    Unroll(d.files, RestoreActions(d.files));
  }

  /**
   Dangling drop-in: `exists` follows links, so a takeover writes over a link that leads nowhere,
   and the recovery removes what it wrote.
   */
  lemma DanglingDropinIsLost(w: World, o: Origin, d: Disk, e1: Event, e2: Event)
    requires Untouched(o, d) && TextOf(w, o.node).Some? && w.nmDir && o.dropin.Some? && !Exists(w, o.dropin)
    requires e1.cmd == TakeOver && |Ops(Actions(w, d.files, e1), e1.chunks)| <= e1.cut
    requires Uncut(w, Run(w, d, [e1]), e2)
    ensures NodeAt(After(w, Run(w, d, [e1]), e2).files, DropIn) == None
  {
    hide After, Inv, Uncut, Cut;
    var text := TextOf(w, o.node).value;
    var all := FourPuts(w, d.files, e1, text);
    assert FreshActions(w, d.files, e1) == all && all[..4] == all;
    assert Cut(w, d, e1) == |Ops(Actions(w, d.files, e1), e1.chunks)| by { UncutCut(w, d, e1); }
    AfterIsDone(w, d, e1);
    FateOfFour(w, d.files, e1, text, 4);
    assert [e1][1..] == [];
    assert RunOrigin(w, o, d, [e1]) == OriginAfter(w, o, d, e1);
    CrashRecovery(w, o, d, [e1], e2);
  }

  lemma UncutCut(w: World, d: Disk, e: Event)
    requires |Ops(Actions(w, d.files, e), e.chunks)| <= e.cut
    ensures Cut(w, d, e) == |Ops(Actions(w, d.files, e), e.chunks)|
  {}

  // ------------------------------------------------------------- what every state shows

  /**
   In every reachable state: a record implies a backup of the original, resolv.conf points at
   the proxy only while recorded, the backup never holds our own file, and the record parses.
   */
  lemma ReachableIsRecorded(w: World, o: Origin, d: Disk, es: seq<Event>)
    requires Untouched(o, d)
    requires !IsManaged(w, o.node) && forall listen :: TextOf(w, o.node) != Some(Managed(w, listen).body)
    ensures var f := Run(w, d, es).files;
            && ReadState(f).Ok?
            && (IsManaged(w, NodeAt(f, Resolv)) ==> State in f)
            && (State in f ==> Backup in f)
            && (Backup in f ==> TextOf(w, o.node).Some? && f[Backup] == File(Text(TextOf(w, o.node).value)))
            && !IsManaged(w, NodeAt(f, Backup))
  {
    RunKeepsInvariant(w, o, d, es);
    RunKeepsText(w, o, d, es);
  }

  lemma RestoreAbsence(w: World, o: Origin, f: Files, j: nat)
    requires Inv(w, o, f) && State in f && Resolv in f && j <= |RestoreActions(f)|
    ensures Resolv !in Perform(f, RestoreActions(f)[..j]) <==> j == 1 && RestoreActions(f)[0] == Remove(Resolv)
    ensures Resolv !in Perform(f, RestoreActions(f)[..j]) ==>
              State in Perform(f, RestoreActions(f)[..j]) && LinkOf(o.node).Some?
  {
    Unroll(f, RestoreActions(f)[..j]);
  }

  lemma FreshPresence(w: World, f: Files, e: Event, j: nat)
    requires Resolv in f && j <= |FreshActions(w, f, e)|
    ensures Resolv in Perform(f, FreshActions(w, f, e)[..j])
  {
    Unroll(f, FreshActions(w, f, e)[..j]);
  }

  lemma StaleTakeOverPresence(w: World, o: Origin, f: Files, e: Event, j: nat)
    requires Inv(w, o, f) && State in f && !OwnerLives(f, e.living)
    requires |RestoreActions(f)| < j <= |TakeOverActions(w, f, e)|
    ensures Resolv in Perform(f, TakeOverActions(w, f, e)[..j])
  {
    var undo, done := RestoreActions(f), TakeOverActions(w, f, e)[..j];
    assert undo[..|undo|] == undo;
    RestoreWithRecord(w, o, f, |undo|);
    var g := Perform(f, undo);
    var more := FreshActions(w, g, e)[..j - |undo|];
    assert done == undo + more;
    PerformAppend(f, undo, more);
    FreshPresence(w, g, e, j - |undo|);
  }

  /**
   resolv.conf disappears exactly when a restore of a link is cut between its removal and the
   creation of the link; the record is then still there, so the next reconcile recreates it.
   */
  lemma AbsentExactly(w: World, o: Origin, d: Disk, e: Event)
    requires Inv(w, o, d.files) && Resolv in d.files
    ensures Resolv !in After(w, d, e).files <==>
              |Done(w, d, e)| == 1 && Done(w, d, e)[0] == Remove(Resolv)
    ensures Resolv !in After(w, d, e).files ==> State in After(w, d, e).files && LinkOf(o.node).Some?
  {
    hide After, Perform, Cut;
    AfterIsDone(w, d, e);
    var f, done := d.files, Done(w, d, e);
    if done == [] {
      Unroll(f, done);
    } else if State in f {
      var undo := RestoreActions(f);
      if |done| <= |undo| {
        assert done == undo[..|done|];
        RestoreAbsence(w, o, f, |done|);
      } else {
        StaleTakeOverPresence(w, o, f, e, |done|);
      }
    } else if e.cmd == TakeOver {
      FreshPresence(w, f, e, |done|);
    } else {
      Unroll(f, done);
    }
  }

  /**
   "Never without a resolver" fails for every linked resolv.conf: take over, die, and die again
   one operation into the recovery.
   */
  lemma LinkRestoreCanLeaveNothing(w: World, o: Origin, d: Disk, e1: Event, e2: Event)
    requires Untouched(o, d) && LinkOf(o.node).Some? && TextOf(w, o.node).Some?
    requires e1.cmd == TakeOver && |Ops(Actions(w, d.files, e1), e1.chunks)| <= e1.cut
    requires e2.cmd == Reconcile && e1.pid !in e2.living && e2.cut == 1
    ensures Resolv !in Run(w, d, [e1, e2]).files
  {
    hide After, Perform, Cut, Inv, OriginAfter;
    var d1 := After(w, d, e1);
    assert [e1, e2][1..] == [e2] && [e2][1..] == [];
    assert Run(w, d1, [e2]) == After(w, d1, e2);
    TakeOverRecordsLink(w, o, d, e1);
    var undo := RestoreActions(d1.files);
    assert undo[0] == Remove(Resolv);
    assert Ops(undo, e2.chunks) == [Unlink(Resolv)] + Ops(undo[1..], e2.chunks);
    FirstOpOnly(w, d1, e2);
  }

  lemma FirstOpOnly(w: World, d: Disk, e: Event)
    requires e.cut == 1 && Actions(w, d.files, e) != [] && Actions(w, d.files, e)[0] == Remove(Resolv)
    ensures Resolv !in After(w, d, e).files
  {
    var all := Actions(w, d.files, e);
    var ops := Ops(all, e.chunks);
    assert ops == [Unlink(Resolv)] + Ops(all[1..], e.chunks);
    assert ops[..1] == [Unlink(Resolv)];
    assert Exec(d, [Unlink(Resolv)]) == Exec(Apply(d, Unlink(Resolv)), []);
  }

  lemma TakeOverRecordsLink(w: World, o: Origin, d: Disk, e: Event)
    requires Untouched(o, d) && LinkOf(o.node).Some? && TextOf(w, o.node).Some?
    requires e.cmd == TakeOver && |Ops(Actions(w, d.files, e), e.chunks)| <= e.cut
    ensures var f := After(w, d, e).files;
            && Backup in f && f[Backup].File?
            && ReadState(f).Ok? && ReadState(f).value.Some? && ReadState(f).value.value.link == LinkOf(o.node)
            && ReadState(f).value.value.pid == e.pid
  {
    AfterIsDone(w, d, e);
    Unroll(d.files, Done(w, d, e));
  }
}
