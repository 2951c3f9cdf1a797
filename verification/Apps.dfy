/**
 How an app that already runs is moved into the slice with all its children: the closure over
 a snapshot of the process table (crates/dns-helper/src/apps.rs) and the repeat-until-stable
 loop of `attach` (crates/dns-helper/src/main.rs).
 */
module Apps {
  import opened Strings
  import opened Wrappers

  type Pid = nat

  /** One row of the process table. */
  datatype Process = Process(pid: Pid, ppid: Pid)

  // ----------------------------------------------------------------- reachability

  /** Each process of the chain is a child of the one before it. */
  ghost predicate IsChain(table: seq<Process>, chain: seq<Pid>) {
    forall i :: 0 <= i < |chain| - 1 ==> Process(chain[i + 1], chain[i]) in table
  }

  ghost predicate ChainTo(roots: seq<Pid>, table: seq<Process>, chain: seq<Pid>, p: Pid) {
    chain != [] && IsChain(table, chain) && chain[0] in roots && chain[|chain| - 1] == p
  }

  /** A root, or something below one. */
  ghost predicate Reachable(roots: seq<Pid>, table: seq<Process>, p: Pid) {
    exists chain :: ChainTo(roots, table, chain, p)
  }

  lemma RootIsReachable(roots: seq<Pid>, table: seq<Process>, p: Pid)
    requires p in roots
    ensures Reachable(roots, table, p)
  {
    assert ChainTo(roots, table, [p], p);
  }

  lemma ChildIsReachable(roots: seq<Pid>, table: seq<Process>, parent: Pid, child: Pid)
    requires Reachable(roots, table, parent) && Process(child, parent) in table
    ensures Reachable(roots, table, child)
  {
    var chain :| ChainTo(roots, table, chain, parent);
    assert ChainTo(roots, table, chain + [child], child);
  }

  /** `out` holds the children of everything in its first `n` places. */
  ghost predicate ClosedUpTo(table: seq<Process>, out: seq<Pid>, n: nat)
    requires n <= |out|
  {
    forall k, row :: 0 <= k < n && row in table && row.ppid == out[k] ==> row.pid in out
  }

  lemma {:induction false} ClosedHoldsChains(
      roots: seq<Pid>, table: seq<Process>, out: seq<Pid>, chain: seq<Pid>, p: Pid)
    requires ClosedUpTo(table, out, |out|) && (forall r <- roots :: r in out)
    requires ChainTo(roots, table, chain, p)
    ensures p in out
    decreases |chain|
  {
    if |chain| > 1 {
      var parent := chain[|chain| - 2];
      assert ChainTo(roots, table, chain[..|chain| - 1], parent);
      ClosedHoldsChains(roots, table, out, chain[..|chain| - 1], parent);
      assert Process(chain[|chain| - 1], chain[|chain| - 2]) in table;
      var k :| 0 <= k < |out| && out[k] == parent;
      assert Process(p, parent).ppid == out[k];
    }
  }

  lemma ClosedHoldsReachable(roots: seq<Pid>, table: seq<Process>, out: seq<Pid>, p: Pid)
    requires ClosedUpTo(table, out, |out|) && (forall r <- roots :: r in out) && Reachable(roots, table, p)
    ensures p in out
  {
    var chain :| ChainTo(roots, table, chain, p);
    ClosedHoldsChains(roots, table, out, chain, p);
  }

  lemma NothingToClose(table: seq<Process>, out: seq<Pid>)
    ensures ClosedUpTo(table, out, 0)
  {}

  lemma ClosedStep(table: seq<Process>, before: seq<Pid>, out: seq<Pid>, i: nat)
    requires before <= out && i < |before| && ClosedUpTo(table, before, i)
    requires forall row <- table :: row.ppid == before[i] ==> row.pid in out
    ensures ClosedUpTo(table, out, i + 1)
  {}

  // ------------------------------------------------------------------ the worklist

  ghost function Pids(table: seq<Process>): set<Pid> {
    set row | row in table :: row.pid
  }

  ghost function Unseen(table: seq<Process>, out: seq<Pid>): set<Pid> {
    set p | p in Pids(table) && p !in out
  }

  lemma Shrinks(table: seq<Process>, before: seq<Pid>, out: seq<Pid>)
    requires before <= out && forall i :: |before| <= i < |out| ==> out[i] in Unseen(table, before)
    ensures out == before || Unseen(table, out) < Unseen(table, before)
  {
    assert forall p <- before :: p in out;
    if |before| < |out| {
      assert out[|before|] in Unseen(table, before) && out[|before|] !in Unseen(table, out);
    }
  }

  /** Nothing is listed twice beyond what the caller listed twice. */
  ghost predicate NewOnce(roots: seq<Pid>, out: seq<Pid>) {
    |roots| <= |out| && forall i :: |roots| <= i < |out| ==> out[i] !in out[..i]
  }

  /**
   `descendants` terminates on every table, cyclic ones included, and returns exactly the roots
   and everything reachable from them by child links, the roots first.
   */
  method Descendants(roots: seq<Pid>, table: seq<Process>) returns (out: seq<Pid>)
    ensures forall p :: p in out <==> Reachable(roots, table, p)
    ensures roots <= out && NewOnce(roots, out)
  {
    hide Reachable, Unseen, ClosedUpTo;
    out := roots;
    var i := 0;
    assert ClosedUpTo(table, out, 0) by { NothingToClose(table, out); }
    forall p | p in roots ensures Reachable(roots, table, p) { RootIsReachable(roots, table, p); }
    while i < |out|
      invariant 0 <= i <= |out| && roots <= out && NewOnce(roots, out)
      invariant forall p <- out :: Reachable(roots, table, p)
      invariant ClosedUpTo(table, out, i)
      decreases Unseen(table, out), |out| - i
    {
      ghost var before := out;
      out := AddChildren(roots, table, out, out[i]);
      Shrinks(table, before, out);
      ClosedStep(table, before, out, i);
      i := i + 1;
    }
    forall p | Reachable(roots, table, p) ensures p in out {
      ClosedHoldsReachable(roots, table, out, p);
    }
  }

  /** The inner loop: one pass over the table for one parent. */
  method AddChildren(ghost roots: seq<Pid>, table: seq<Process>, seen: seq<Pid>, parent: Pid) returns (out: seq<Pid>)
    requires (forall p <- seen :: Reachable(roots, table, p)) && parent in seen && NewOnce(roots, seen)
    ensures seen <= out && NewOnce(roots, out)
    ensures forall p <- out :: Reachable(roots, table, p)
    ensures forall i :: |seen| <= i < |out| ==> out[i] in Unseen(table, seen)
    ensures forall row <- table :: row.ppid == parent ==> row.pid in out
  {
    out := seen;
    for n := 0 to |table|
      invariant seen <= out && NewOnce(roots, out)
      invariant forall p <- out :: Reachable(roots, table, p)
      invariant forall i :: |seen| <= i < |out| ==> out[i] in Unseen(table, seen)
      invariant forall m :: 0 <= m < n && table[m].ppid == parent ==> table[m].pid in out
    {
      var row := table[n];
      if row.ppid == parent && row.pid !in out {
        assert row == Process(row.pid, parent) && row in table;
        ChildIsReachable(roots, table, parent, row.pid);
        assert row.pid in Pids(table);
        ghost var was := out;
        out := out + [row.pid];
        assert forall i :: |roots| <= i < |was| ==> out[..i] == was[..i];
        assert out[..|was|] == was;
      }
    }
  }

  // ------------------------------------------------------------- reading /proc/<pid>/stat

  /** The end of the first word. */
  function WordEnd(s: string): (n: nat)
    ensures n <= |s| && (n < |s| ==> IsSpace(s[n])) && forall i :: 0 <= i < n ==> !IsSpace(s[i])
  {
    if s == "" || IsSpace(s[0]) then 0 else 1 + WordEnd(s[1..])
  }

  /** The word after some blanks, and what follows it. */
  function NextWord(s: string): (string, string) {
    var t := TrimStart(s);
    (t[..WordEnd(t)], t[WordEnd(t)..])
  }

  /** The last place of a closing parenthesis, or none. */
  function LastParen(s: string): (r: Option<nat>)
    ensures r.Some? ==> r.value < |s| && s[r.value] == ')' && forall i :: r.value < i < |s| ==> s[i] != ')'
    ensures r.None? ==> ')' !in s
  {
    if s == "" then None
    else if s[|s| - 1] == ')' then Some(|s| - 1)
    else LastParen(s[..|s| - 1])
  }

  function ParsePpid(stat: string): Option<nat> {
    match LastParen(stat)
    case None => None
    case Some(i) =>
      var (state, more) := NextWord(stat[i + 1..]);
      var (ppid, _) := NextWord(more);
      if state == "" || ppid == "" then None else ParseNat(ppid, 0x1_0000_0000)
  }

  predicate IsWord(s: string) {
    s != "" && forall i :: 0 <= i < |s| ==> !IsSpace(s[i])
  }

  lemma NextWordReads(w: string, rest: string)
    requires IsWord(w) && (rest == "" || IsSpace(rest[0]))
    ensures NextWord(" " + w + rest) == (w, rest)
  {
    var s, t := " " + w + rest, w + rest;
    assert s[1..] == t && t[0] == w[0];
    assert TrimStart(s) == TrimStart(t) == t;
    assert forall i :: 0 <= i < |w| ==> t[i] == w[i];
    assert rest != "" ==> t[|w|] == rest[0];
    assert WordEnd(t) == |w|;
    assert t[..|w|] == w && t[|w|..] == rest;
  }

  lemma LastParenIs(s: string, i: nat)
    requires i < |s| && s[i] == ')' && forall j :: i < j < |s| ==> s[j] != ')'
    ensures LastParen(s) == Some(i)
  {}

  /**
   The parent is read for every command name, parentheses, blanks and all: only what follows the
   last closing parenthesis counts.
   */
  lemma PpidIgnoresCommandName(lead: string, command: string, state: string, ppid: nat, rest: string)
    requires IsWord(state) && ')' !in state && ')' !in rest && (rest == "" || IsSpace(rest[0]))
    ensures var stat := lead + " (" + command + ")" + (" " + state + (" " + Decimal(ppid) + rest));
            ParsePpid(stat) == if ppid < 0x1_0000_0000 then Some(ppid) else None
  {
    hide NextWord, ParseNat;
    var word := Decimal(ppid);
    var tail := " " + state + (" " + word + rest);
    var front := lead + " (" + command;
    var stat := front + ")" + tail;
    assert stat == lead + " (" + command + ")" + tail;
    NumberIsWord(ppid);
    TailHasNoParen(state, word, rest);
    assert stat[|front|] == ')' && stat[|front| + 1..] == tail;
    forall j | |front| < j < |stat| ensures stat[j] != ')' {
      assert stat[j] == tail[j - |front| - 1] && tail[j - |front| - 1] in tail;
    }
    LastParenIs(stat, |front|);
    NextWordReads(state, " " + word + rest);
    NextWordReads(word, rest);
    ParseDecimal(ppid, 0x1_0000_0000);
  }

  lemma NumberIsWord(n: nat)
    ensures IsWord(Decimal(n)) && ')' !in Decimal(n)
  {}

  lemma TailHasNoParen(state: string, word: string, rest: string)
    requires ')' !in state && ')' !in word && ')' !in rest
    ensures ')' !in " " + state + (" " + word + rest)
  {}

  // ------------------------------------------------------------------------ attach

  /** What one round of `attach` sees: the table, who owns what, and how each write ends. */
  datatype Round = Round(table: seq<Process>, owner: map<Pid, nat>, gone: set<Pid>, refused: set<Pid>)

  datatype AttachError = RootRefused | NotInSlice | NotOwned(pid: Pid) | NotRunning(pid: Pid) | MoveFailed(pid: Pid)

  predicate OwnedBy(round: Round, p: Pid, uid: nat) {
    p in round.owner && round.owner[p] == uid
  }

  /** In the tree of that round's snapshot, and the user's own. */
  ghost predicate Eligible(roots: seq<Pid>, round: Round, uid: nat, p: Pid) {
    Reachable(roots, round.table, p) && OwnedBy(round, p, uid)
  }

  const ROUNDS: nat := 5

  /** What an attach did: who was moved, whom it tried to move, and which round found nothing new. */
  datatype Attached = Attached(moved: seq<Pid>, tried: seq<Pid>, quiet: Option<nat>)

  method FreshIn(tree: seq<Pid>, round: Round, uid: nat, moved: seq<Pid>) returns (found: seq<Pid>)
    ensures forall p :: p in found <==> p in tree && p !in moved && OwnedBy(round, p, uid)
  {
    found := [];
    for i := 0 to |tree|
      invariant forall p :: p in found <==> p in tree[..i] && p !in moved && OwnedBy(round, p, uid)
    {
      assert tree[..i + 1] == tree[..i] + [tree[i]];
      if tree[i] !in moved && OwnedBy(round, tree[i], uid) {
        found := found + [tree[i]];
      }
    }
    assert tree[..|tree|] == tree;
  }

  /** Write each pid into the slice's procs file; a process that is gone is skipped. */
  method MoveAll(found: seq<Pid>, round: Round, a: Attached) returns (r: Result<Attached, AttachError>, tried: seq<Pid>)
    ensures a.tried <= tried && forall i :: |a.tried| <= i < |tried| ==> tried[i] in found
    ensures r.Ok? ==> r.value.tried == tried && r.value.quiet == a.quiet && a.moved <= r.value.moved
    ensures r.Ok? ==> forall i :: |a.moved| <= i < |r.value.moved| ==>
              r.value.moved[i] in found && r.value.moved[i] !in round.gone + round.refused
    ensures r.Ok? ==> forall p <- found :: p in tried && (p in r.value.moved || p in round.gone)
    ensures r.Err? ==> r.error.MoveFailed? && r.error.pid in found && r.error.pid in round.refused
  {
    var moved := a.moved;
    tried := a.tried;
    for i := 0 to |found|
      invariant a.tried <= tried && a.moved <= moved
      invariant forall j :: |a.tried| <= j < |tried| ==> tried[j] in found
      invariant forall j :: |a.moved| <= j < |moved| ==> moved[j] in found && moved[j] !in round.gone + round.refused
      invariant forall j :: 0 <= j < i ==> found[j] in tried && (found[j] in moved || found[j] in round.gone)
    {
      var pid := found[i];
      tried := tried + [pid];
      if pid in round.gone {
      } else if pid in round.refused {
        return Err(MoveFailed(pid)), tried;
      } else {
        moved := moved + [pid];
      }
    }
    return Ok(Attached(moved, tried, a.quiet)), tried;
  }

  /** Every pid of a list was eligible in one of the first `n` rounds. */
  ghost predicate AllEligible(ps: seq<Pid>, roots: seq<Pid>, rounds: seq<Round>, uid: nat, n: nat)
    requires n <= |rounds|
  {
    forall p <- ps :: exists k :: 0 <= k < n && Eligible(roots, rounds[k], uid, p)
  }

  /**
   `attach`. Nothing outside the tree or owned by another user is ever written; when a round
   finds nothing new, every process of that snapshot's tree owned by the user has been moved.
   */
  method Attach(uid: nat, inSlice: bool, roots: seq<Pid>, start: map<Pid, nat>, rounds: seq<Round>)
    returns (r: Result<Attached, AttachError>, tried: seq<Pid>)
    requires |rounds| == ROUNDS
    ensures AllEligible(tried, roots, rounds, uid, ROUNDS)
    ensures r.Ok? ==> r.value.tried == tried && AllEligible(r.value.moved, roots, rounds, uid, ROUNDS)
    ensures r.Ok? && r.value.quiet.Some? ==>
              var n := r.value.quiet.value;
              n < ROUNDS && forall p :: Eligible(roots, rounds[n], uid, p) ==> p in r.value.moved
    ensures r.Ok? && r.value.quiet.None? ==>
              forall p :: Eligible(roots, rounds[ROUNDS - 1], uid, p) ==>
                p in r.value.moved || p in rounds[ROUNDS - 1].gone
    ensures r.Err? && r.error.MoveFailed? ==> exists n :: 0 <= n < ROUNDS && r.error.pid in rounds[n].refused
    ensures uid == 0 || !inSlice || (exists p :: p in roots && (p !in start || start[p] != uid)) ==>
              r.Err? && !r.error.MoveFailed? && tried == []
    ensures r.Err? && !r.error.MoveFailed? ==>
              uid == 0 || !inSlice || (exists p :: p in roots && (p !in start || start[p] != uid))
  {
    tried := [];
    if uid == 0 { return Err(RootRefused), tried; }
    if !inSlice { return Err(NotInSlice), tried; }
    for i := 0 to |roots|
      invariant tried == []
      invariant forall j :: 0 <= j < i ==> roots[j] in start && start[roots[j]] == uid
    {
      if roots[i] !in start { return Err(NotRunning(roots[i])), tried; }
      if start[roots[i]] != uid { return Err(NotOwned(roots[i])), tried; }
    }
    var a := Attached([], [], None);
    for n := 0 to ROUNDS
      invariant tried == a.tried && a.quiet.None?
      invariant AllEligible(a.tried, roots, rounds, uid, n) && AllEligible(a.moved, roots, rounds, uid, n)
      invariant 0 < n ==> forall p :: Eligible(roots, rounds[n - 1], uid, p) ==> p in a.moved || p in rounds[n - 1].gone
    {
      var tree := Descendants(roots, rounds[n].table);
      var found := FreshIn(tree, rounds[n], uid, a.moved);
      assert forall p <- found :: Eligible(roots, rounds[n], uid, p);
      if found == [] {
        forall p | Eligible(roots, rounds[n], uid, p) ensures p in a.moved {
          assert p in tree && p !in found;
        }
        return Ok(a.(quiet := Some(n))), tried;
      }
      ghost var was := a;
      var step: Result<Attached, AttachError>;
      step, tried := MoveAll(found, rounds[n], a);
      StillEligible(was.tried, tried, found, roots, rounds, uid, n);
      if step.Err? { return Err(step.error), tried; }
      a := step.value;
      StillEligible(was.moved, a.moved, found, roots, rounds, uid, n);
      forall p | Eligible(roots, rounds[n], uid, p) ensures p in a.moved || p in rounds[n].gone {
        assert p in tree;
      }
    }
    return Ok(a), tried;
  }

  lemma StillEligible(before: seq<Pid>, after: seq<Pid>, found: seq<Pid>,
                      roots: seq<Pid>, rounds: seq<Round>, uid: nat, n: nat)
    requires n < |rounds| && AllEligible(before, roots, rounds, uid, n) && before <= after
    requires forall i :: |before| <= i < |after| ==> after[i] in found
    requires forall p <- found :: Eligible(roots, rounds[n], uid, p)
    ensures AllEligible(after, roots, rounds, uid, n + 1)
    ensures n + 1 <= |rounds| ==> AllEligible(after, roots, rounds, uid, |rounds|)
  {
    hide Eligible;
    forall p | p in after ensures exists k :: 0 <= k < n + 1 && Eligible(roots, rounds[k], uid, p) {
      var i :| 0 <= i < |after| && after[i] == p;
      if i < |before| {
        assert before[i] == p && p in before;
        var k :| 0 <= k < n && Eligible(roots, rounds[k], uid, p);
      } else {
        assert Eligible(roots, rounds[n], uid, p);
      }
    }
  }
}
