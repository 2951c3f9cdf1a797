/**
 Tunnel bring-up and teardown against kernel state (crates/dns-helper/src/tunnel.rs).

 The kernel is the interface, one routing table per family, one policy rule per family and
 the nftables table. Before every command the interface may vanish; every command may be
 refused, fail to start, or find its object missing; the process may be killed anywhere.
 */
module Tunnel {
  import opened Addresses
  import opened Wrappers

  // ------------------------------------------------------------------------ the kernel

  datatype Hop = ViaTunnel | Unreachable

  /** A default route of the tunnel table. */
  datatype Route = Route(hop: Hop, metric: nat)

  datatype Interface = Down | Interface(configured: bool, addresses: set<string>, mtu: Option<nat>, up: bool)

  datatype Kernel = Kernel(
    iface: Interface, table4: set<Route>, table6: set<Route>, rule4: bool, rule6: bool, nft: bool)

  const CLEAN: Kernel := Kernel(Down, {}, {}, false, false, false)

  const VIA_TUNNEL: Route := Route(ViaTunnel, 0)
  const UNREACHABLE4: Route := Route(Unreachable, 4096)
  const UNREACHABLE6: Route := Route(Unreachable, 1024)

  datatype Command =
    | LinkAdd | SetConf | AddressAdd(address: string) | LinkUp(mtu: nat)
    | RouteAdd4(route: Route) | RuleAdd4 | RouteAdd6(route: Route) | RuleAdd6 | NftLoad
    | NftDelete | RuleDel4 | RuleDel6 | RouteFlush4 | RouteFlush6 | LinkDel

  /** The kernel accepts the command. */
  predicate Can(k: Kernel, c: Command) {
    match c
    case LinkAdd => k.iface.Down?
    case SetConf => k.iface.Interface?
    case AddressAdd(a) => k.iface.Interface? && a !in k.iface.addresses
    case LinkUp(_) => k.iface.Interface?
    case RouteAdd4(r) => r !in k.table4 && (r.hop.ViaTunnel? ==> k.iface.Interface? && k.iface.up)
    case RuleAdd4 => !k.rule4
    case RouteAdd6(r) => r !in k.table6 && (r.hop.ViaTunnel? ==> k.iface.Interface? && k.iface.up)
    case RuleAdd6 => !k.rule6
    case NftLoad => true
    case NftDelete => k.nft
    case RuleDel4 => k.rule4
    case RuleDel6 => k.rule6
    case RouteFlush4 => true
    case RouteFlush6 => true
    case LinkDel => k.iface.Interface?
  }

  function WithoutTunnel(table: set<Route>): set<Route> {
    set r | r in table && !r.hop.ViaTunnel?
  }

  /** A vanished interface takes its routes with it. */
  function Vanish(k: Kernel): Kernel {
    k.(iface := Down,
       table4 := WithoutTunnel(k.table4),
       table6 := WithoutTunnel(k.table6))
  }

  function Effect(k: Kernel, c: Command): Kernel
    requires Can(k, c)
  {
    match c
    case LinkAdd => k.(iface := Interface(false, {}, None, false))
    case SetConf => k.(iface := k.iface.(configured := true))
    case AddressAdd(a) => k.(iface := k.iface.(addresses := k.iface.addresses + {a}))
    case LinkUp(mtu) => k.(iface := k.iface.(mtu := Some(mtu), up := true))
    case RouteAdd4(r) => k.(table4 := k.table4 + {r})
    case RuleAdd4 => k.(rule4 := true)
    case RouteAdd6(r) => k.(table6 := k.table6 + {r})
    case RuleAdd6 => k.(rule6 := true)
    case NftLoad => k.(nft := true)
    case NftDelete => k.(nft := false)
    case RuleDel4 => k.(rule4 := false)
    case RuleDel6 => k.(rule6 := false)
    case RouteFlush4 => k.(table4 := {})
    case RouteFlush6 => k.(table6 := {})
    case LinkDel => Vanish(k)
  }

  // ------------------------------------------------------------------ the two programs

  datatype Step = Step(command: Command, optional: bool)

  const DEFAULT_MTU: nat := 1280

  datatype Config = Config(addresses: seq<string>, mtu: Option<nat>)

  function MtuOf(c: Config): nat {
    if c.mtu.Some? then c.mtu.value else DEFAULT_MTU
  }

  function AddressSteps(addresses: seq<string>): seq<Step> {
    seq(|addresses|, i requires 0 <= i < |addresses| => Step(AddressAdd(addresses[i]), false))
  }

  function LinkSteps(c: Config): seq<Step> {
    [Step(LinkAdd, false), Step(SetConf, false)] + AddressSteps(c.addresses) + [Step(LinkUp(MtuOf(c)), false)]
  }

  const ROUTE_STEPS: seq<Step> := [
    Step(RouteAdd4(VIA_TUNNEL), false),
    Step(RouteAdd4(UNREACHABLE4), false),
    Step(RuleAdd4, false),
    Step(RouteAdd6(UNREACHABLE6), true),
    Step(RuleAdd6, true),
    Step(NftLoad, false)
  ]

  function UpSteps(c: Config): seq<Step> {
    LinkSteps(c) + ROUTE_STEPS
  }

  const DOWN_STEPS: seq<Step> := [
    Step(NftDelete, true),
    Step(RuleDel4, true),
    Step(RuleDel6, true),
    Step(RouteFlush4, true),
    Step(RouteFlush6, true),
    Step(LinkDel, true)
  ]

  /** `up_steps`: the list is built by pushing one step per address. */
  method BuildUpSteps(c: Config) returns (steps: seq<Step>)
    ensures steps == UpSteps(c)
  {
    steps := [Step(LinkAdd, false), Step(SetConf, false)];
    for i := 0 to |c.addresses|
      invariant steps == [Step(LinkAdd, false), Step(SetConf, false)] + AddressSteps(c.addresses)[..i]
    {
      steps := steps + [Step(AddressAdd(c.addresses[i]), false)];
      assert AddressSteps(c.addresses)[..i + 1] == AddressSteps(c.addresses)[..i] + [AddressSteps(c.addresses)[i]];
    }
    assert AddressSteps(c.addresses)[..|c.addresses|] == AddressSteps(c.addresses);
    steps := steps + [Step(LinkUp(MtuOf(c)), false)];
    steps := steps + ROUTE_STEPS;
  }

  // ------------------------------------------------------------------------- execution

  /** What the environment does at one step; `Refused` is a failure the kernel state does not explain. */
  datatype Attempt = Runs | Refused | NotSpawned

  datatype Tick = Tick(vanish: bool, attempt: Attempt)

  datatype Ran = Ran(k: Kernel, ok: bool)

  function RunStep(k: Kernel, s: Step, t: Tick): Ran {
    var k := if t.vanish then Vanish(k) else k;
    match t.attempt
    case NotSpawned => Ran(k, false)
    case Refused => Ran(k, s.optional)
    case Runs => if Can(k, s.command) then Ran(Effect(k, s.command), true) else Ran(k, s.optional)
  }

  datatype Status = Done | Failed | Killed

  datatype Outcome = Outcome(k: Kernel, status: Status)

  /** `try_for_each`: stop at the first error. The process is killed when the ticks run out. */
  function Drive(k: Kernel, steps: seq<Step>, ticks: seq<Tick>): Outcome
    decreases |steps|
  {
    if steps == [] then Outcome(k, Done)
    else if ticks == [] then Outcome(k, Killed)
    else
      var r := RunStep(k, steps[0], ticks[0]);
      if r.ok then Drive(r.k, steps[1..], ticks[1..]) else Outcome(r.k, Failed)
  }

  /** `down`: every result is ignored. */
  function Sweep(k: Kernel, steps: seq<Step>, ticks: seq<Tick>): Outcome
    decreases |steps|
  {
    if steps == [] then Outcome(k, Done)
    else if ticks == [] then Outcome(k, Killed)
    else Sweep(RunStep(k, steps[0], ticks[0]).k, steps[1..], ticks[1..])
  }

  /**
   What the environment does during one use of `up`: to the first sweep, to the preparation (work
   directory, endpoint, files), to the bring-up, to the rollback.
   */
  datatype Schedule = Schedule(before: seq<Tick>, prepared: bool, during: seq<Tick>, rollback: seq<Tick>)

  function Up(k: Kernel, c: Config, t: Schedule): Outcome {
    var swept := Sweep(k, DOWN_STEPS, t.before);
    if swept.status.Killed? then swept
    else if !t.prepared then Outcome(swept.k, Failed)
    else
    var r := Drive(swept.k, UpSteps(c), t.during);
    if !r.status.Failed? then r else
    var back := Sweep(r.k, DOWN_STEPS, t.rollback);
    if back.status.Killed? then back else Outcome(back.k, Failed)
  }

  /** The kernel object as the code drives it: loops over the step lists. */
  class Machine {
    var kernel: Kernel

    constructor (k: Kernel)
      ensures kernel == k
    {
      kernel := k;
    }

    method Run(s: Step, t: Tick) returns (ok: bool)
      modifies this
      ensures Ran(kernel, ok) == RunStep(old(kernel), s, t)
    {
      if t.vanish { kernel := Vanish(kernel); }
      if t.attempt.NotSpawned? { return false; }
      if t.attempt.Runs? && Can(kernel, s.command) {
        kernel := Effect(kernel, s.command);
        return true;
      }
      return s.optional;
    }

    method TearDown(ticks: seq<Tick>) returns (status: Status)
      modifies this
      ensures Outcome(kernel, status) == Sweep(old(kernel), DOWN_STEPS, ticks)
    {
      var steps := DOWN_STEPS;
      var i := 0;
      while i < |steps|
        invariant 0 <= i <= |steps| && i <= |ticks|
        invariant Sweep(kernel, steps[i..], ticks[i..]) == Sweep(old(kernel), DOWN_STEPS, ticks)
      {
        if i == |ticks| { return Killed; }
        assert steps[i..][1..] == steps[i + 1..] && ticks[i..][1..] == ticks[i + 1..];
        var _ := Run(steps[i], ticks[i]);
        i := i + 1;
      }
      return Done;
    }

    method TryAll(steps: seq<Step>, ticks: seq<Tick>) returns (status: Status)
      modifies this
      ensures Outcome(kernel, status) == Drive(old(kernel), steps, ticks)
    {
      var i := 0;
      while i < |steps|
        invariant 0 <= i <= |steps| && i <= |ticks|
        invariant Drive(kernel, steps[i..], ticks[i..]) == Drive(old(kernel), steps, ticks)
      {
        if i == |ticks| { return Killed; }
        assert steps[i..][1..] == steps[i + 1..] && ticks[i..][1..] == ticks[i + 1..];
        var ok := Run(steps[i], ticks[i]);
        if !ok { return Failed; }
        i := i + 1;
      }
      return Done;
    }

    method BringUp(c: Config, t: Schedule) returns (status: Status)
      modifies this
      ensures Outcome(kernel, status) == Up(old(kernel), c, t)
    {
      status := TearDown(t.before);
      if status.Killed? { return; }
      if !t.prepared { return Failed; }
      var steps := BuildUpSteps(c);
      status := TryAll(steps, t.during);
      if status.Failed? {
        var back := TearDown(t.rollback);
        if back.Killed? { status := Killed; }
      }
    }
  }

  // ---------------------------------------------------------------------- what packets do

  datatype Packet = Packet(dst: Ip, inSlice: bool)

  /** The rules of the marking chain, in order. */
  datatype ChainRule = ReturnIf(prefixes: seq<Prefix>) | MarkSlice

  const OUTPUT_CHAIN: seq<ChainRule> := [ReturnIf(BYPASS_V4), ReturnIf(BYPASS_V6), MarkSlice]

  function Marks(chain: seq<ChainRule>, p: Packet): bool {
    if chain == [] then false else
    match chain[0]
    case ReturnIf(ps) => if InAny(p.dst, ps) then false else Marks(chain[1..], p)
    case MarkSlice => if p.inSlice then true else Marks(chain[1..], p)
  }

  predicate Marked(k: Kernel, p: Packet) {
    k.nft && Marks(OUTPUT_CHAIN, p)
  }

  /** The slice's packets are marked, apart from those to a bypass prefix; nothing else is. */
  lemma MarkedExactly(k: Kernel, p: Packet)
    ensures Marked(k, p) <==> k.nft && p.inSlice && !Bypassed(p.dst)
  {
    hide InAny;
    var c := OUTPUT_CHAIN;
    assert c[1..][0] == ReturnIf(BYPASS_V6) && c[1..][1..] == [MarkSlice] && [MarkSlice][1..] == [];
    assert Marks([MarkSlice], p) == p.inSlice;
    assert Marks(c[1..], p) == (!InAny(p.dst, BYPASS_V6) && p.inSlice);
  }

  datatype Verdict = Tunnelled | NoRoute | MainTable

  ghost predicate Best(table: set<Route>, r: Route) {
    r in table && forall s <- table :: r.metric <= s.metric
  }

  /** Where a marked packet goes: an empty table falls through to the main one. */
  ghost predicate Follows(rule: bool, table: set<Route>, v: Verdict) {
    match v
    case Tunnelled => rule && exists r :: Best(table, r) && r.hop.ViaTunnel?
    case NoRoute => rule && exists r :: Best(table, r) && r.hop.Unreachable?
    case MainTable => !rule || table == {}
  }

  ghost predicate Takes(k: Kernel, p: Packet, v: Verdict) {
    if !Marked(k, p) then v == MainTable
    else if p.dst.V4? then Follows(k.rule4, k.table4, v)
    else Follows(k.rule6, k.table6, v)
  }

  /** A slice packet that ought to stay inside. */
  predicate Guarded(p: Packet) {
    p.inSlice && !Bypassed(p.dst)
  }

  datatype Family = Ipv4 | Ipv6

  function Rule(k: Kernel, fam: Family): bool {
    if fam == Ipv4 then k.rule4 else k.rule6
  }

  function Table(k: Kernel, fam: Family): set<Route> {
    if fam == Ipv4 then k.table4 else k.table6
  }

  function Block(fam: Family): Route {
    if fam == Ipv4 then UNREACHABLE4 else UNREACHABLE6
  }

  /** While the marking chain is installed no guarded packet of the family takes the main table. */
  ghost predicate FailsClosed(k: Kernel, fam: Family) {
    k.nft ==> forall p: Packet :: Guarded(p) && (p.dst.V4? <==> fam == Ipv4) ==> !Takes(k, p, MainTable)
  }

  /** The invariant behind it: rule and unreachable route, which survives the interface. */
  predicate Shut(k: Kernel, fam: Family) {
    k.nft ==> Rule(k, fam) && Block(fam) in Table(k, fam)
  }

  lemma ShutFailsClosed(k: Kernel, fam: Family)
    requires Shut(k, fam)
    ensures FailsClosed(k, fam)
  {
    forall p: Packet { MarkedExactly(k, p); }
  }

  /** A packet of the family that the tunnel is there to hold. */
  function Probe(fam: Family): Packet {
    Packet(if fam == Ipv4 then V4([9, 9, 9, 9]) else V6([0x2001, 0xdb8, 0, 0, 0, 0, 0, 1]), true)
  }

  lemma ProbeIsGuarded(fam: Family)
    ensures Guarded(Probe(fam)) && (Probe(fam).dst.V4? <==> fam == Ipv4)
  {
    LocalIsBypassed(Probe(fam).dst);
  }

  /** With the chain loaded, failing closed is a rule that leads to a table with something in it. */
  lemma OpenLeaks(k: Kernel, fam: Family)
    requires k.nft
    ensures FailsClosed(k, fam) <==> Rule(k, fam) && Table(k, fam) != {}
    ensures FailsClosed(k, fam) <==> !Takes(k, Probe(fam), MainTable)
  {
    hide Marked, Bypassed, Probe;
    ProbeIsGuarded(fam);
    forall p: Packet { MarkedExactly(k, p); }
  }

  // ------------------------------------------------------------- bring-up fails closed

  function BlockCommand(fam: Family): Command {
    if fam == Ipv4 then RouteAdd4(UNREACHABLE4) else RouteAdd6(UNREACHABLE6)
  }

  function RuleCommand(fam: Family): Command {
    if fam == Ipv4 then RuleAdd4 else RuleAdd6
  }

  predicate Deletes(c: Command) {
    c.NftDelete? || c.RuleDel4? || c.RuleDel6? || c.RouteFlush4? || c.RouteFlush6? || c.LinkDel?
  }

  /**
   An adding program is ordered when the marking chain is loaded only after the unreachable route
   and the rule of the family; `route` and `rule` say what is already there.
   */
  predicate Ordered(steps: seq<Step>, fam: Family, route: bool, rule: bool) {
    steps == [] ||
    var c := steps[0].command;
    && !Deletes(c) && (c.NftLoad? ==> route && rule)
    && Ordered(steps[1..], fam, route || c == BlockCommand(fam), rule || c == RuleCommand(fam))
  }

  /** An optional step whose refusal would let the program go on without the rule or the route. */
  predicate Seals(s: Step, fam: Family) {
    s.optional && (s.command == BlockCommand(fam) || s.command == RuleCommand(fam))
  }

  /** The optional steps that put up the rule and the route of the family are carried out, where reached. */
  predicate Carried(steps: seq<Step>, ticks: seq<Tick>, fam: Family) {
    forall i :: 0 <= i < |steps| && i < |ticks| && Seals(steps[i], fam) ==> ticks[i].attempt == Runs
  }

  lemma VanishStaysShut(k: Kernel, fam: Family)
    ensures var r := Vanish(k);
            && r.nft == k.nft && Rule(r, fam) == Rule(k, fam)
            && (Block(fam) in Table(r, fam) <==> Block(fam) in Table(k, fam))
            && (Shut(r, fam) <==> Shut(k, fam))
  {}

  lemma EffectStaysShut(k: Kernel, c: Command, fam: Family)
    requires Can(k, c) && Shut(k, fam) && !Deletes(c)
    requires c.NftLoad? ==> Rule(k, fam) && Block(fam) in Table(k, fam)
    ensures var r := Effect(k, c);
            && Shut(r, fam)
            && (Block(fam) in Table(r, fam) <==> Block(fam) in Table(k, fam) || c == BlockCommand(fam))
            && (Rule(r, fam) <==> Rule(k, fam) || c == RuleCommand(fam))
  {}

  lemma StepStaysShut(k: Kernel, s: Step, t: Tick, fam: Family, route: bool, rule: bool)
    requires Shut(k, fam) && Ordered([s], fam, route, rule) && (Seals(s, fam) ==> t.attempt == Runs)
    requires (route ==> Block(fam) in Table(k, fam)) && (rule ==> Rule(k, fam))
    ensures var r := RunStep(k, s, t);
            && Shut(r.k, fam)
            && (route || (r.ok && s.command == BlockCommand(fam)) ==> Block(fam) in Table(r.k, fam))
            && (rule || (r.ok && s.command == RuleCommand(fam)) ==> Rule(r.k, fam))
  {
    hide Effect, Vanish, Shut;
    VanishStaysShut(k, fam);
    var k' := if t.vanish then Vanish(k) else k;
    if t.attempt.Runs? && Can(k', s.command) {
      EffectStaysShut(k', s.command, fam);
    } else {
      if !Can(k', s.command) { AlreadyThere(k', s.command, fam); }
    }
  }

  /** The kernel turns the rule or the unreachable route away only when it has it. */
  lemma AlreadyThere(k: Kernel, c: Command, fam: Family)
    requires !Can(k, c)
    ensures c == BlockCommand(fam) ==> Block(fam) in Table(k, fam)
    ensures c == RuleCommand(fam) ==> Rule(k, fam)
  {}

  /** Any ordered program is shut after every prefix, whatever fails and whenever the interface goes. */
  lemma {:induction false} OrderedStaysShut(
      k: Kernel, steps: seq<Step>, ticks: seq<Tick>, fam: Family, route: bool, rule: bool)
    requires Shut(k, fam) && Ordered(steps, fam, route, rule) && Carried(steps, ticks, fam)
    requires (route ==> Block(fam) in Table(k, fam)) && (rule ==> Rule(k, fam))
    ensures Shut(Drive(k, steps, ticks).k, fam)
    decreases |steps|
  {
    hide RunStep, Shut, Block, Table, Rule, BlockCommand, RuleCommand, Carried, Seals;
    if steps != [] && ticks != [] {
      var s := steps[0];
      CarriedParts(steps, ticks, fam);
      assert Ordered([s], fam, route, rule) by { assert [s][1..] == []; }
      StepStaysShut(k, s, ticks[0], fam, route, rule);
      var r := RunStep(k, s, ticks[0]);
      if r.ok {
        OrderedStaysShut(r.k, steps[1..], ticks[1..], fam,
                         route || s.command == BlockCommand(fam), rule || s.command == RuleCommand(fam));
      }
    }
  }

  lemma CarriedParts(steps: seq<Step>, ticks: seq<Tick>, fam: Family)
    requires steps != [] && ticks != [] && Carried(steps, ticks, fam)
    ensures (Seals(steps[0], fam) ==> ticks[0].attempt == Runs) && Carried(steps[1..], ticks[1..], fam)
  {
    assert forall i :: 0 <= i < |steps| - 1 && i < |ticks| - 1 ==>
        steps[1..][i] == steps[i + 1] && ticks[1..][i] == ticks[i + 1];
  }

  predicate IsLinkStep(s: Step) {
    s.command.LinkAdd? || s.command.SetConf? || s.command.AddressAdd? || s.command.LinkUp?
  }

  lemma {:induction false} LinkStepsAreOrdered(steps: seq<Step>, more: seq<Step>, fam: Family)
    requires (forall s <- steps :: IsLinkStep(s)) && Ordered(more, fam, false, false)
    ensures Ordered(steps + more, fam, false, false)
    decreases |steps|
  {
    if steps == [] {
      assert steps + more == more;
    } else {
      assert (steps + more)[0] == steps[0] && IsLinkStep(steps[0]);
      assert (steps + more)[1..] == steps[1..] + more;
      LinkStepsAreOrdered(steps[1..], more, fam);
    }
  }

  lemma RouteStepsAreOrdered(fam: Family)
    ensures Ordered(ROUTE_STEPS, fam, false, false)
  {
    var s, four := ROUTE_STEPS, fam == Ipv4;
    assert Ordered(s[6..], fam, true, true);
    assert s[5..][1..] == s[6..] && Ordered(s[5..], fam, true, true);
    assert s[4..][1..] == s[5..] && Ordered(s[4..], fam, true, four);
    assert s[3..][1..] == s[4..] && Ordered(s[3..], fam, four, four);
    assert s[2..][1..] == s[3..] && Ordered(s[2..], fam, four, false);
    assert s[1..][1..] == s[2..] && Ordered(s[1..], fam, false, false);
  }

  /** The bring-up program is ordered for both families, for every config. */
  lemma UpStepsAreOrdered(c: Config, fam: Family)
    ensures Ordered(UpSteps(c), fam, false, false)
  {
    RouteStepsAreOrdered(fam);
    LinkStepsAreOrdered(LinkSteps(c), ROUTE_STEPS, fam);
  }

  /** Nothing optional in it concerns IPv4. */
  lemma UpStepsCarry4(c: Config, ticks: seq<Tick>)
    ensures Carried(UpSteps(c), ticks, Ipv4)
  {}

  /** An adding program that loads the marking chain at its end, if at all. */
  predicate LoadsLast(steps: seq<Step>) {
    forall i :: 0 <= i < |steps| ==> !Deletes(steps[i].command) && (steps[i].command.NftLoad? ==> i == |steps| - 1)
  }

  lemma UpStepsLoadLast(c: Config)
    ensures LoadsLast(UpSteps(c))
  {}

  lemma StepKeepsMarks(k: Kernel, s: Step, t: Tick, fam: Family)
    requires !Deletes(s.command) && (s.command.NftLoad? ==> !RunStep(k, s, t).ok)
    ensures var r := RunStep(k, s, t).k;
            && r.nft == k.nft && (Rule(k, fam) ==> Rule(r, fam))
            && (Block(fam) in Table(k, fam) ==> Block(fam) in Table(r, fam))
  {}

  /** Until it is through, such a program has not loaded the chain and takes nothing away. */
  lemma {:induction false} UnfinishedKeepsMarks(k: Kernel, steps: seq<Step>, ticks: seq<Tick>, fam: Family)
    requires LoadsLast(steps) && !Drive(k, steps, ticks).status.Done?
    ensures var r := Drive(k, steps, ticks).k;
            r.nft == k.nft && (Shut(k, fam) ==> Shut(r, fam))
    decreases |steps|
  {
    hide RunStep, Block, Table, Rule;
    if ticks != [] {
      var s, r := steps[0], RunStep(k, steps[0], ticks[0]);
      if r.ok {
        assert forall i :: 0 <= i < |steps| - 1 ==> steps[1..][i] == steps[i + 1];
        UnfinishedKeepsMarks(r.k, steps[1..], ticks[1..], fam);
      }
      assert s.command.NftLoad? ==> steps[1..] == [];
      StepKeepsMarks(k, s, ticks[0], fam);
    }
  }

  // -------------------------------------------------------------------------- teardown

  /** The `i`-th step of a sweep was reached and carried out, or found its object gone. */
  predicate RanAt(ticks: seq<Tick>, i: nat) {
    i < |ticks| && ticks[i].attempt == Runs
  }

  /** Each step of a sweep succeeds or finds its object gone. */
  predicate Obeyed(ticks: seq<Tick>) {
    forall t <- ticks :: t.attempt == Runs
  }

  lemma SweepOne(k: Kernel, ticks: seq<Tick>, i: nat)
    requires i < 6 && i < |ticks|
    ensures Sweep(k, DOWN_STEPS[i..], ticks[i..]) ==
            Sweep(RunStep(k, DOWN_STEPS[i], ticks[i]).k, DOWN_STEPS[i + 1..], ticks[i + 1..])
  {}

  /** What one teardown step does to each part of the kernel. */
  lemma DownEffect(k: Kernel, i: nat, t: Tick)
    requires i < 6
    ensures var r := RunStep(k, DOWN_STEPS[i], t).k;
            var runs := t.attempt == Runs;
            && r.nft == (k.nft && !(i == 0 && runs))
            && r.rule4 == (k.rule4 && !(i == 1 && runs))
            && r.rule6 == (k.rule6 && !(i == 2 && runs))
  {}

  /** The step takes the interface away, or it goes by itself. */
  predicate Goes(k: Kernel, i: nat, t: Tick) {
    t.vanish || (i == 5 && t.attempt == Runs && k.iface.Interface?)
  }

  lemma DownEffectOnLink(k: Kernel, i: nat, t: Tick)
    requires i < 6
    ensures var r := RunStep(k, DOWN_STEPS[i], t).k;
            var runs, goes := t.attempt == Runs, Goes(k, i, t);
            && (r.iface.Down? <==> k.iface.Down? || goes)
            && r.table4 == (if i == 3 && runs then {} else if goes then WithoutTunnel(k.table4) else k.table4)
            && r.table6 == (if i == 4 && runs then {} else if goes then WithoutTunnel(k.table6) else k.table6)
  {}

  lemma DownEffectOnBlock(k: Kernel, i: nat, t: Tick)
    requires i < 6
    ensures var r := RunStep(k, DOWN_STEPS[i], t).k;
            var runs := t.attempt == Runs;
            && (UNREACHABLE4 in r.table4 <==> UNREACHABLE4 in k.table4 && !(i == 3 && runs))
            && (UNREACHABLE6 in r.table6 <==> UNREACHABLE6 in k.table6 && !(i == 4 && runs))
  {}

  /** What is left after the first `n` steps of a sweep, in terms of which of them ran. */
  ghost predicate Swept(k: Kernel, ticks: seq<Tick>, n: nat, r: Kernel) {
    && r.nft == (k.nft && !(0 < n && RanAt(ticks, 0)))
    && r.rule4 == (k.rule4 && !(1 < n && RanAt(ticks, 1)))
    && r.rule6 == (k.rule6 && !(2 < n && RanAt(ticks, 2)))
    && (UNREACHABLE4 in r.table4 <==> UNREACHABLE4 in k.table4 && !(3 < n && RanAt(ticks, 3)))
    && (UNREACHABLE6 in r.table6 <==> UNREACHABLE6 in k.table6 && !(4 < n && RanAt(ticks, 4)))
  }

  /** The interface went in one of the first `n` steps, by itself or taken down. */
  predicate Gone(k: Kernel, ticks: seq<Tick>, n: nat) {
    || (exists i :: 0 <= i < n && i < |ticks| && ticks[i].vanish)
    || (5 < n && RanAt(ticks, 5) && k.iface.Interface?)
  }

  /** What is then left of a table: flushed, or without the routes of a gone interface. */
  function TableLeft(table: set<Route>, flushed: bool, gone: bool): set<Route> {
    if flushed then {} else if gone then WithoutTunnel(table) else table
  }

  ghost predicate SweptLink(k: Kernel, ticks: seq<Tick>, n: nat, r: Kernel) {
    && (r.iface.Down? <==> k.iface.Down? || Gone(k, ticks, n))
    && r.table4 == TableLeft(k.table4, 3 < n && RanAt(ticks, 3), Gone(k, ticks, n))
    && r.table6 == TableLeft(k.table6, 4 < n && RanAt(ticks, 4), Gone(k, ticks, n))
  }

  lemma WithoutTunnelTwice(table: set<Route>)
    ensures WithoutTunnel(WithoutTunnel(table)) == WithoutTunnel(table) && WithoutTunnel({}) == {}
  {}

  lemma GoneStep(k: Kernel, ticks: seq<Tick>, n: nat)
    requires n < 6 && n < |ticks|
    ensures Gone(k, ticks, n + 1) <==>
              Gone(k, ticks, n) || ticks[n].vanish || (n == 5 && RanAt(ticks, 5) && k.iface.Interface?)
  {}

  lemma SweptLinkStep(k: Kernel, ticks: seq<Tick>, n: nat, r: Kernel)
    requires n < 6 && n < |ticks| && SweptLink(k, ticks, n, r)
    ensures SweptLink(k, ticks, n + 1, RunStep(r, DOWN_STEPS[n], ticks[n]).k)
  {
    hide RunStep, Gone, WithoutTunnel;
    DownEffectOnLink(r, n, ticks[n]);
    GoneStep(k, ticks, n);
    WithoutTunnelTwice(k.table4);
    WithoutTunnelTwice(k.table6);
  }

  lemma SweptStep(k: Kernel, ticks: seq<Tick>, n: nat, r: Kernel)
    requires n < 6 && n < |ticks| && Swept(k, ticks, n, r)
    ensures Swept(k, ticks, n + 1, RunStep(r, DOWN_STEPS[n], ticks[n]).k)
  {
    hide RunStep;
    DownEffect(r, n, ticks[n]);
    DownEffectOnBlock(r, n, ticks[n]);
  }

  /** A sweep of any length, killed or not, with any steps refused. */
  lemma SweepEffect(k: Kernel, ticks: seq<Tick>)
    ensures Swept(k, ticks, 6, Sweep(k, DOWN_STEPS, ticks).k)
    ensures SweptLink(k, ticks, 6, Sweep(k, DOWN_STEPS, ticks).k)
    ensures Sweep(k, DOWN_STEPS, ticks).status == if |ticks| < 6 then Killed else Done
  {
    hide RunStep, Swept, SweptLink;
    var r, n := k, 0;
    assert DOWN_STEPS[0..] == DOWN_STEPS && ticks[0..] == ticks;
    NothingSwept(k, ticks);
    while n < 6 && n < |ticks|
      invariant 0 <= n <= 6 && n <= |ticks| && Swept(k, ticks, n, r) && SweptLink(k, ticks, n, r)
      invariant Sweep(k, DOWN_STEPS, ticks) == Sweep(r, DOWN_STEPS[n..], ticks[n..])
    {
      SweepOne(r, ticks, n);
      SweptStep(k, ticks, n, r);
      SweptLinkStep(k, ticks, n, r);
      r, n := RunStep(r, DOWN_STEPS[n], ticks[n]).k, n + 1;
    }
    KilledSweep(k, ticks, n, r);
  }

  lemma NothingSwept(k: Kernel, ticks: seq<Tick>)
    ensures Swept(k, ticks, 0, k) && SweptLink(k, ticks, 0, k)
  {}

  lemma KilledSweep(k: Kernel, ticks: seq<Tick>, n: nat, r: Kernel)
    requires Swept(k, ticks, n, r) && SweptLink(k, ticks, n, r) && (n == 6 || n == |ticks| < 6)
    ensures Swept(k, ticks, 6, r) && SweptLink(k, ticks, 6, r)
  {}

  /** Everything the kernel holds has its teardown step carried out, or goes with the interface. */
  predicate Cleans(k: Kernel, ticks: seq<Tick>) {
    var gone := Gone(k, ticks, 6);
    && (k.nft ==> RanAt(ticks, 0))
    && (k.rule4 ==> RanAt(ticks, 1))
    && (k.rule6 ==> RanAt(ticks, 2))
    && (RanAt(ticks, 3) || k.table4 == {} || (gone && WithoutTunnel(k.table4) == {}))
    && (RanAt(ticks, 4) || k.table6 == {} || (gone && WithoutTunnel(k.table6) == {}))
    && (k.iface.Down? || gone)
  }

  /** Exactly when a teardown leaves the clean state, with any steps refused and killed anywhere. */
  lemma SweepCleansExactly(k: Kernel, ticks: seq<Tick>)
    ensures Sweep(k, DOWN_STEPS, ticks).k == CLEAN <==> Cleans(k, ticks)
  {
    hide Sweep, RanAt, Gone, WithoutTunnel;
    SweepEffect(k, ticks);
    WithoutTunnelTwice(k.table4);
  }

  /** From any kernel state at all, an obeyed teardown leaves the clean state. */
  lemma SweepCleans(k: Kernel, ticks: seq<Tick>)
    requires |ticks| >= 6 && Obeyed(ticks)
    ensures Sweep(k, DOWN_STEPS, ticks) == Outcome(CLEAN, Done)
  {
    hide Sweep;
    SweepEffect(k, ticks);
    SweepCleansExactly(k, ticks);
    forall i | 0 <= i < 6 ensures RanAt(ticks, i) { assert ticks[i] in ticks; }
  }

  /** Teardown is idempotent: after one that cleaned, a second changes nothing, refused, killed or not. */
  lemma TeardownIdempotent(k: Kernel, first: seq<Tick>, second: seq<Tick>)
    requires Cleans(k, first)
    ensures Sweep(Sweep(k, DOWN_STEPS, first).k, DOWN_STEPS, second).k == Sweep(k, DOWN_STEPS, first).k
  {
    SweepCleansExactly(k, first);
    SweepCleansExactly(CLEAN, second);
  }

  /** The marks went, or neither the rule nor the routes of the family did. */
  predicate KeepsShut(ticks: seq<Tick>, fam: Family) {
    RanAt(ticks, 0) ||
    (if fam == Ipv4 then !RanAt(ticks, 1) && !RanAt(ticks, 3) else !RanAt(ticks, 2) && !RanAt(ticks, 4))
  }

  lemma SweepStaysShut(k: Kernel, ticks: seq<Tick>, fam: Family)
    requires Shut(k, fam) && KeepsShut(ticks, fam)
    ensures Shut(Sweep(k, DOWN_STEPS, ticks).k, fam)
  {
    hide Sweep, RanAt;
    SweepEffect(k, ticks);
  }

  /** A sweep that is not refused its first step, the removal of the marks, if it gets to it. */
  predicate MarksGo(ticks: seq<Tick>) {
    ticks == [] || ticks[0].attempt == Runs
  }

  /** Such a sweep stays shut at every prefix. */
  lemma MarksFirstKeepsShut(ticks: seq<Tick>, fam: Family)
    requires MarksGo(ticks)
    ensures KeepsShut(ticks, fam)
  {}

  /**
   Why the order of teardown matters, exactly: with any steps refused and the process killed
   anywhere, an installed tunnel stays shut, and fails closed, if and only if the marks went, or
   neither the rule nor the routes of the family did.
   */
  lemma TeardownShutExactly(k: Kernel, ticks: seq<Tick>, fam: Family)
    requires k.nft && Shut(k, fam)
    ensures var r := Sweep(k, DOWN_STEPS, ticks).k;
            && (Shut(r, fam) <==> KeepsShut(ticks, fam))
            && (FailsClosed(r, fam) <==> KeepsShut(ticks, fam))
  {
    hide Sweep, RanAt, FailsClosed, Gone;
    SweepEffect(k, ticks);
    var r := Sweep(k, DOWN_STEPS, ticks).k;
    if Shut(r, fam) {
      ShutFailsClosed(r, fam);
    } else {
      OpenLeaks(r, fam);
    }
  }

  // ------------------------------------------------------------------------ whole runs

  /**
   A failed bring-up, from any kernel state, ends clean if and only if its last sweep cleans: the
   rollback what the steps had built, or, when the preparation failed, the first one what it found.
   */
  lemma FailureRollsBack(k: Kernel, c: Config, t: Schedule)
    requires Up(k, c, t).status == Failed
    ensures Up(k, c, t).k == CLEAN <==>
              if !t.prepared then Cleans(k, t.before)
              else Cleans(Drive(Sweep(k, DOWN_STEPS, t.before).k, UpSteps(c), t.during).k, t.rollback)
    ensures Obeyed(if t.prepared then t.rollback else t.before) ==> Up(k, c, t).k == CLEAN
  {
    hide Sweep, Drive, Cleans;
    SweepEffect(k, t.before);
    var last := if t.prepared then t.rollback else t.before;
    var from := if t.prepared then Drive(Sweep(k, DOWN_STEPS, t.before).k, UpSteps(c), t.during).k else k;
    SweepEffect(from, last);
    SweepCleansExactly(from, last);
    if Obeyed(last) { SweepCleans(from, last); }
  }

  /**
   What a use of `up` needs for the family: its sweeps may be refused anything as long as they keep
   shut, and if the chain was loaded the optional steps were carried out.
   */
  predicate TameUp(k: Kernel, c: Config, t: Schedule, fam: Family) {
    && KeepsShut(t.before, fam) && KeepsShut(t.rollback, fam)
    && (Up(k, c, t).status.Done? ==> Carried(UpSteps(c), t.during, fam))
  }

  lemma UpStaysShut(k: Kernel, c: Config, t: Schedule, fam: Family)
    requires Shut(k, fam) && TameUp(k, c, t, fam)
    ensures Shut(Up(k, c, t).k, fam)
  {
    hide Sweep, Drive, Shut, KeepsShut, Carried, Ordered, LoadsLast, UpSteps;
    SweepStaysShut(k, t.before, fam);
    var swept := Sweep(k, DOWN_STEPS, t.before);
    if !swept.status.Killed? && t.prepared {
      var r := Drive(swept.k, UpSteps(c), t.during);
      if r.status.Done? {
        UpStepsAreOrdered(c, fam);
        OrderedStaysShut(swept.k, UpSteps(c), t.during, fam, false, false);
      } else {
        UpStepsLoadLast(c);
        UnfinishedKeepsMarks(swept.k, UpSteps(c), t.during, fam);
        SweepStaysShut(r.k, t.rollback, fam);
      }
    }
  }

  datatype Event = UpEvent(config: Config, schedule: Schedule) | DownEvent(ticks: seq<Tick>) | VanishEvent

  function After(k: Kernel, e: Event): Kernel {
    match e
    case UpEvent(c, t) => Up(k, c, t).k
    case DownEvent(ts) => Sweep(k, DOWN_STEPS, ts).k
    case VanishEvent => Vanish(k)
  }

  function AfterAll(k: Kernel, es: seq<Event>): Kernel
    decreases |es|
  {
    if es == [] then k else AfterAll(After(k, es[0]), es[1..])
  }

  predicate Tame(k: Kernel, e: Event, fam: Family) {
    match e
    case UpEvent(c, t) => TameUp(k, c, t, fam)
    case DownEvent(ts) => KeepsShut(ts, fam)
    case VanishEvent => true
  }

  predicate TameRun(k: Kernel, es: seq<Event>, fam: Family)
    decreases |es|
  {
    es == [] || (Tame(k, es[0], fam) && TameRun(After(k, es[0]), es[1..], fam))
  }

  lemma {:induction false} RunStaysShut(k: Kernel, es: seq<Event>, fam: Family)
    requires Shut(k, fam) && TameRun(k, es, fam)
    ensures Shut(AfterAll(k, es), fam)
    decreases |es|
  {
    hide Up, Sweep, KeepsShut, TameUp;
    if es != [] {
      match es[0] {
        case UpEvent(c, t) => UpStaysShut(k, c, t, fam);
        case DownEvent(ts) => SweepStaysShut(k, ts, fam);
        case VanishEvent =>
      }
      RunStaysShut(After(k, es[0]), es[1..], fam);
    }
  }

  /** The marks are the first thing every sweep of the run takes down. */
  predicate MarksFirst(e: Event) {
    match e
    case UpEvent(_, t) => MarksGo(t.before) && MarksGo(t.rollback)
    case DownEvent(ts) => MarksGo(ts)
    case VanishEvent => true
  }

  lemma {:induction false} MarksFirstIsTame4(k: Kernel, es: seq<Event>)
    requires forall e <- es :: MarksFirst(e)
    ensures TameRun(k, es, Ipv4)
    decreases |es|
  {
    hide KeepsShut, Up, Sweep, Carried;
    if es != [] {
      assert MarksFirst(es[0]);
      match es[0] {
        case UpEvent(c, t) =>
          MarksFirstKeepsShut(t.before, Ipv4);
          MarksFirstKeepsShut(t.rollback, Ipv4);
          UpStepsCarry4(c, t.during);
        case DownEvent(ts) => MarksFirstKeepsShut(ts, Ipv4);
        case VanishEvent =>
      }
      MarksFirstIsTame4(After(k, es[0]), es[1..]);
    }
  }

  /**
   Fail closed, over every run: any number of bring-ups and teardowns, each killed anywhere, with the
   interface free to vanish and every command but the removal of the marks free to be refused; no
   guarded IPv4 packet takes the main table while the marking chain is installed.
   */
  lemma AlwaysFailsClosed(es: seq<Event>)
    requires forall e <- es :: MarksFirst(e)
    ensures FailsClosed(AfterAll(CLEAN, es), Ipv4)
  {
    MarksFirstIsTame4(CLEAN, es);
    TameRunFailsClosed(es, Ipv4);
  }

  /** The same for either family, from the least that each sweep and each loaded bring-up has to do. */
  lemma TameRunFailsClosed(es: seq<Event>, fam: Family)
    requires TameRun(CLEAN, es, fam)
    ensures FailsClosed(AfterAll(CLEAN, es), fam) && FailsClosed(Vanish(AfterAll(CLEAN, es)), fam)
  {
    RunStaysShut(CLEAN, es, fam);
    ShutFailsClosed(AfterAll(CLEAN, es), fam);
    ShutFailsClosed(Vanish(AfterAll(CLEAN, es)), fam);
  }
}
