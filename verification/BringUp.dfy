/**
 What a successful bring-up installs, for both address families, and where in the step list of
 crates/dns-helper/src/tunnel.rs the marking chain may be loaded.
 */
module BringUp {
  import opened Addresses
  import opened Tunnel
  import opened Wrappers

  lemma {:induction false} DriveSplits(k: Kernel, a: seq<Step>, b: seq<Step>, ticks: seq<Tick>)
    requires Drive(k, a + b, ticks).status == Done
    ensures |a| <= |ticks| && Drive(k, a, ticks[..|a|]).status == Done
    ensures Drive(k, a + b, ticks) == Drive(Drive(k, a, ticks[..|a|]).k, b, ticks[|a|..])
    decreases |a|
  {
    if a == [] {
      assert a + b == b && ticks[0..] == ticks;
    } else {
      assert (a + b)[1..] == a[1..] + b;
      DriveSplits(RunStep(k, a[0], ticks[0]).k, a[1..], b, ticks[1..]);
      assert ticks[..|a|][1..] == ticks[1..][..|a| - 1];
      assert ticks[1..][|a| - 1..] == ticks[|a|..];
    }
  }

  /** A program that passes has started every one of its commands, optional ones included. */
  lemma {:induction false} DoneMeansSpawned(k: Kernel, steps: seq<Step>, ticks: seq<Tick>)
    requires Drive(k, steps, ticks).status == Done
    ensures |steps| <= |ticks| && forall i :: 0 <= i < |steps| ==> ticks[i].attempt != NotSpawned
    decreases |steps|
  {
    if steps != [] {
      DoneMeansSpawned(RunStep(k, steps[0], ticks[0]).k, steps[1..], ticks[1..]);
      assert forall i :: 1 <= i < |steps| ==> ticks[i] == ticks[1..][i - 1];
    }
  }

  /** The link steps touch neither tables, rules nor marks. */
  lemma {:induction false} LinkStepsKeep(k: Kernel, steps: seq<Step>, ticks: seq<Tick>)
    requires forall s <- steps :: IsLinkStep(s)
    requires k.table4 == {} && k.table6 == {} && !k.rule4 && !k.rule6 && !k.nft
    ensures var k' := Drive(k, steps, ticks).k;
            k'.table4 == {} && k'.table6 == {} && !k'.rule4 && !k'.rule6 && !k'.nft
    decreases |steps|
  {
    if steps != [] && ticks != [] {
      assert IsLinkStep(steps[0]);
      var r := RunStep(k, steps[0], ticks[0]);
      if r.ok { LinkStepsKeep(r.k, steps[1..], ticks[1..]); }
    }
  }

  ghost function AsSet(xs: seq<string>): set<string> {
    set x | x in xs
  }

  /** A step that passes undisturbed has run its command, if it is required. */
  lemma PassedMeansRun(k: Kernel, s: Step, t: Tick)
    requires !s.optional && !t.vanish && RunStep(k, s, t).ok
    ensures Can(k, s.command) && RunStep(k, s, t).k == Effect(k, s.command)
  {}

  lemma {:induction false} AddressesAreAdded(k: Kernel, addresses: seq<string>, ticks: seq<Tick>)
    requires k.iface.Interface? && (forall t <- ticks :: !t.vanish)
    requires Drive(k, AddressSteps(addresses), ticks).status == Done
    ensures Drive(k, AddressSteps(addresses), ticks).k.iface ==
            k.iface.(addresses := k.iface.addresses + AsSet(addresses))
    decreases |addresses|
  {
    var steps := AddressSteps(addresses);
    if addresses == [] {
      assert k.iface.addresses + AsSet(addresses) == k.iface.addresses;
    } else {
      PassedMeansRun(k, steps[0], ticks[0]);
      assert steps[1..] == AddressSteps(addresses[1..]);
      AddressesAreAdded(RunStep(k, steps[0], ticks[0]).k, addresses[1..], ticks[1..]);
      assert {addresses[0]} + AsSet(addresses[1..]) == AsSet(addresses);
      assert k.iface.addresses + {addresses[0]} + AsSet(addresses[1..]) == k.iface.addresses + AsSet(addresses);
    }
  }

  /** The interface a passed link part leaves, while nobody takes it away. */
  lemma LinkIsBuilt(c: Config, ticks: seq<Tick>)
    requires Drive(CLEAN, LinkSteps(c), ticks).status == Done && (forall t <- ticks :: !t.vanish)
    ensures Drive(CLEAN, LinkSteps(c), ticks).k.iface ==
            Interface(true, AsSet(c.addresses), Some(MtuOf(c)), true)
  {
    var lead, adds := [Step(LinkAdd, false), Step(SetConf, false)], AddressSteps(c.addresses);
    var last := [Step(LinkUp(MtuOf(c)), false)];
    assert LinkSteps(c) == lead + (adds + last);
    DriveSplits(CLEAN, lead, adds + last, ticks);
    var k1, t1 := Drive(CLEAN, lead, ticks[..2]).k, ticks[2..];
    LeadIsBuilt(ticks[..2]);
    DriveSplits(k1, adds, last, t1);
    var k2, t2 := Drive(k1, adds, t1[..|adds|]).k, t1[|adds|..];
    AddressesAreAdded(k1, c.addresses, t1[..|adds|]);
    DriveLast(k2, last[0], t2);
  }

  lemma LeadIsBuilt(t: seq<Tick>)
    requires Drive(CLEAN, [Step(LinkAdd, false), Step(SetConf, false)], t).status == Done
    requires forall x <- t :: !x.vanish
    ensures Drive(CLEAN, [Step(LinkAdd, false), Step(SetConf, false)], t).k.iface == Interface(true, {}, None, false)
  {}

  lemma DriveLast(k: Kernel, s: Step, t: seq<Tick>)
    requires Drive(k, [s], t).status == Done && !s.optional && (forall x <- t :: !x.vanish)
    ensures Can(k, s.command) && Drive(k, [s], t).k == Effect(k, s.command)
  {}

  /** The route steps leave the interface alone. */
  lemma {:induction false} RoutesKeepLink(k: Kernel, steps: seq<Step>, ticks: seq<Tick>)
    requires forall x <- ticks :: !x.vanish
    requires forall s <- steps :: s in ROUTE_STEPS
    ensures Drive(k, steps, ticks).k.iface == k.iface
    decreases |steps|
  {
    if steps != [] && ticks != [] {
      assert steps[0] in ROUTE_STEPS;
      var r := RunStep(k, steps[0], ticks[0]);
      assert r.k.iface == k.iface;
      if r.ok { RoutesKeepLink(r.k, steps[1..], ticks[1..]); }
    }
  }

  /** What one route step that counts as passed does to the rules, the marks and the IPv4 table. */
  lemma RouteEffect(k: Kernel, i: nat, t: Tick)
    requires i < 6 && RunStep(k, ROUTE_STEPS[i], t).ok
    ensures var r := RunStep(k, ROUTE_STEPS[i], t).k;
            && r.nft == (k.nft || i == 5)
            && r.rule4 == (k.rule4 || i == 2)
            && (UNREACHABLE4 in r.table4 <==> UNREACHABLE4 in k.table4 || i == 1)
            && (!k.rule6 ==> r.rule6 == (i == 4 && t.attempt == Runs))
            && (i != 4 ==> r.rule6 == k.rule6)
            && (!t.vanish ==>
                  r.table4 == k.table4 + (if i == 0 then {VIA_TUNNEL} else if i == 1 then {UNREACHABLE4} else {}))
  {
    if i == 3 || i == 4 {
      assert k.table4 + {} == k.table4;
    }
  }

  lemma RouteEffect6(k: Kernel, i: nat, t: Tick)
    requires i < 6 && RunStep(k, ROUTE_STEPS[i], t).ok
    requires k.table6 <= {UNREACHABLE6} && (i == 3 ==> k.table6 == {})
    ensures RunStep(k, ROUTE_STEPS[i], t).k.table6 ==
            k.table6 + (if i == 3 && t.attempt == Runs then {UNREACHABLE6} else {})
  {
    assert WithoutTunnel(k.table6) == k.table6;
  }

  lemma DriveOne(k: Kernel, t: seq<Tick>, i: nat)
    requires i < 6 && i <= |t| && Drive(k, ROUTE_STEPS[i..], t[i..]).status == Done
    ensures i < |t| && RunStep(k, ROUTE_STEPS[i], t[i]).ok
    ensures Drive(k, ROUTE_STEPS[i..], t[i..]) ==
            Drive(RunStep(k, ROUTE_STEPS[i], t[i]).k, ROUTE_STEPS[i + 1..], t[i + 1..])
  {}

  lemma NothingLeft(k: Kernel, steps: seq<Step>, ticks: seq<Tick>)
    requires steps == []
    ensures Drive(k, steps, ticks) == Outcome(k, Done)
  {}

  lemma DriveAll(k: Kernel, t: seq<Tick>) returns (ks: seq<Kernel>)
    requires Drive(k, ROUTE_STEPS, t).status == Done
    ensures |t| >= 6 && |ks| == 7 && ks[0] == k
    ensures forall i :: 0 <= i < 6 ==>
              RunStep(ks[i], ROUTE_STEPS[i], t[i]).ok && ks[i + 1] == RunStep(ks[i], ROUTE_STEPS[i], t[i]).k
    ensures Drive(k, ROUTE_STEPS, t) == Outcome(ks[6], Done)
  {
    hide RunStep, Drive;
    ks := [k];
    assert ROUTE_STEPS[0..] == ROUTE_STEPS && t[0..] == t;
    for n := 0 to 6
      invariant |ks| == n + 1 && ks[0] == k && n <= |t|
      invariant forall i :: 0 <= i < n ==>
                  RunStep(ks[i], ROUTE_STEPS[i], t[i]).ok && ks[i + 1] == RunStep(ks[i], ROUTE_STEPS[i], t[i]).k
      invariant Drive(k, ROUTE_STEPS, t) == Drive(ks[n], ROUTE_STEPS[n..], t[n..])
    {
      DriveOne(ks[n], t, n);
      ks := ks + [RunStep(ks[n], ROUTE_STEPS[n], t[n]).k];
    }
    NothingLeft(ks[6], ROUTE_STEPS[6..], t[6..]);
  }

  lemma RouteStepsDone(k: Kernel, t: seq<Tick>)
    requires k.table4 == {} && k.table6 == {} && !k.rule4 && !k.rule6 && !k.nft
    requires Drive(k, ROUTE_STEPS, t).status == Done
    ensures |t| >= 6
    ensures var k' := Drive(k, ROUTE_STEPS, t).k;
            && k'.nft && k'.rule4 && UNREACHABLE4 in k'.table4
            && k'.rule6 == (t[4].attempt == Runs)
            && k'.table6 == (if t[3].attempt == Runs then {UNREACHABLE6} else {})
            && ((forall x <- t :: !x.vanish) ==> k'.table4 == {VIA_TUNNEL, UNREACHABLE4})
  {
    hide RunStep, Drive;
    var ks := DriveAll(k, t);
    RouteEffect(ks[0], 0, t[0]);
    RouteEffect6(ks[0], 0, t[0]);
    RouteEffect(ks[1], 1, t[1]);
    RouteEffect6(ks[1], 1, t[1]);
    RouteEffect(ks[2], 2, t[2]);
    RouteEffect6(ks[2], 2, t[2]);
    RouteEffect(ks[3], 3, t[3]);
    RouteEffect6(ks[3], 3, t[3]);
    RouteEffect(ks[4], 4, t[4]);
    RouteEffect6(ks[4], 4, t[4]);
    RouteEffect(ks[5], 5, t[5]);
    RouteEffect6(ks[5], 5, t[5]);
    if forall x <- t :: !x.vanish {
      assert forall i :: 0 <= i < 6 ==> t[i] in t;
      assert ks[6].table4 == {} + {VIA_TUNNEL} + {UNREACHABLE4} + {} + {} + {};
    }
  }

  /** The kernel a successful bring-up leaves, as far as packets are concerned. */
  lemma DoneState(k: Kernel, c: Config, t: Schedule)
    requires Obeyed(t.before) && Up(k, c, t).status == Done
    ensures var k' := Up(k, c, t).k;
            var n := |UpSteps(c)|;
            && n <= |t.during| && k'.nft && k'.rule4 && UNREACHABLE4 in k'.table4
            && k'.rule6 == (t.during[n - 2].attempt == Runs)
            && k'.table6 == (if t.during[n - 3].attempt == Runs then {UNREACHABLE6} else {})
            && ((forall x <- t.during :: !x.vanish) ==>
                  && k'.table4 == {VIA_TUNNEL, UNREACHABLE4}
                  && k'.iface == Interface(true, AsSet(c.addresses), Some(MtuOf(c)), true))
  {
    hide Drive, Sweep, RunStep;
    SweepEffect(k, t.before);
    SweepCleans(k, t.before);
    var link, ticks := LinkSteps(c), t.during;
    DriveSplits(CLEAN, link, ROUTE_STEPS, ticks);
    LinkStepsKeep(CLEAN, link, ticks[..|link|]);
    var k0 := Drive(CLEAN, link, ticks[..|link|]).k;
    RouteStepsDone(k0, ticks[|link|..]);
    assert ticks[|link|..][3] == ticks[|link| + 3] && ticks[|link|..][4] == ticks[|link| + 4];
    assert forall x <- ticks[|link|..] :: x in ticks;
    if forall x <- ticks :: !x.vanish {
      assert forall x <- ticks[..|link|] :: x in ticks;
      LinkIsBuilt(c, ticks[..|link|]);
      RoutesKeepLink(k0, ROUTE_STEPS, ticks[|link|..]);
    }
  }

  /** Both optional IPv6 steps of a bring-up were carried out. */
  predicate Seals6(c: Config, during: seq<Tick>)
    requires |UpSteps(c)| <= |during|
  {
    var n := |UpSteps(c)|;
    during[n - 3].attempt == Runs && during[n - 2].attempt == Runs
  }

  /**
   What a successful bring-up installs. IPv4 fails closed outright; IPv6 fails closed if and only
   if both optional steps were carried out; neither changes when the interface goes. While it
   stays, it is configured as asked and guarded IPv4 packets go through it.
   */
  lemma BringUpInstalls(k: Kernel, c: Config, t: Schedule)
    requires Obeyed(t.before) && Up(k, c, t).status == Done
    ensures var k' := Up(k, c, t).k;
            var n := |UpSteps(c)|;
            && k'.nft && FailsClosed(k', Ipv4) && FailsClosed(Vanish(k'), Ipv4)
            && n <= |t.during| && (forall i :: 0 <= i < n ==> t.during[i].attempt != NotSpawned)
            && (FailsClosed(k', Ipv6) <==> Seals6(c, t.during))
            && (FailsClosed(Vanish(k'), Ipv6) <==> Seals6(c, t.during))
            && ((forall x <- t.during :: !x.vanish) ==>
                 && k'.iface == Interface(true, AsSet(c.addresses),
                                          Some(if c.mtu.Some? then c.mtu.value else 1280), true)
                 && forall p: Packet :: Guarded(p) && p.dst.V4? ==> Takes(k', p, Tunnelled) && !Takes(k', p, NoRoute))
  {
    hide Drive, Sweep, Takes, Guarded, FailsClosed, Vanish, UpSteps;
    DoneState(k, c, t);
    InstalledVerdicts(Up(k, c, t).k);
    SweepEffect(k, t.before);
    SweepCleans(k, t.before);
    DoneMeansSpawned(CLEAN, UpSteps(c), t.during);
  }

  lemma InstalledVerdicts(k: Kernel)
    requires k.nft && k.rule4 && UNREACHABLE4 in k.table4 && k.table6 <= {UNREACHABLE6}
    ensures FailsClosed(k, Ipv4) && FailsClosed(Vanish(k), Ipv4)
    ensures FailsClosed(k, Ipv6) <==> k.rule6 && k.table6 != {}
    ensures FailsClosed(Vanish(k), Ipv6) <==> k.rule6 && k.table6 != {}
    ensures k.table4 == {VIA_TUNNEL, UNREACHABLE4} ==>
              forall p: Packet :: Guarded(p) && p.dst.V4? ==> Takes(k, p, Tunnelled) && !Takes(k, p, NoRoute)
  {
    hide Marked, Bypassed;
    ShutFailsClosed(k, Ipv4);
    ShutFailsClosed(Vanish(k), Ipv4);
    assert WithoutTunnel(k.table6) == k.table6;
    OpenLeaks(k, Ipv6);
    OpenLeaks(Vanish(k), Ipv6);
    forall p: Packet { MarkedExactly(k, p); }
    if k.table4 == {VIA_TUNNEL, UNREACHABLE4} {
      assert Best(k.table4, VIA_TUNNEL);
      assert !Best(k.table4, UNREACHABLE4);
    }
  }

  // ------------------------------------------------------------------- IPv6 over whole runs

  /** The marking chain as the run left it: gone, or loaded by a bring-up that sealed IPv6 or did not. */
  datatype Chain = Absent | Loaded(sealed6: bool)

  /** Read off the environment's schedule alone, apart from whether a bring-up went through. */
  function ChainAfter(was: Chain, e: Event): Chain {
    match e
    case UpEvent(c, t) =>
      if t.before == [] then was
      else if Up(CLEAN, c, t).status.Done? && |UpSteps(c)| <= |t.during| then Loaded(Seals6(c, t.during))
      else Absent
    case DownEvent(ts) => if ts == [] then was else Absent
    case VanishEvent => was
  }

  function ChainOf(was: Chain, es: seq<Event>): Chain
    decreases |es|
  {
    if es == [] then was else ChainOf(ChainAfter(was, es[0]), es[1..])
  }

  /** No sweep is refused the removal of the marks, and the one before a bring-up nothing. */
  predicate CleansFirst(e: Event) {
    MarksFirst(e) && (e.UpEvent? ==> Obeyed(e.schedule.before))
  }

  predicate ChainIs(k: Kernel, chain: Chain) {
    match chain
    case Absent => !k.nft
    case Loaded(sealed6) =>
      && k.nft && k.rule4 && UNREACHABLE4 in k.table4 && k.table6 <= {UNREACHABLE6}
      && (sealed6 <==> k.rule6 && k.table6 != {})
  }

  lemma SweepUnloads(k: Kernel, chain: Chain, ticks: seq<Tick>)
    requires MarksGo(ticks) && ChainIs(k, chain)
    ensures ChainIs(Sweep(k, DOWN_STEPS, ticks).k, if ticks == [] then chain else Absent)
  {
    hide RunStep;
    if ticks != [] {
      SweepEffect(k, ticks);
    }
  }

  lemma UpTracksChain(k: Kernel, c: Config, t: Schedule, chain: Chain)
    requires CleansFirst(UpEvent(c, t)) && ChainIs(k, chain)
    ensures ChainIs(Up(k, c, t).k, ChainAfter(chain, UpEvent(c, t)))
  {
    hide Sweep, Drive, UpSteps, RanAt;
    SweepUnloads(k, chain, t.before);
    SweepEffect(k, t.before);
    SweepEffect(CLEAN, t.before);
    if |t.before| >= 6 {
      SweepCleans(k, t.before);
      SweepCleans(CLEAN, t.before);
      if t.prepared {
        var r := Drive(CLEAN, UpSteps(c), t.during);
        if r.status.Done? {
          DoneState(k, c, t);
        } else {
          UpStepsLoadLast(c);
          UnfinishedKeepsMarks(CLEAN, UpSteps(c), t.during, Ipv6);
          SweepEffect(r.k, t.rollback);
        }
      }
    }
  }

  lemma {:induction false} RunTracksChain(k: Kernel, es: seq<Event>, chain: Chain)
    requires (forall e <- es :: CleansFirst(e)) && ChainIs(k, chain)
    ensures ChainIs(AfterAll(k, es), ChainOf(chain, es))
    decreases |es|
  {
    hide Up, Sweep;
    if es != [] {
      var e := es[0];
      assert CleansFirst(e);
      match e {
        case UpEvent(c, t) => UpTracksChain(k, c, t, chain);
        case DownEvent(ts) => SweepUnloads(k, chain, ts);
        case VanishEvent => assert k.table6 <= {UNREACHABLE6} ==> WithoutTunnel(k.table6) == k.table6;
      }
      RunTracksChain(After(k, e), es[1..], ChainAfter(chain, e));
    }
  }

  /**
   IPv6 over every run, each operation killed anywhere and the interface free to vanish: it fails
   closed if and only if the chain is not there, or the bring-up that loaded it carried out both of
   its optional steps. The probe stays off the main table in the second case alone.
   */
  lemma FailsClosed6Exactly(es: seq<Event>)
    requires forall e <- es :: CleansFirst(e)
    ensures var k, chain := AfterAll(CLEAN, es), ChainOf(Absent, es);
            && (k.nft <==> chain.Loaded?)
            && (FailsClosed(k, Ipv6) <==> chain != Loaded(false))
            && (FailsClosed(Vanish(k), Ipv6) <==> chain != Loaded(false))
            && (Takes(k, Probe(Ipv6), MainTable) <==> chain != Loaded(true))
  {
    RunTracksChain(CLEAN, es, Absent);
    var k := AfterAll(CLEAN, es);
    if k.nft {
      InstalledVerdicts(k);
      OpenLeaks(k, Ipv6);
    }
  }

  // ------------------------------------------------ where the marking chain may be loaded

  /** The bring-up with the marking chain loaded as the `j`-th of the route steps. */
  function LoadAt(c: Config, j: nat): seq<Step>
    requires j <= 5
  {
    LinkSteps(c) + (ROUTE_STEPS[..j] + ([Step(NftLoad, false)] + ROUTE_STEPS[j..5]))
  }

  function AllRun(n: nat): (t: seq<Tick>)
    ensures |t| == n && forall x <- t :: x == Tick(false, Runs)
  {
    seq(n, _ => Tick(false, Runs))
  }

  lemma {:induction false} AddsAreOrdered(steps: seq<Step>)
    requires forall s <- steps :: s in ROUTE_STEPS
    ensures Ordered(steps, Ipv4, true, true)
    decreases |steps|
  {
    if steps != [] {
      assert steps[0] in ROUTE_STEPS;
      AddsAreOrdered(steps[1..]);
    }
  }

  lemma LateLoadIsOrdered(j: nat)
    requires 3 <= j <= 5
    ensures Ordered(ROUTE_STEPS[..j] + ([Step(NftLoad, false)] + ROUTE_STEPS[j..5]), Ipv4, false, false)
  {
    var r := ROUTE_STEPS;
    var s := r[..j] + ([Step(NftLoad, false)] + r[j..5]);
    assert r[5] == Step(NftLoad, false);
    assert forall x <- s :: x in r;
    AddsAreOrdered(s[3..]);
    assert s[2] == r[2] && s[2..][1..] == s[3..] && Ordered(s[2..], Ipv4, true, false);
    assert s[1] == r[1] && s[1..][1..] == s[2..] && Ordered(s[1..], Ipv4, false, false);
    assert s[0] == r[0] && s[0..][1..] == s[1..];
  }

  /** No step in it is optional and concerns IPv4. */
  lemma LoadAtCarries4(c: Config, j: nat, ticks: seq<Tick>)
    requires j <= 5
    ensures Carried(LoadAt(c, j), ticks, Ipv4)
  {
    hide Seals;
    NothingSeals4(c);
    forall s <- LoadAt(c, j) ensures !Seals(s, Ipv4) {
      assert s in LinkSteps(c) || s in ROUTE_STEPS[..j] || s == Step(NftLoad, false) || s in ROUTE_STEPS[j..5];
      assert s in LinkSteps(c) || s in ROUTE_STEPS || s == Step(NftLoad, false);
    }
  }

  lemma NothingSeals4(c: Config)
    ensures (forall s <- LinkSteps(c) :: !Seals(s, Ipv4)) && (forall s <- ROUTE_STEPS :: !Seals(s, Ipv4))
    ensures !Seals(Step(NftLoad, false), Ipv4)
  {}

  lemma {:induction false} DriveThrough(k: Kernel, a: seq<Step>, b: seq<Step>, ta: seq<Tick>, tb: seq<Tick>)
    requires |ta| == |a| && Drive(k, a, ta).status == Done
    ensures Drive(k, a + b, ta + tb) == Drive(Drive(k, a, ta).k, b, tb)
    decreases |a|
  {
    if a == [] {
      assert a + b == b && ta + tb == tb;
    } else {
      assert (a + b)[1..] == a[1..] + b && (ta + tb)[1..] == ta[1..] + tb;
      DriveThrough(RunStep(k, a[0], ta[0]).k, a[1..], b, ta[1..], tb);
    }
  }

  /** One undisturbed command that the kernel accepts. */
  lemma DriveRuns(k: Kernel, s: Step)
    requires Can(k, s.command)
    ensures Drive(k, [s], AllRun(1)) == Outcome(Effect(k, s.command), Done)
  {}

  predicate Distinct(xs: seq<string>) {
    forall i, j :: 0 <= i < j < |xs| ==> xs[i] != xs[j]
  }

  lemma {:induction false} AddressesRun(k: Kernel, addresses: seq<string>)
    requires k.iface.Interface? && Distinct(addresses) && forall a <- addresses :: a !in k.iface.addresses
    ensures Drive(k, AddressSteps(addresses), AllRun(|addresses|)).status == Done
    ensures Drive(k, AddressSteps(addresses), AllRun(|addresses|)).k.iface.Interface?
    decreases |addresses|
  {
    if addresses != [] {
      var s := AddressSteps(addresses);
      assert addresses[0] in addresses;
      var k1 := Effect(k, s[0].command);
      assert s[1..] == AddressSteps(addresses[1..]) && AllRun(|addresses|)[1..] == AllRun(|addresses| - 1);
      assert forall i :: 0 <= i < |addresses[1..]| ==> addresses[1..][i] == addresses[i + 1];
      AddressesRun(k1, addresses[1..]);
    }
  }

  /** With distinct addresses, an undisturbed link part passes. */
  lemma LinkRuns(c: Config)
    requires Distinct(c.addresses)
    ensures var r := Drive(CLEAN, LinkSteps(c), AllRun(|LinkSteps(c)|));
            r.status == Done && r.k.iface.Interface? && r.k.iface.up
  {
    var n := |c.addresses|;
    var adds, last := AddressSteps(c.addresses), [Step(LinkUp(MtuOf(c)), false)];
    var a, b := [Step(LinkAdd, false)], [Step(SetConf, false)];
    DriveRuns(CLEAN, a[0]);
    var k1 := Effect(CLEAN, LinkAdd);
    DriveRuns(k1, b[0]);
    var k2 := Effect(k1, SetConf);
    AddressesRun(k2, c.addresses);
    var k3 := Drive(k2, adds, AllRun(n)).k;
    DriveRuns(k3, last[0]);
    DriveThrough(k2, adds, last, AllRun(n), AllRun(1));
    DriveThrough(k1, b, adds + last, AllRun(1), AllRun(n) + AllRun(1));
    DriveThrough(CLEAN, a, b + (adds + last), AllRun(1), AllRun(1) + (AllRun(n) + AllRun(1)));
    assert LinkSteps(c) == a + (b + (adds + last));
    assert AllRun(|LinkSteps(c)|) == AllRun(1) + (AllRun(1) + (AllRun(n) + AllRun(1)));
  }

  /** The undisturbed schedule with the `i`-th route step refused. */
  function RefusedAt(c: Config, i: nat): Schedule
    requires i < 6
  {
    Schedule(AllRun(6), true, AllRun(|LinkSteps(c)|) + AllRun(6)[i := Tick(false, Refused)], [])
  }

  lemma DriveOn(k: Kernel, t: seq<Tick>, i: nat)
    requires i < 6 && i < |t| && RunStep(k, ROUTE_STEPS[i], t[i]).ok
    ensures Drive(k, ROUTE_STEPS[i..], t[i..]) ==
            Drive(RunStep(k, ROUTE_STEPS[i], t[i]).k, ROUTE_STEPS[i + 1..], t[i + 1..])
  {}

  /** The interface stays up under an undisturbed route step. */
  lemma RoutePasses(k: Kernel, i: nat, t: Tick)
    requires i < 6 && !t.vanish && (t.attempt == Runs || (t.attempt == Refused && 3 <= i <= 4))
    requires k.iface.Interface? && k.iface.up
    requires (i == 0 ==> k.table4 == {}) && (i == 1 ==> k.table4 == {VIA_TUNNEL}) && (i <= 2 ==> !k.rule4)
    ensures var r := RunStep(k, ROUTE_STEPS[i], t);
            && r.ok && r.k.iface == k.iface && (i != 2 ==> r.k.rule4 == k.rule4)
            && (i == 0 ==> r.k.table4 == {VIA_TUNNEL})
  {}

  /** The route steps pass with nothing amiss but, perhaps, a refused optional step. */
  lemma RoutesPass(k: Kernel, t: seq<Tick>)
    requires k.iface.Interface? && k.iface.up && k.table4 == {} && !k.rule4 && |t| == 6
    requires forall i :: 0 <= i < 6 ==>
               !t[i].vanish && (t[i].attempt == Runs || (t[i].attempt == Refused && 3 <= i <= 4))
    ensures Drive(k, ROUTE_STEPS, t).status == Done
  {
    hide RunStep, Drive;
    var n, r := 0, k;
    assert ROUTE_STEPS[0..] == ROUTE_STEPS && t[0..] == t;
    while n < 6
      invariant 0 <= n <= 6 && r.iface.Interface? && r.iface.up && (n <= 2 ==> !r.rule4)
      invariant (n == 0 ==> r.table4 == {}) && (n == 1 ==> r.table4 == {VIA_TUNNEL})
      invariant Drive(k, ROUTE_STEPS, t) == Drive(r, ROUTE_STEPS[n..], t[n..])
    {
      RoutePasses(r, n, t[n]);
      DriveOn(r, t, n);
      r, n := RunStep(r, ROUTE_STEPS[n], t[n]).k, n + 1;
    }
    NothingLeft(r, ROUTE_STEPS[6..], t[6..]);
  }

  /** With distinct addresses the bring-up passes. */
  lemma PassesWith(c: Config, t: seq<Tick>)
    requires Distinct(c.addresses) && |t| == 6
    requires forall i :: 0 <= i < 6 ==>
               !t[i].vanish && (t[i].attempt == Runs || (t[i].attempt == Refused && 3 <= i <= 4))
    ensures Drive(CLEAN, UpSteps(c), AllRun(|LinkSteps(c)|) + t).status == Done
  {
    hide Drive;
    var link := LinkSteps(c);
    LinkRuns(c);
    LinkStepsKeep(CLEAN, link, AllRun(|link|));
    RoutesPass(Drive(CLEAN, link, AllRun(|link|)).k, t);
    DriveThrough(CLEAN, link, ROUTE_STEPS, AllRun(|link|), t);
  }

  /** An address given twice is turned away the second time. */
  lemma {:induction false} PassedAreDistinct(k: Kernel, addresses: seq<string>, ticks: seq<Tick>)
    requires k.iface.Interface? && (forall t <- ticks :: !t.vanish)
    requires Drive(k, AddressSteps(addresses), ticks).status == Done
    ensures Distinct(addresses) && forall a <- addresses :: a !in k.iface.addresses
    decreases |addresses|
  {
    if addresses != [] {
      var steps := AddressSteps(addresses);
      PassedMeansRun(k, steps[0], ticks[0]);
      assert steps[1..] == AddressSteps(addresses[1..]);
      PassedAreDistinct(RunStep(k, steps[0], ticks[0]).k, addresses[1..], ticks[1..]);
      assert forall i :: 1 <= i < |addresses| ==>
          addresses[i] == addresses[1..][i - 1] && addresses[i] in addresses[1..];
    }
  }

  lemma PassedLinkIsDistinct(c: Config, ticks: seq<Tick>)
    requires Drive(CLEAN, UpSteps(c), ticks).status == Done && (forall t <- ticks :: !t.vanish)
    ensures Distinct(c.addresses)
  {
    hide Drive;
    var lead, adds := [Step(LinkAdd, false), Step(SetConf, false)], AddressSteps(c.addresses);
    var last := [Step(LinkUp(MtuOf(c)), false)] + ROUTE_STEPS;
    assert UpSteps(c) == lead + (adds + last);
    DriveSplits(CLEAN, lead, adds + last, ticks);
    LeadIsBuilt(ticks[..2]);
    var k1, t1 := Drive(CLEAN, lead, ticks[..2]).k, ticks[2..];
    DriveSplits(k1, adds, last, t1);
    PassedAreDistinct(k1, c.addresses, t1[..|adds|]);
  }

  lemma {:induction false} EnoughTicks(k: Kernel, steps: seq<Step>, ticks: seq<Tick>)
    requires |steps| <= |ticks|
    ensures !Drive(k, steps, ticks).status.Killed?
    decreases |steps|
  {
    if steps != [] {
      var r := RunStep(k, steps[0], ticks[0]);
      if r.ok { EnoughTicks(r.k, steps[1..], ticks[1..]); }
    }
  }

  /** Undisturbed, from any kernel state: bring-up succeeds if and only if no address is given twice. */
  lemma UndisturbedExactly(k: Kernel, c: Config)
    ensures var t := Schedule(AllRun(6), true, AllRun(|UpSteps(c)|), AllRun(6));
            Up(k, c, t).status == if Distinct(c.addresses) then Done else Failed
  {
    hide Drive, Sweep, UpSteps, LinkSteps;
    var during := AllRun(|UpSteps(c)|);
    SweepCleans(k, AllRun(6));
    EnoughTicks(CLEAN, UpSteps(c), during);
    var r := Drive(CLEAN, UpSteps(c), during);
    SweepCleans(r.k, AllRun(6));
    if Distinct(c.addresses) {
      PassesWith(c, AllRun(6));
      SplitTicks(c);
    } else if r.status.Done? {
      PassedLinkIsDistinct(c, during);
    }
  }

  lemma SplitTicks(c: Config)
    ensures AllRun(|UpSteps(c)|) == AllRun(|LinkSteps(c)|) + AllRun(6)
  {}

  /**
   The optional steps are where IPv6 leaks: with either of them refused and nothing else amiss, a
   bring-up succeeds and a guarded IPv6 packet takes the main table.
   */
  lemma RefusedOptionalLeaks6(k: Kernel, c: Config, i: nat)
    requires 3 <= i <= 4 && Distinct(c.addresses)
    ensures var r := Up(k, c, RefusedAt(c, i));
            && r.status == Done && Guarded(Probe(Ipv6)) && Probe(Ipv6).dst.V6?
            && Takes(r.k, Probe(Ipv6), MainTable)
  {
    hide Drive, Sweep, Takes, Guarded;
    var t := RefusedAt(c, i);
    SweepCleans(k, t.before);
    PassesWith(c, AllRun(6)[i := Tick(false, Refused)]);
    assert t.during[|LinkSteps(c)| + i] == Tick(false, Refused);
    BringUpInstalls(k, c, t);
    OpenLeaks(Up(k, c, t).k, Ipv6);
    ProbeIsGuarded(Ipv6);
  }

  lemma EarlyLoadLeaks(k: Kernel, j: nat)
    requires j < 3 && k.table4 == {} && !k.rule4 && k.iface.Interface? && k.iface.up
    ensures var s := ROUTE_STEPS[..j] + ([Step(NftLoad, false)] + ROUTE_STEPS[j..5]);
            var r := Drive(k, s, AllRun(j + 1));
            r.k.nft && !r.k.rule4
  {
    var load, more := [Step(NftLoad, false)], ROUTE_STEPS[j..5];
    var pre := ROUTE_STEPS[..j];
    PrefixRuns(k, j);
    var k1 := Drive(k, pre, AllRun(j)).k;
    DriveRuns(k1, load[0]);
    DriveThrough(k1, load, more, AllRun(1), []);
    DriveThrough(k, pre, load + more, AllRun(j), AllRun(1) + []);
    assert AllRun(j + 1) == AllRun(j) + (AllRun(1) + []);
  }

  lemma PrefixRuns(k: Kernel, j: nat)
    requires j < 3 && k.table4 == {} && !k.rule4 && k.iface.Interface? && k.iface.up
    ensures var r := Drive(k, ROUTE_STEPS[..j], AllRun(j));
            r.status == Done && !r.k.rule4
  {
    var via, block := Step(RouteAdd4(VIA_TUNNEL), false), Step(RouteAdd4(UNREACHABLE4), false);
    if j == 1 {
      assert ROUTE_STEPS[..1] == [via];
      DriveRuns(k, via);
    } else if j == 2 {
      DriveRuns(k, via);
      var k1 := Effect(k, via.command);
      DriveRuns(k1, block);
      DriveThrough(k, [via], [block], AllRun(1), AllRun(1));
      assert ROUTE_STEPS[..2] == [via] + [block] && AllRun(2) == AllRun(1) + AllRun(1);
    }
  }

  /**
   The order is what fails closed: loading the marking chain as the `j`-th route step fails closed
   at every prefix of every schedule if and only if it comes after the third, the policy rule.
   The code loads it last.
   */
  lemma LoadPlaceExactly(c: Config, j: nat)
    requires j <= 5 && Distinct(c.addresses)
    ensures (forall ticks :: FailsClosed(Drive(CLEAN, LoadAt(c, j), ticks).k, Ipv4)) <==> j >= 3
    ensures LoadAt(c, 5) == UpSteps(c)
  {
    hide FailsClosed, Drive, Ordered, Carried;
    var link := LinkSteps(c);
    var s := ROUTE_STEPS[..j] + ([Step(NftLoad, false)] + ROUTE_STEPS[j..5]);
    assert ROUTE_STEPS == ROUTE_STEPS[..5] + ([Step(NftLoad, false)] + ROUTE_STEPS[5..5]);
    if j >= 3 {
      LateLoadIsOrdered(j);
      LinkStepsAreOrdered(link, s, Ipv4);
      forall ticks ensures FailsClosed(Drive(CLEAN, LoadAt(c, j), ticks).k, Ipv4) {
        LoadAtCarries4(c, j, ticks);
        OrderedStaysShut(CLEAN, LoadAt(c, j), ticks, Ipv4, false, false);
        ShutFailsClosed(Drive(CLEAN, LoadAt(c, j), ticks).k, Ipv4);
      }
    } else {
      LinkRuns(c);
      LinkStepsKeep(CLEAN, link, AllRun(|link|));
      var k := Drive(CLEAN, link, AllRun(|link|)).k;
      EarlyLoadLeaks(k, j);
      DriveThrough(CLEAN, link, s, AllRun(|link|), AllRun(j + 1));
      OpenLeaks(Drive(CLEAN, LoadAt(c, j), AllRun(|link|) + AllRun(j + 1)).k, Ipv4);
    }
  }
}
