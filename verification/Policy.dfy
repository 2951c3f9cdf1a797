/**
 Per-query routing (crates/dns-core/src/policy.rs) and the policy of a profile
 (crates/dns-core/src/config.rs).

 Names are ASCII, as `Name::to_ascii` prints them, so byte positions are character positions.
 */
module Policy {
  import opened Strings
  import opened Wrappers

  datatype Route = Doh | SystemUpstream

  const LOCAL_SUFFIXES: seq<string> :=
    ["local", "lan", "home", "home.arpa", "internal", "intranet", "localdomain", "localhost"]

  function TrimDots(s: string): (r: string)
    ensures |r| <= |s| && r == s[..|r|]
    ensures r != [] ==> r[|r| - 1] != '.'
    ensures s != [] && s[|s| - 1] != '.' ==> r == s
  {
    if s != [] && s[|s| - 1] == '.' then TrimDots(s[..|s| - 1]) else s
  }

  /** Names and rules meet in this form: no dots at the end, no capitals. */
  function Normalise(s: string): string {
    Lower(TrimDots(s))
  }

  /** The byte comparison behind every rule: `name` is something, a dot, and then `suffix`. */
  predicate EndsBelow(name: string, suffix: string) {
    |name| > |suffix| && EndsWith(name, suffix) && name[|name| - |suffix| - 1] == '.'
  }

  predicate SuffixMatches(name: string, rule: string) {
    var suffix := Normalise(rule);
    if suffix == "" then false
    else if StartsWith(suffix, "*.") then EndsBelow(name, suffix[2..])
    else name == suffix || EndsBelow(name, suffix)
  }

  predicate AnyMatches(name: string, rules: seq<string>) {
    exists rule :: rule in rules && SuffixMatches(name, rule)
  }

  // ----------------------------------------------------------- whole-label matching

  function Labels(s: string): seq<string> {
    Split(s, '.')
  }

  predicate LabelSuffix(name: seq<string>, suffix: seq<string>) {
    |suffix| <= |name| && name[|name| - |suffix|..] == suffix
  }

  predicate ProperLabelSuffix(name: seq<string>, suffix: seq<string>) {
    |suffix| < |name| && LabelSuffix(name, suffix)
  }

  /** The byte test is the label test. */
  lemma EndsBelowIsLabelwise(name: string, suffix: string)
    ensures EndsBelow(name, suffix) <==> ProperLabelSuffix(Labels(name), Labels(suffix))
  {
    if EndsBelow(name, suffix) {
      var front := name[..|name| - |suffix| - 1];
      assert name == front + ['.'] + suffix;
      SplitConcat(front, suffix, '.');
    }
    if ProperLabelSuffix(Labels(name), Labels(suffix)) {
      var front := Labels(name)[..|Labels(name)| - |Labels(suffix)|];
      assert Labels(name) == front + Labels(suffix);
      JoinConcat(front, Labels(suffix), '.');
      JoinSplit(name, '.');
      JoinSplit(suffix, '.');
      assert name == Join(front, '.') + ['.'] + suffix;
    }
  }

  /**
   For every name and every rule, the string test holds exactly when the rule's labels are a
   suffix of the name's; a proper one for a `*.` rule, whose remainder is never empty.
   */
  lemma SuffixMatchesIsLabelwise(name: string, rule: string)
    ensures var r := Normalise(rule);
            && (StartsWith(r, "*.") ==> |r| > 2)
            && (SuffixMatches(name, rule) <==>
                 r != "" && if StartsWith(r, "*.") then ProperLabelSuffix(Labels(name), Labels(r[2..]))
                            else LabelSuffix(Labels(name), Labels(r)))
  {
    var r := Normalise(rule);
    if StartsWith(r, "*.") {
      assert r[1] == "*."[1] == '.';
      EndsBelowIsLabelwise(name, r[2..]);
    } else {
      EndsBelowIsLabelwise(name, r);
      SameLabels(name, r);
    }
  }

  lemma SameLabels(a: string, b: string)
    ensures |Labels(a)| == |Labels(b)| && LabelSuffix(Labels(a), Labels(b)) <==> a == b
  {
    JoinSplit(a, '.');
    JoinSplit(b, '.');
  }

  // --------------------------------------------------------------- built-in local names

  function TrimEndMatches(s: string, p: string): (r: string)
    requires p != ""
  {
    if EndsWith(s, p) then TrimEndMatches(s[..|s| - |p|], p) else s
  }

  predicate PrivateOctets(labels: seq<string>) {
    var n := |labels|;
    if n >= 2 then
      var a, b := ParseNat(labels[n - 1], 256), ParseNat(labels[n - 2], 256);
      || a == Some(10)
      || (a == Some(192) && b == Some(168))
      || (a == Some(172) && b.Some? && 16 <= b.value <= 31)
      || a == Some(127)
      || (a == Some(169) && b == Some(254))
    else if n == 1 then ParseNat(labels[0], 256) in {Some(10), Some(127)}
    else false
  }

  predicate PrivateNibbles(labels: seq<string>) {
    var n := |labels|;
    n >= 2 &&
    var prefix := labels[n - 1] + labels[n - 2];
    || StartsWith(prefix, "fc") || StartsWith(prefix, "fd")
    || StartsWith(prefix, "fe8") || StartsWith(prefix, "fe9") || StartsWith(prefix, "fea") || StartsWith(prefix, "feb")
  }

  const IN_ADDR: string := ".in-addr.arpa"
  const IP6: string := ".ip6.arpa"

  predicate IsPrivateReverse(name: string) {
    if EndsWith(name, IN_ADDR) then PrivateOctets(Split(name[..|name| - |IN_ADDR|], '.'))
    else EndsWith(name, IP6) && PrivateNibbles(Split(TrimEndMatches(name, IP6), '.'))
  }

  predicate IsBuiltinLocal(name: string) {
    AnyMatches(name, LOCAL_SUFFIXES) || '.' !in name || IsPrivateReverse(name)
  }

  // --------------------------------------------------------------------------- routing

  datatype Policy = Policy(defaultDoh: bool, forceDoh: seq<string>, forceLocal: seq<string>)

  const DEFAULT: Policy := Policy(true, [], [])

  /** Some local rule, the user's or a built-in one, claims the (normalised) name. */
  predicate IsLocal(p: Policy, name: string) {
    AnyMatches(name, p.forceLocal) || IsBuiltinLocal(name)
  }

  function RouteOf(p: Policy, ascii: string): Route {
    var name := Normalise(ascii);
    if AnyMatches(name, p.forceLocal) then SystemUpstream
    else if IsBuiltinLocal(name) then SystemUpstream
    else if AnyMatches(name, p.forceDoh) then Doh
    else if p.defaultDoh then Doh else SystemUpstream
  }

  function NormaliseAll(rules: seq<string>): seq<string> {
    seq(|rules|, i requires 0 <= i < |rules| => Normalise(rules[i]))
  }

  function SetForceDoh(p: Policy, domains: seq<string>): Policy {
    p.(forceDoh := NormaliseAll(domains))
  }

  datatype Profile = Profile(id: string, domains: seq<string>)

  datatype Config = Config(policy: Policy, profiles: seq<Profile>)

  /** The first profile with the id. */
  function FindProfile(ps: seq<Profile>, id: string): (r: Option<Profile>)
    ensures r.Some? ==>
              exists i :: 0 <= i < |ps| && ps[i] == r.value && ps[i].id == id &&
                          forall j :: 0 <= j < i ==> ps[j].id != id
    ensures r.None? ==> forall p <- ps :: p.id != id
  {
    if ps == [] then None
    else if ps[0].id == id then Some(ps[0])
    else assert forall i :: 1 <= i < |ps| ==> ps[i] == ps[1..][i - 1]; FindProfile(ps[1..], id)
  }

  function PolicyFor(c: Config, id: Option<string>): Policy {
    var profile := if id.Some? then FindProfile(c.profiles, id.value) else None;
    match profile
    case None => c.policy
    case Some(p) => SetForceDoh(c.policy, c.policy.forceDoh + p.domains)
  }

  /** The policy as the code holds it: a value whose forced-DoH list is overwritten in place. */
  class ActivePolicy {
    var policy: Policy

    constructor (p: Policy)
      ensures policy == p
    {
      policy := p;
    }

    method OverwriteForceDoh(domains: seq<string>)
      modifies this
      ensures policy == SetForceDoh(old(policy), domains)
      ensures policy.defaultDoh == old(policy.defaultDoh) && policy.forceLocal == old(policy.forceLocal)
      ensures |policy.forceDoh| == |domains|
      ensures forall i :: 0 <= i < |domains| ==> policy.forceDoh[i] == Normalise(domains[i])
    {
      var list: seq<string> := [];
      for i := 0 to |domains|
        invariant list == NormaliseAll(domains)[..i]
      {
        list := list + [Normalise(domains[i])];
      }
      policy := policy.(forceDoh := list);
    }
  }

  /** `policy_for`: clone, and overwrite the list when the profile is found. */
  method ActivateProfile(c: Config, id: Option<string>) returns (p: Policy)
    ensures p == PolicyFor(c, id)
  {
    var active := new ActivePolicy(c.policy);
    if id.Some? {
      var profile := FindProfile(c.profiles, id.value);
      if profile.Some? {
        active.OverwriteForceDoh(c.policy.forceDoh + profile.value.domains);
      }
    }
    return active.policy;
  }

  lemma NormaliseIdempotent(s: string)
    ensures Normalise(Normalise(s)) == Normalise(s)
  {}

  lemma NormalisedListMatchesSame(name: string, rules: seq<string>)
    ensures AnyMatches(name, NormaliseAll(rules)) <==> AnyMatches(name, rules)
  {
    forall i | 0 <= i < |rules|
      ensures SuffixMatches(name, NormaliseAll(rules)[i]) <==> SuffixMatches(name, rules[i])
    {
      NormaliseIdempotent(rules[i]);
    }
    if rule :| rule in rules && SuffixMatches(name, rule) {
      var i :| 0 <= i < |rules| && rules[i] == rule;
      assert NormaliseAll(rules)[i] in NormaliseAll(rules);
    }
  }

  lemma AnyMatchesAppend(name: string, a: seq<string>, b: seq<string>)
    ensures AnyMatches(name, a + b) <==> AnyMatches(name, a) || AnyMatches(name, b)
  {}

  /**
   Activating a profile changes a route exactly when the name is not local, one of the profile's
   domains matches it, and neither the user's own list nor the default sent it to DoH; the
   change is always from the system resolver to DoH.
   */
  lemma ActivationExactly(c: Config, id: string, profile: Profile, ascii: string)
    requires FindProfile(c.profiles, id) == Some(profile)
    ensures var name := Normalise(ascii);
            var before, after := RouteOf(c.policy, ascii), RouteOf(PolicyFor(c, Some(id)), ascii);
            && (before != after <==>
                 && !IsLocal(c.policy, name) && AnyMatches(name, profile.domains)
                 && !AnyMatches(name, c.policy.forceDoh) && !c.policy.defaultDoh)
            && (before != after ==> before == SystemUpstream && after == Doh)
            && (IsLocal(c.policy, name) ==> after == SystemUpstream)
  {
    hide AnyMatches, IsBuiltinLocal;
    var name := Normalise(ascii);
    NormalisedListMatchesSame(name, c.policy.forceDoh + profile.domains);
    AnyMatchesAppend(name, c.policy.forceDoh, profile.domains);
  }

  /** Without a profile, or with one nobody defined, the policy is untouched. */
  lemma UnknownProfileChangesNothing(c: Config, id: Option<string>)
    requires id.Some? ==> forall p <- c.profiles :: p.id != id.value
    ensures PolicyFor(c, id) == c.policy
  {}

  function Dots(n: nat): string {
    seq(n, _ => '.')
  }

  lemma {:induction false} DotsAreTrimmed(s: string, n: nat)
    ensures TrimDots(s + Dots(n)) == TrimDots(s)
  {
    if n == 0 {
      assert s + Dots(0) == s;
    } else {
      var t := s + Dots(n);
      assert t[..|t| - 1] == s + Dots(n - 1);
      DotsAreTrimmed(s, n - 1);
    }
  }

  lemma {:induction false} TrimIgnoresCase(a: string, b: string)
    requires |a| == |b| && forall i :: 0 <= i < |a| ==> LowerChar(a[i]) == LowerChar(b[i])
    ensures |TrimDots(a)| == |TrimDots(b)|
  {
    if a != [] {
      var n := |a| - 1;
      assert LowerChar(a[n]) == LowerChar(b[n]);
      if a[n] == '.' { TrimIgnoresCase(a[..n], b[..n]); }
    }
  }

  lemma {:induction false} TrimDotsExactly(s: string)
    ensures s == TrimDots(s) + Dots(|s| - |TrimDots(s)|)
    decreases |s|
  {
    if s != [] && s[|s| - 1] == '.' {
      TrimDotsExactly(s[..|s| - 1]);
      assert s == s[..|s| - 1] + ".";
    }
  }

  /** The normal form of a spelling: what is left without the dots at the end, in small letters. */
  lemma NormaliseExactly(s: string, r: string)
    ensures Normalise(s) == r <==>
              exists base, n: nat :: s == base + Dots(n) && (base == "" || base[|base| - 1] != '.') &&
                                     SameSpelling(r, base) && forall c <- r :: !('A' <= c <= 'Z')
  {
    TrimDotsExactly(s);
    LowerFoldsCase(TrimDots(s), TrimDots(s));
    forall base, n: nat | s == base + Dots(n) && (base == "" || base[|base| - 1] != '.') &&
                          SameSpelling(r, base) && forall c <- r :: !('A' <= c <= 'Z')
      ensures Normalise(s) == r
    {
      DotsAreTrimmed(base, n);
      assert TrimDots(base) == base;
      LowerFoldsCase(r, base);
      LowIsFixed(r);
    }
  }

  /** Two spellings of a name that differ in letter case and trailing dots have one route under every policy. */
  lemma NameSpellingIsIrrelevant(p: Policy, a: string, b: string, n: nat)
    requires SameSpelling(a, b)
    ensures RouteOf(p, a + Dots(n)) == RouteOf(p, b)
  {
    LowerFoldsCase(a, b);
    assert forall i :: 0 <= i < |a| ==> Lower(a)[i] == Lower(b)[i];
    DotsAreTrimmed(a, n);
    TrimIgnoresCase(a, b);
    assert Lower(TrimDots(a)) == Lower(TrimDots(b));
  }

  /** Letter case and trailing dots of every list are irrelevant to every route. */
  lemma ListSpellingIsIrrelevant(p: Policy, ascii: string)
    ensures RouteOf(p.(forceDoh := NormaliseAll(p.forceDoh), forceLocal := NormaliseAll(p.forceLocal)), ascii) ==
            RouteOf(p, ascii)
    ensures RouteOf(p, Normalise(ascii)) == RouteOf(p, ascii)
  {
    hide AnyMatches, IsBuiltinLocal;
    NormalisedListMatchesSame(Normalise(ascii), p.forceDoh);
    NormalisedListMatchesSame(Normalise(ascii), p.forceLocal);
    NormaliseIdempotent(ascii);
  }

  // ---------------------------------------------------------- built-in names by label

  lemma LocalSuffixIsPlain(s: string)
    requires s in LOCAL_SUFFIXES
    ensures Normalise(s) == s && s != "" && !StartsWith(s, "*.")
  {
    assert s[0] != '*' && s[|s| - 1] != '.';
    assert forall i :: 0 <= i < |s| ==> !('A' <= s[i] <= 'Z');
    assert Lower(s) == s;
  }

  /** In labels: a built-in local name ends in a local suffix, has one label, or is a private reverse name. */
  lemma BuiltinLocalIsLabelwise(name: string)
    ensures IsBuiltinLocal(name) <==>
              || (exists s :: s in LOCAL_SUFFIXES && LabelSuffix(Labels(name), Labels(s)))
              || |Labels(name)| == 1
              || IsPrivateReverse(name)
  {
    hide IsPrivateReverse, SuffixMatches, LabelSuffix, Labels, Normalise, StartsWith;
    forall s | s in LOCAL_SUFFIXES
      ensures SuffixMatches(name, s) <==> LabelSuffix(Labels(name), Labels(s))
    {
      LocalSuffixIsPlain(s);
      SuffixMatchesIsLabelwise(name, s);
    }
    OneLabel(name);
  }

  lemma OneLabel(name: string)
    ensures |Labels(name)| == 1 <==> '.' !in name
  {}

  // ------------------------------------------------------------ the whole route by label

  /** The rule claims the name, by label: a suffix of its labels, a proper one for `*.`. */
  predicate Claims(rule: string, name: string) {
    var r := Normalise(rule);
    r != "" && if StartsWith(r, "*.") then ProperLabelSuffix(Labels(name), Labels(r[2..]))
               else LabelSuffix(Labels(name), Labels(r))
  }

  predicate IsLocalLabel(l: string) {
    l in {"local", "lan", "home", "internal", "intranet", "localdomain", "localhost"}
  }

  /** The last label, or the last two, mean the local network. */
  predicate EndsLocally(ls: seq<string>) {
    var n := |ls|;
    || (n >= 1 && IsLocalLabel(ls[n - 1]))
    || (n >= 2 && ls[n - 2] == "home" && ls[n - 1] == "arpa")
  }

  /** The first octet, or the first two, of a reverse name: 10, 127, 192.168, 172.16 to 172.31, 169.254. */
  predicate PrivateInAddr(ls: seq<string>) {
    var n := |ls|;
    n >= 3 && ls[n - 1] == "arpa" && ls[n - 2] == "in-addr" &&
    var a := ParseNat(ls[n - 3], 256);
    || a == Some(10) || a == Some(127)
    || (n >= 4 &&
        var b := ParseNat(ls[n - 4], 256);
        || (a == Some(192) && b == Some(168))
        || (a == Some(172) && b.Some? && b.value in {16, 17, 18, 19, 20, 21, 22, 23, 24, 25, 26, 27, 28, 29, 30, 31})
        || (a == Some(169) && b == Some(254)))
  }

  /** The labels without any number of `ip6.arpa` pairs at the end. */
  function WithoutIp6(ls: seq<string>): seq<string> {
    var n := |ls|;
    if n >= 3 && ls[n - 2] == "ip6" && ls[n - 1] == "arpa" then WithoutIp6(ls[..n - 2]) else ls
  }

  /** The two labels before them, turned round, begin like a private prefix. */
  predicate PrivateIp6(ls: seq<string>) {
    var rest := WithoutIp6(ls);
    |rest| < |ls| && |rest| >= 2 &&
    var prefix := rest[|rest| - 1] + rest[|rest| - 2];
    || (|prefix| >= 2 && prefix[..2] in {"fc", "fd"})
    || (|prefix| >= 3 && prefix[..3] in {"fe8", "fe9", "fea", "feb"})
  }

  lemma BelowIsProper(name: string, top: string, dotted: string)
    requires dotted == "." + top
    ensures EndsWith(name, dotted) <==> ProperLabelSuffix(Labels(name), Labels(top))
    ensures EndsWith(name, dotted) ==> Labels(name) == Labels(name[..|name| - |dotted|]) + Labels(top)
  {
    hide Labels;
    EndsBelowIsLabelwise(name, top);
    if EndsWith(name, dotted) {
      var rest := name[..|name| - |dotted|];
      assert name[|name| - |dotted|..][1..] == top && name[|name| - |dotted|..][0] == '.';
      assert name == rest + ['.'] + top;
      assert EndsBelow(name, top);
      LabelsConcat(rest, top);
    }
  }

  lemma TwoLabels(a: string, b: string)
    requires '.' !in a && '.' !in b
    ensures Labels(a + ['.'] + b) == [a, b] && Labels(a) == [a]
  {
    SplitSingle(a, '.');
    SplitSingle(b, '.');
    SplitConcat(a, b, '.');
  }

  lemma LastTwo(ls: seq<string>, a: string, b: string)
    ensures ProperLabelSuffix(ls, [a, b]) <==> |ls| >= 3 && ls[|ls| - 2] == a && ls[|ls| - 1] == b
  {
    SuffixOfTwo(ls, a, b);
  }

  lemma InAddrIsLabelwise(name: string)
    ensures EndsWith(name, IN_ADDR) <==>
              && |Labels(name)| >= 3
              && Labels(name)[|Labels(name)| - 2] == "in-addr" && Labels(name)[|Labels(name)| - 1] == "arpa"
    ensures EndsWith(name, IN_ADDR) ==>
              (PrivateOctets(Split(name[..|name| - |IN_ADDR|], '.')) <==> PrivateInAddr(Labels(name)))
  {
    hide Labels, ParseNat;
    var top := "in-addr" + ['.'] + "arpa";
    TwoLabels("in-addr", "arpa");
    assert IN_ADDR == "." + top;
    BelowIsProper(name, top, IN_ADDR);
    LastTwo(Labels(name), "in-addr", "arpa");
    if EndsWith(name, IN_ADDR) {
      var rest := name[..|name| - |IN_ADDR|];
      LabelsIsSplit(rest);
    }
  }

  lemma {:induction false} Ip6IsLabelwise(name: string)
    ensures Split(TrimEndMatches(name, IP6), '.') == WithoutIp6(Labels(name))
    ensures EndsWith(name, IP6) <==> |WithoutIp6(Labels(name))| < |Labels(name)|
    decreases |name|
  {
    hide Labels;
    var top := "ip6" + ['.'] + "arpa";
    TwoLabels("ip6", "arpa");
    assert IP6 == "." + top;
    BelowIsProper(name, top, IP6);
    LastTwo(Labels(name), "ip6", "arpa");
    if EndsWith(name, IP6) {
      var rest := name[..|name| - |IP6|];
      Ip6IsLabelwise(rest);
      assert Labels(name)[..|Labels(name)| - 2] == Labels(rest);
      WithoutIp6Shrinks(Labels(rest));
    } else {
      LabelsIsSplit(name);
    }
  }

  lemma {:induction false} WithoutIp6Shrinks(ls: seq<string>)
    ensures |WithoutIp6(ls)| <= |ls|
    decreases |ls|
  {
    var n := |ls|;
    if n >= 3 && ls[n - 2] == "ip6" && ls[n - 1] == "arpa" { WithoutIp6Shrinks(ls[..n - 2]); }
  }

  lemma PrivateReverseIsLabelwise(name: string)
    ensures IsPrivateReverse(name) <==> PrivateInAddr(Labels(name)) || PrivateIp6(Labels(name))
  {
    hide Labels, PrivateOctets, EndsWith, TrimEndMatches, Split;
    InAddrIsLabelwise(name);
    Ip6IsLabelwise(name);
    PrefixByLetters(WithoutIp6(Labels(name)));
  }

  lemma PrefixByLetters(rest: seq<string>)
    ensures PrivateNibbles(rest) <==>
              |rest| >= 2 &&
              var prefix := rest[|rest| - 1] + rest[|rest| - 2];
              || (|prefix| >= 2 && prefix[..2] in {"fc", "fd"})
              || (|prefix| >= 3 && prefix[..3] in {"fe8", "fe9", "fea", "feb"})
  {}

  lemma LocalSuffixesByLabel(ls: seq<string>)
    ensures (exists s :: s in LOCAL_SUFFIXES && LabelSuffix(ls, Labels(s))) <==> EndsLocally(ls)
  {
    hide Labels, LabelSuffix, IsLocalLabel;
    forall s: string ensures s in LOCAL_SUFFIXES <==> IsLocalLabel(s) || s == "home.arpa" { LocalNames(s); }
    forall s | s in LOCAL_SUFFIXES
      ensures LabelSuffix(ls, Labels(s)) <==>
                if s == "home.arpa" then |ls| >= 2 && ls[|ls| - 2] == "home" && ls[|ls| - 1] == "arpa"
                else |ls| >= 1 && ls[|ls| - 1] == s
    {
      LocalSuffixByLabel(ls, s);
    }
    LocalNames("home.arpa");
    if |ls| >= 1 && IsLocalLabel(ls[|ls| - 1]) {
      LocalNames(ls[|ls| - 1]);
      assert LabelSuffix(ls, Labels(ls[|ls| - 1]));
    } else if EndsLocally(ls) {
      assert LabelSuffix(ls, Labels("home.arpa"));
    }
  }

  lemma LocalNames(s: string)
    ensures s in LOCAL_SUFFIXES <==> IsLocalLabel(s) || s == "home.arpa"
    ensures IsLocalLabel(s) ==> s != "home.arpa"
  {
    var l := LOCAL_SUFFIXES;
    assert l[0] in l && l[1] in l && l[2] in l && l[3] in l && l[4] in l && l[5] in l && l[6] in l && l[7] in l;
  }

  lemma LocalSuffixByLabel(ls: seq<string>, s: string)
    requires s in LOCAL_SUFFIXES
    ensures LabelSuffix(ls, Labels(s)) <==>
              if s == "home.arpa" then |ls| >= 2 && ls[|ls| - 2] == "home" && ls[|ls| - 1] == "arpa"
              else |ls| >= 1 && ls[|ls| - 1] == s
  {
    hide Labels, LabelSuffix;
    if s == "home.arpa" {
      TwoLabels("home", "arpa");
      assert "home" + ['.'] + "arpa" == s;
      SuffixOfTwo(ls, "home", "arpa");
    } else {
      LocalSuffixHasNoDot(s);
      SplitSingle(s, '.');
      LabelsIsSplit(s);
      SuffixOfOne(ls, s);
    }
  }

  lemma LocalSuffixHasNoDot(s: string)
    requires s in LOCAL_SUFFIXES && s != "home.arpa"
    ensures '.' !in s
  {
    assert forall i :: 0 <= i < |s| ==> s[i] != '.';
  }

  lemma SuffixOfOne(ls: seq<string>, s: string)
    ensures LabelSuffix(ls, [s]) <==> |ls| >= 1 && ls[|ls| - 1] == s
  {
    if |ls| >= 1 { assert ls[|ls| - 1..] == [ls[|ls| - 1]]; }
  }

  lemma SuffixOfTwo(ls: seq<string>, a: string, b: string)
    ensures LabelSuffix(ls, [a, b]) <==> |ls| >= 2 && ls[|ls| - 2] == a && ls[|ls| - 1] == b
  {
    if |ls| >= 2 { assert ls[|ls| - 2..] == [ls[|ls| - 2], ls[|ls| - 1]]; }
  }

  /**
   Where a name goes, for every policy and every name, by label: to DoH if and only if no rule of the
   user, no local ending, no single label and no private reverse block claims it, and the policy
   sends everything to DoH or a DoH rule claims it.
   */
  lemma RouteExactly(p: Policy, ascii: string)
    ensures var name := Normalise(ascii);
            var ls := Labels(name);
            RouteOf(p, ascii) == Doh <==>
              && !(exists rule :: rule in p.forceLocal && Claims(rule, name))
              && !EndsLocally(ls) && |ls| != 1 && !PrivateInAddr(ls) && !PrivateIp6(ls)
              && (p.defaultDoh || exists rule :: rule in p.forceDoh && Claims(rule, name))
  {
    hide Labels, SuffixMatches, Claims, LabelSuffix, Normalise, IsPrivateReverse, EndsLocally, PrivateInAddr,
         PrivateIp6, IsBuiltinLocal;
    var name := Normalise(ascii);
    forall rule: string ensures SuffixMatches(name, rule) <==> Claims(rule, name) { ClaimsExactly(rule, name); }
    BuiltinLocalIsLabelwise(name);
    LocalSuffixesByLabel(Labels(name));
    PrivateReverseIsLabelwise(name);
  }

  lemma ClaimsExactly(rule: string, name: string)
    ensures SuffixMatches(name, rule) <==> Claims(rule, name)
  {
    SuffixMatchesIsLabelwise(name, rule);
  }

  // --------------------------------------------------------------------- reverse names

  /** A plain rule that matches shares its last characters with the name. */
  lemma MatchSharesTail(name: string, rule: string, k: nat)
    requires SuffixMatches(name, rule) && k < |rule| && rule[|rule| - 1] != '.' && rule[0] != '*'
    ensures k < |name| && name[|name| - 1 - k] == LowerChar(rule[|rule| - 1 - k])
  {}

  /** No built-in local suffix claims a name under `.arpa` whose next label does not end in `e`. */
  lemma ReverseIsNotLocalSuffix(name: string)
    requires |name| > 6 && name[|name| - 1] == 'a' && name[|name| - 6] != 'e'
    ensures !AnyMatches(name, LOCAL_SUFFIXES)
  {
    hide SuffixMatches;
    forall rule | rule in LOCAL_SUFFIXES
      ensures !SuffixMatches(name, rule)
    {
      if SuffixMatches(name, rule) {
        MatchSharesTail(name, rule, 0);
        assert rule == "home.arpa";
        MatchSharesTail(name, rule, 5);
      }
    }
  }

  /** Section 3.5 of RFC 1035: octets, first one last, under in-addr.arpa; four of them name an address. */
  function ZoneRest(os: seq<nat>): string
    requires os != []
  {
    if |os| == 1 then Decimal(os[0]) else ZoneRest(os[1..]) + ['.'] + Decimal(os[0])
  }

  function ZoneName(os: seq<nat>): string
    requires os != []
  {
    ZoneRest(os) + IN_ADDR
  }

  /** Section 3 of RFC 1918, loopback and link-local. */
  predicate PrivateV4(a: nat, b: nat) {
    a == 10 || (a == 172 && 16 <= b <= 31) || (a == 192 && b == 168) || a == 127 || (a == 169 && b == 254)
  }

  lemma DecimalIsOneLabel(n: nat)
    ensures Labels(Decimal(n)) == [Decimal(n)]
  {}

  lemma {:induction false} ZoneLabels(os: seq<nat>)
    requires os != []
    ensures var ls := Labels(ZoneRest(os));
            |ls| == |os| && forall i :: 0 <= i < |ls| ==> ls[i] == Decimal(os[|os| - 1 - i])
  {
    hide Labels;
    DecimalIsOneLabel(os[0]);
    if |os| > 1 {
      ZoneLabels(os[1..]);
      LabelsConcat(ZoneRest(os[1..]), Decimal(os[0]));
    }
  }

  lemma LabelsConcat(x: string, y: string)
    ensures Labels(x + ['.'] + y) == Labels(x) + Labels(y)
  {
    SplitConcat(x, y, '.');
  }

  /**
   Under the default policy the reverse name of every IPv4 address, and of every zone above one,
   however it is spelled, goes to the system resolver exactly when the block is private; a zone of
   one octet only when all of it is.
   */
  lemma ReverseV4Exactly(ascii: string, os: seq<nat>)
    requires os != [] && (forall o <- os :: o < 256) && Normalise(ascii) == ZoneName(os)
    ensures RouteOf(DEFAULT, ascii) == SystemUpstream <==>
              if |os| == 1 then os[0] == 10 || os[0] == 127 else PrivateV4(os[0], os[1])
  {
    hide AnyMatches, Decimal, ParseNat, Labels, EndsWith, Normalise, ZoneRest, PrivateNibbles;
    var name, rest := Normalise(ascii), ZoneRest(os);
    UnderInAddr(rest);
    ReverseIsNotLocalSuffix(name);
    NothingMatches(name);
    ZoneLabels(os);
    LabelsIsSplit(rest);
    ParseDecimal(os[0], 256);
    if |os| > 1 { ParseDecimal(os[1], 256); }
  }

  lemma UnderInAddr(rest: string)
    ensures var name := rest + IN_ADDR;
            |name| > 6 && name[|name| - 1] == 'a' && name[|name| - 6] == 'r' && '.' in name &&
            EndsWith(name, IN_ADDR) && name[..|name| - |IN_ADDR|] == rest
  {}

  lemma LabelsIsSplit(s: string)
    ensures Labels(s) == Split(s, '.')
  {}

  lemma NothingMatches(name: string)
    ensures !AnyMatches(name, [])
  {}

  type Nibble = n: int | 0 <= n < 16

  function HexChar(n: Nibble): (c: char)
    ensures c != '.'
  {
    if n < 10 then DigitChar(n) else 'a' + (n - 10) as char
  }

  /** Section 2.5 of RFC 3596: the nibbles in reverse order under ip6.arpa. */
  function NibbleRest(ns: seq<Nibble>): string
    requires ns != []
  {
    if |ns| == 1 then [HexChar(ns[0])] else NibbleRest(ns[1..]) + ['.'] + [HexChar(ns[0])]
  }

  function Ip6Name(ns: seq<Nibble>): string
    requires ns != []
  {
    NibbleRest(ns) + IP6
  }

  /** The last two labels are the first two nibbles. */
  lemma NibbleLabels(ns: seq<Nibble>)
    requires |ns| >= 3
    ensures var ls := Labels(NibbleRest(ns));
            |ls| >= 2 && ls[|ls| - 1] == [HexChar(ns[0])] && ls[|ls| - 2] == [HexChar(ns[1])]
  {
    var front, x, y := NibbleRest(ns[2..]), [HexChar(ns[1])], [HexChar(ns[0])];
    assert ns[1..][1..] == ns[2..] && ns[1..][0] == ns[1];
    SplitSingle(x, '.');
    SplitSingle(y, '.');
    LabelsConcat(front, x);
    LabelsConcat(front + ['.'] + x, y);
  }

  lemma StripsOnce(rest: string)
    requires |rest| >= 2 && rest[|rest| - 2] == '.'
    ensures TrimEndMatches(rest + IP6, IP6) == rest
  {}

  lemma TwoNibbles(n0: Nibble, n1: Nibble, labels: seq<string>)
    requires |labels| >= 2
    requires labels[|labels| - 1] == [HexChar(n0)] && labels[|labels| - 2] == [HexChar(n1)]
    ensures PrivateNibbles(labels) <==> n0 == 15 && (n1 == 12 || n1 == 13)
  {
    var prefix := labels[|labels| - 1] + labels[|labels| - 2];
    assert |prefix| == 2 && prefix[0] == HexChar(n0) && prefix[1] == HexChar(n1);
    assert prefix[..2] == prefix;
    assert StartsWith(prefix, "fc") <==> prefix[0] == 'f' && prefix[1] == 'c';
    assert StartsWith(prefix, "fd") <==> prefix[0] == 'f' && prefix[1] == 'd';
  }

  /**
   For every canonical 32-nibble name, however it is spelled: the system resolver exactly for
   fc00::/7. The three-character tests meant for fe80::/10 never fire.
   */
  lemma ReverseV6Exactly(ascii: string, ns: seq<Nibble>)
    requires |ns| == 32 && Normalise(ascii) == Ip6Name(ns)
    ensures RouteOf(DEFAULT, ascii) == SystemUpstream <==> (16 * (ns[0] as int) + ns[1]) / 2 == 0xfc / 2
  {
    hide AnyMatches, Labels, PrivateNibbles, PrivateOctets, NibbleRest, TrimEndMatches, Normalise, EndsWith;
    var name, rest := Normalise(ascii), NibbleRest(ns);
    NibbleShape(ns);
    UnderIp6(rest);
    ReverseIsNotLocalSuffix(name);
    NothingMatches(name);
    StripsOnce(rest);
    NibbleLabels(ns);
    LabelsIsSplit(rest);
    TwoNibbles(ns[0], ns[1], Labels(rest));
    BlockOf(ns[0], ns[1]);
  }

  lemma UnderIp6(rest: string)
    ensures var name := rest + IP6;
            |name| > 6 && name[|name| - 1] == 'a' && name[|name| - 6] == '6' && '.' in name &&
            EndsWith(name, IP6) && !EndsWith(name, IN_ADDR)
  {}

  /** The nibbles fc and fd are the block of seven leading bits. */
  lemma BlockOf(n0: Nibble, n1: Nibble)
    ensures (16 * (n0 as int) + n1) / 2 == 0xfc / 2 <==> n0 == 15 && (n1 == 12 || n1 == 13)
  {}

  lemma NibbleShape(ns: seq<Nibble>)
    requires |ns| >= 2
    ensures |NibbleRest(ns)| >= 2 && NibbleRest(ns)[|NibbleRest(ns)| - 2] == '.'
  {}

  /** So a link-local reverse name, which the table of prefixes means to keep local, goes to DoH. */
  lemma LinkLocalReverseLeaks(ascii: string, ns: seq<Nibble>)
    requires |ns| == 32 && Normalise(ascii) == Ip6Name(ns)
    requires ns[0] == 15 && ns[1] == 14 && 8 <= ns[2] <= 11
    ensures RouteOf(DEFAULT, ascii) == Doh
  {
    ReverseV6Exactly(ascii, ns);
  }
}
