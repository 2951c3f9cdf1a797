/**
 Which configs `WgConfig::parse` accepts (crates/dns-helper/src/tunnel.rs), said about the lines of
 the source text and not about the reducer: how a line reads, and what the lines must hold.
 */
module WgAccept {
  import opened Strings
  import opened WgConfig
  import opened Wrappers

  // --------------------------------------------------------------------- how a line reads

  /** `line` is `raw` without its comment and without the spaces around what is left. */
  ghost predicate HasBody(raw: string, line: string) {
    exists body, comment :: IsTrimOf(line, body) && raw == body + comment && NoComment(body, comment)
  }

  predicate NoComment(body: string, comment: string) {
    '#' !in body && (comment == "" || comment[0] == '#')
  }

  predicate Bracketed(line: string) {
    line != "" && line[0] == '[' && line[|line| - 1] == ']'
  }

  /** A key in any letter case, an equals sign, a value; spaces around either do not count. */
  ghost predicate SplitsAs(line: string, key: string, value: string) {
    exists left, right, k :: SplitsBy(line, key, value, left, right, k)
  }

  ghost predicate SplitsBy(line: string, key: string, value: string, left: string, right: string, k: string) {
    && line == left + ['='] + right && '=' !in left
    && IsTrimOf(k, left) && IsTrimOf(value, right) && IsSmallFormOf(key, k)
  }

  predicate IsSmallFormOf(key: string, k: string) {
    SameSpelling(key, k) && forall c <- key :: !('A' <= c <= 'Z')
  }

  ghost predicate IsBlank(raw: string) {
    HasBody(raw, "")
  }

  predicate IsNameOf(line: string, section: Section) {
    match section
    case NoSection => false
    case InterfaceSection => SameSpelling(line, "[interface]")
    case PeerSection => SameSpelling(line, "[peer]")
  }

  ghost predicate IsSectionLine(raw: string, section: Section) {
    exists line :: HasBody(raw, line) && IsNameOf(line, section)
  }

  ghost predicate IsUnknownSection(raw: string) {
    exists line :: HasBody(raw, line) && Bracketed(line) &&
      !IsNameOf(line, InterfaceSection) && !IsNameOf(line, PeerSection)
  }

  ghost predicate IsEntryLine(raw: string, key: string, value: string) {
    exists line :: HasBody(raw, line) && !Bracketed(line) && SplitsAs(line, key, value)
  }

  ghost predicate IsMalformed(raw: string) {
    exists line :: HasBody(raw, line) && line != "" && !Bracketed(line) && '=' !in line
  }

  lemma CommentCut(raw: string)
    ensures var i := IndexOf(raw, '#');
            raw == raw[..i] + raw[i..] && NoComment(raw[..i], raw[i..])
  {}

  lemma BodyExactly(raw: string, line: string)
    ensures HasBody(raw, line) <==> line == Trim(raw[..IndexOf(raw, '#')])
  {
    hide IndexOf, Trim, IsTrimOf;
    var i := IndexOf(raw, '#');
    TrimExactly(raw[..i], line);
    CommentCut(raw);
    forall body, comment | IsTrimOf(line, body) && raw == body + comment && NoComment(body, comment)
      ensures body == raw[..i]
    {
      assert forall j :: 0 <= j < |body| ==> raw[j] == body[j] && body[j] in body;
      assert comment != "" ==> raw[|body|] == comment[0];
      IndexOfIs(raw, '#', |body|);
    }
  }

  lemma SmallFormExactly(key: string, k: string)
    ensures IsSmallFormOf(key, k) <==> key == Lower(k)
  {
    LowerFoldsCase(key, k);
    LowerFoldsCase(k, k);
    if IsSmallFormOf(key, k) {
      LowIsFixed(key);
    }
  }

  lemma SplitAt(left: string, right: string, k: string, line: string, key: string, value: string)
    requires SplitsBy(line, key, value, left, right, k)
    ensures IndexOf(line, '=') == |left| < |line| && line[..|left|] == left && line[|left| + 1..] == right
    ensures key == Lower(Trim(left)) && value == Trim(right)
  {
    hide IndexOf, Trim, IsTrimOf, IsSmallFormOf, Lower;
    Strings.Around(left, '=', right, |left|);
    assert left[..|left|] == left;
    assert forall j :: 0 <= j < |left| ==> left[j] in left;
    IndexOfIs(line, '=', |left|);
    TrimExactly(left, k);
    TrimExactly(right, value);
    SmallFormExactly(key, k);
  }

  lemma SplitsHere(line: string, left: string, right: string)
    requires line == left + ['='] + right && '=' !in left
    ensures SplitsAs(line, Lower(Trim(left)), Trim(right))
  {
    hide Trim, IsTrimOf, IsSmallFormOf, Lower;
    TrimExactly(left, Trim(left));
    TrimExactly(right, Trim(right));
    SmallFormExactly(Lower(Trim(left)), Trim(left));
    assert SplitsBy(line, Lower(Trim(left)), Trim(right), left, right, Trim(left));
  }

  lemma EqualsCut(line: string, i: nat)
    requires i == IndexOf(line, '=') < |line|
    ensures line == line[..i] + ['='] + line[i + 1..] && '=' !in line[..i]
  {
    hide IndexOf;
    forall j | 0 <= j < i ensures line[..i][j] != '=' { assert line[..i][j] == line[j]; }
  }

  lemma SplitsAtFirst(line: string)
    ensures var i := IndexOf(line, '=');
            i < |line| ==> SplitsAs(line, Lower(Trim(line[..i])), Trim(line[i + 1..]))
  {
    hide IndexOf, Trim, SplitsAs, Lower;
    var i := IndexOf(line, '=');
    if i < |line| {
      EqualsCut(line, i);
      SplitsHere(line, line[..i], line[i + 1..]);
    }
  }

  lemma SplitsNowhereElse(line: string, key: string, value: string)
    requires SplitsAs(line, key, value)
    ensures var i := IndexOf(line, '=');
            i < |line| && key == Lower(Trim(line[..i])) && value == Trim(line[i + 1..])
  {
    hide IndexOf, Trim, SplitsBy, Lower;
    var left, right, k :| SplitsBy(line, key, value, left, right, k);
    SplitAt(left, right, k, line, key, value);
  }

  lemma SplitsExactly(line: string, key: string, value: string)
    ensures SplitsAs(line, key, value) <==>
              var i := IndexOf(line, '=');
              i < |line| && key == Lower(Trim(line[..i])) && value == Trim(line[i + 1..])
  {
    hide IndexOf, Trim, SplitsAs, Lower;
    SplitsAtFirst(line);
    if SplitsAs(line, key, value) { SplitsNowhereElse(line, key, value); }
  }

  lemma HeaderExactly(line: string)
    ensures HeaderSection(line) == InterfaceSection <==> IsNameOf(line, InterfaceSection)
    ensures HeaderSection(line) == PeerSection <==> IsNameOf(line, PeerSection)
    ensures !IsNameOf(line, NoSection)
    ensures HeaderSection(line) != NoSection ==> Bracketed(line)
  {
    LowerFoldsCase(line, "[interface]");
    LowerFoldsCase(line, "[peer]");
    assert Lower("[interface]") == "[interface]" && Lower("[peer]") == "[peer]";
    if IsHeader(line) { HeaderIsLine(line); }
  }

  /** The reducer reads every line as its text says. */
  lemma ClassifyExactly(raw: string)
    ensures Classify(raw).Blank? <==> IsBlank(raw)
    ensures Classify(raw).Malformed? <==> IsMalformed(raw)
    ensures forall s :: s != NoSection ==>
              (IsSectionLine(raw, s) <==> Classify(raw).Header? && HeaderSection(Classify(raw).line) == s)
    ensures IsUnknownSection(raw) <==> Classify(raw).Header? && HeaderSection(Classify(raw).line) == NoSection
    ensures forall k, v :: IsEntryLine(raw, k, v) <==> Classify(raw) == Entry(k, v)
    ensures !IsSectionLine(raw, NoSection)
  {
    hide IndexOf, Trim, HasBody, SplitsAs, Lower, HeaderSection, IsNameOf;
    var line := Trim(raw[..IndexOf(raw, '#')]);
    forall l ensures HasBody(raw, l) <==> l == line { BodyExactly(raw, l); }
    forall k, v ensures SplitsAs(line, k, v) <==>
                          var i := IndexOf(line, '=');
                          i < |line| && k == Lower(Trim(line[..i])) && v == Trim(line[i + 1..])
    {
      SplitsExactly(line, k, v);
    }
    HeaderExactly(line);
    HasEquals(line);
  }

  lemma HasEquals(line: string)
    ensures '=' in line <==> IndexOf(line, '=') < |line|
  {}

  // ------------------------------------------------------------- what the lines must hold

  predicate IsNumberBelow(s: string, bound: nat, n: nat) {
    var d := if s != "" && s[0] == '+' then s[1..] else s;
    d != "" && (forall c <- d :: IsDigit(c)) && Digits(d) == n < bound
  }

  ghost predicate IsAnySection(raw: string) {
    IsSectionLine(raw, InterfaceSection) || IsSectionLine(raw, PeerSection)
  }

  ghost predicate EntryReads(section: Section, raw: string, key: string, value: string) {
    IsEntryLine(raw, key, value) && (section == InterfaceSection && key == "mtu" ==> IsMtu(value))
  }

  ghost predicate IsMtu(value: string) {
    exists n: nat :: IsNumberBelow(value, 0x1_0000_0000, n)
  }

  /** The line can be read in a section. */
  ghost predicate Reads(section: Section, raw: string) {
    || IsBlank(raw) || IsAnySection(raw)
    || (section != NoSection && exists k, v :: EntryReads(section, raw, k, v))
  }

  /** Why a line cannot be read. */
  ghost predicate Fails(section: Section, raw: string, e: ConfigError) {
    match e
    case UnknownSection => IsUnknownSection(raw)
    case MalformedLine => IsMalformed(raw)
    case KeyOutsideSection => section == NoSection && exists k, v :: IsEntryLine(raw, k, v)
    case BadMtu => section == InterfaceSection && exists v :: IsEntryLine(raw, "mtu", v) && !IsMtu(v)
    case _ => false
  }

  ghost function NextOf(section: Section, raw: string): Section {
    if IsSectionLine(raw, InterfaceSection) then InterfaceSection
    else if IsSectionLine(raw, PeerSection) then PeerSection
    else section
  }

  /** The section in force after some source lines. */
  ghost function SectionOf(ls: seq<string>): Section {
    if ls == [] then NoSection else NextOf(SectionOf(ls[..|ls| - 1]), ls[|ls| - 1])
  }

  ghost predicate EntryAt(ls: seq<string>, i: nat, section: Section, key: string, value: string) {
    i < |ls| && SectionOf(ls[..i]) == section && IsEntryLine(ls[i], key, value)
  }

  ghost predicate AllRead(ls: seq<string>) {
    forall i :: 0 <= i < |ls| ==> Reads(SectionOf(ls[..i]), ls[i])
  }

  ghost predicate PrivateKeyGiven(ls: seq<string>) {
    exists i: nat, v :: EntryAt(ls, i, InterfaceSection, "privatekey", v)
  }

  ghost predicate HoldsIpv4(value: string) {
    exists a :: a in Split(value, ',') && IsIpv4Cidr(Trim(a))
  }

  ghost predicate AddressGiven(ls: seq<string>) {
    exists i: nat, v :: EntryAt(ls, i, InterfaceSection, "address", v) && HoldsIpv4(v)
  }

  /** The peer whose section starts at line `i` has a public key before the next section. */
  ghost predicate KeyGiven(ls: seq<string>, i: nat) {
    exists j, v :: i < j < |ls| && IsEntryLine(ls[j], "publickey", v) && Unbroken(ls, i, j)
  }

  ghost predicate Unbroken(ls: seq<string>, i: nat, j: nat)
    requires j <= |ls|
  {
    forall m :: i < m < j ==> !IsAnySection(ls[m])
  }

  ghost predicate PeerGiven(ls: seq<string>) {
    exists i :: 0 <= i < |ls| && IsSectionLine(ls[i], PeerSection)
  }

  ghost predicate EveryPeerKeyed(ls: seq<string>) {
    forall i :: 0 <= i < |ls| && IsSectionLine(ls[i], PeerSection) ==> KeyGiven(ls, i)
  }

  /** The MTU is that of the last MTU entry of an interface section. */
  ghost predicate MtuIs(ls: seq<string>, mtu: Option<nat>) {
    match mtu
    case None => forall i: nat, v :: !EntryAt(ls, i, InterfaceSection, "mtu", v)
    case Some(n) => exists i: nat, v :: EntryAt(ls, i, InterfaceSection, "mtu", v) &&
                      IsNumberBelow(v, 0x1_0000_0000, n) &&
                      forall j: nat, u :: i < j ==> !EntryAt(ls, j, InterfaceSection, "mtu", u)
  }

  // -------------------------------------------------------------- one line of the reducer

  lemma NumberExactly(s: string, bound: nat)
    ensures forall n: nat :: ParseNat(s, bound) == Some(n) <==> IsNumberBelow(s, bound, n)
  {}

  /** A line passes the reducer exactly when it reads; otherwise the error says why. */
  lemma ReadsExactly(st: Reducer, raw: string)
    ensures var r := ReduceItem(st, Classify(raw));
            && (r.Ok? <==> Reads(st.section, raw))
            && (r.Err? ==> Fails(st.section, raw, r.error))
            && (r.Ok? ==> r.value.section == NextOf(st.section, raw))
  {
    hide Classify, IsBlank, IsMalformed, IsSectionLine, IsUnknownSection, IsEntryLine, HeaderSection, IsMtu,
         ParseNat, V4Addresses;
    ClassifyExactly(raw);
    var item := Classify(raw);
    if item.Entry? {
      MtuExactly(item.value);
      assert IsEntryLine(raw, item.key, item.value);
      assert Reads(st.section, raw) <==> st.section != NoSection && EntryReads(st.section, raw, item.key, item.value);
    }
  }

  lemma MtuExactly(value: string)
    ensures IsMtu(value) <==> ParseNat(value, 0x1_0000_0000).Some?
  {
    hide IsNumberBelow, ParseNat;
    NumberExactly(value, 0x1_0000_0000);
    if ParseNat(value, 0x1_0000_0000).Some? {
      assert IsNumberBelow(value, 0x1_0000_0000, ParseNat(value, 0x1_0000_0000).value);
    }
  }

  lemma V4Snoc(parts: seq<string>)
    requires parts != []
    ensures var n := |parts| - 1;
            V4Addresses(parts) ==
            V4Addresses(parts[..n]) + (if IsIpv4Cidr(Trim(parts[n])) then [Trim(parts[n])] else [])
  {}

  /** The addresses kept are exactly the IPv4 ones among the pieces, in order. */
  lemma {:induction false} V4AddressesAreSelected(parts: seq<string>) returns (at: seq<nat>)
    ensures |at| == |V4Addresses(parts)| && forall p, q :: 0 <= p < q < |at| ==> at[p] < at[q]
    ensures forall p :: 0 <= p < |at| ==> at[p] < |parts| && V4Addresses(parts)[p] == Trim(parts[at[p]])
    ensures forall i: nat :: i in at <==> i < |parts| && IsIpv4Cidr(Trim(parts[i]))
    decreases |parts|
  {
    hide IsIpv4Cidr, Trim, V4Addresses;
    if parts == [] {
      NoAddresses();
      at := [];
    } else {
      var n := |parts| - 1;
      V4Snoc(parts);
      at := V4AddressesAreSelected(parts[..n]);
      if IsIpv4Cidr(Trim(parts[n])) { at := at + [n]; }
    }
  }

  lemma NoAddresses()
    ensures V4Addresses([]) == []
  {}

  lemma {:induction false} V4GivenExactly(parts: seq<string>)
    ensures V4Addresses(parts) != [] <==> exists a :: a in parts && IsIpv4Cidr(Trim(a))
    decreases |parts|
  {
    hide IsIpv4Cidr, Trim, V4Addresses;
    if parts == [] {
      NoAddresses();
    } else {
      var n := |parts| - 1;
      V4Snoc(parts);
      V4GivenExactly(parts[..n]);
      assert parts == parts[..n] + [parts[n]];
    }
  }

  ghost predicate HasEntry(section: Section, within: Section, raw: string, key: string) {
    section == within && exists v :: IsEntryLine(raw, key, v)
  }

  lemma EntryOf(raw: string, key: string)
    ensures (exists v :: IsEntryLine(raw, key, v)) <==> Classify(raw).Entry? && Classify(raw).key == key
    ensures forall v :: IsEntryLine(raw, key, v) ==> Classify(raw) == Entry(key, v)
    ensures Classify(raw).Entry? && Classify(raw).key == key ==> IsEntryLine(raw, key, Classify(raw).value)
  {
    hide Classify, IsBlank, IsMalformed, IsSectionLine, IsUnknownSection, IsEntryLine, HeaderSection;
    ClassifyExactly(raw);
  }

  lemma PrivateKeyEffect(st: Reducer, raw: string, st': Reducer)
    requires ReduceItem(st, Classify(raw)) == Ok(st')
    ensures st'.hasPrivateKey <==>
              st.hasPrivateKey || HasEntry(st.section, InterfaceSection, raw, "privatekey")
  {
    hide Classify, IsEntryLine, HeaderSection, ParseNat, V4Addresses;
    EntryOf(raw, "privatekey");
  }

  lemma AddressEffect(st: Reducer, raw: string, st': Reducer)
    requires ReduceItem(st, Classify(raw)) == Ok(st')
    ensures st'.addresses != [] <==>
              || st.addresses != []
              || (st.section == InterfaceSection && exists v :: IsEntryLine(raw, "address", v) && HoldsIpv4(v))
  {
    hide Classify, IsEntryLine, HeaderSection, ParseNat, V4Addresses;
    EntryOf(raw, "address");
    var item := Classify(raw);
    if item.Entry? {
      V4GivenExactly(Split(item.value, ','));
    }
  }

  lemma MtuEffect(st: Reducer, raw: string, st': Reducer)
    requires ReduceItem(st, Classify(raw)) == Ok(st')
    ensures HasEntry(st.section, InterfaceSection, raw, "mtu") ==>
              st'.mtu.Some? &&
              exists v :: IsEntryLine(raw, "mtu", v) && IsNumberBelow(v, 0x1_0000_0000, st'.mtu.value)
    ensures !HasEntry(st.section, InterfaceSection, raw, "mtu") ==> st'.mtu == st.mtu
  {
    hide Classify, IsEntryLine, HeaderSection, ParseNat, V4Addresses, IsNumberBelow;
    EntryOf(raw, "mtu");
    var item := Classify(raw);
    if item.Entry? {
      NumberExactly(item.value, 0x1_0000_0000);
    }
  }

  lemma FlagsEffect(st: Reducer, raw: string, st': Reducer)
    requires ReduceItem(st, Classify(raw)) == Ok(st')
    ensures st'.peerHasKey == FlagsAfter(st.section, st.peerHasKey, raw)
  {
    hide Classify, IsEntryLine, IsSectionLine, HeaderSection, ParseNat, V4Addresses, IsBlank, IsMalformed,
         IsUnknownSection;
    EntryOf(raw, "publickey");
    ClassifyExactly(raw);
  }

  ghost function FlagsAfter(section: Section, flags: seq<bool>, raw: string): seq<bool> {
    if IsSectionLine(raw, PeerSection) then flags + [false]
    else if flags != [] && HasEntry(section, PeerSection, raw, "publickey") then flags[|flags| - 1 := true]
    else flags
  }

  // ---------------------------------------------------------------- one more source line

  lemma EntrySnoc(ls: seq<string>, l: string, i: nat, section: Section, key: string, value: string)
    ensures EntryAt(ls + [l], i, section, key, value) <==>
              EntryAt(ls, i, section, key, value) ||
              (i == |ls| && SectionOf(ls) == section && IsEntryLine(l, key, value))
  {
    hide SectionOf, IsEntryLine;
    if i < |ls| {
      assert (ls + [l])[..i] == ls[..i];
    } else if i == |ls| {
      assert (ls + [l])[..i] == ls;
    }
  }

  lemma EntryInRange(ls: seq<string>, i: nat, section: Section, key: string, value: string)
    ensures EntryAt(ls, i, section, key, value) ==> i < |ls|
  {}

  lemma SectionSnoc(ls: seq<string>, l: string)
    ensures SectionOf(ls + [l]) == NextOf(SectionOf(ls), l)
  {
    assert (ls + [l])[..|ls|] == ls;
  }

  lemma ReadSnoc(ls: seq<string>, l: string)
    ensures AllRead(ls + [l]) <==> AllRead(ls) && Reads(SectionOf(ls), l)
  {
    hide SectionOf, Reads;
    var all := ls + [l];
    assert all[..|ls|] == ls && all[|ls|] == l;
    assert forall i :: 0 <= i < |ls| ==> all[..i] == ls[..i] && all[i] == ls[i];
  }

  lemma PrivateKeySnoc(ls: seq<string>, l: string)
    ensures PrivateKeyGiven(ls + [l]) <==>
              PrivateKeyGiven(ls) || HasEntry(SectionOf(ls), InterfaceSection, l, "privatekey")
  {
    hide EntryAt, SectionOf, IsEntryLine;
    forall i: nat, v
      ensures EntryAt(ls + [l], i, InterfaceSection, "privatekey", v) <==>
                EntryAt(ls, i, InterfaceSection, "privatekey", v) ||
                (i == |ls| && SectionOf(ls) == InterfaceSection && IsEntryLine(l, "privatekey", v))
    {
      EntrySnoc(ls, l, i, InterfaceSection, "privatekey", v);
    }
    if HasEntry(SectionOf(ls), InterfaceSection, l, "privatekey") {
      var v :| IsEntryLine(l, "privatekey", v);
      assert EntryAt(ls + [l], |ls|, InterfaceSection, "privatekey", v);
    }
  }

  lemma AddressSnoc(ls: seq<string>, l: string)
    ensures AddressGiven(ls + [l]) <==>
              || AddressGiven(ls)
              || (SectionOf(ls) == InterfaceSection && exists v :: IsEntryLine(l, "address", v) && HoldsIpv4(v))
  {
    hide EntryAt, SectionOf, IsEntryLine, HoldsIpv4;
    forall i: nat, v
      ensures EntryAt(ls + [l], i, InterfaceSection, "address", v) <==>
                EntryAt(ls, i, InterfaceSection, "address", v) ||
                (i == |ls| && SectionOf(ls) == InterfaceSection && IsEntryLine(l, "address", v))
    {
      EntrySnoc(ls, l, i, InterfaceSection, "address", v);
    }
    if SectionOf(ls) == InterfaceSection && exists v :: IsEntryLine(l, "address", v) && HoldsIpv4(v) {
      var v :| IsEntryLine(l, "address", v) && HoldsIpv4(v);
      assert EntryAt(ls + [l], |ls|, InterfaceSection, "address", v);
    }
  }

  lemma MtuSnoc(ls: seq<string>, l: string, mtu: Option<nat>, mtu': Option<nat>)
    requires MtuIs(ls, mtu)
    requires HasEntry(SectionOf(ls), InterfaceSection, l, "mtu") ==>
               mtu'.Some? && exists v :: IsEntryLine(l, "mtu", v) && IsNumberBelow(v, 0x1_0000_0000, mtu'.value)
    requires !HasEntry(SectionOf(ls), InterfaceSection, l, "mtu") ==> mtu' == mtu
    ensures MtuIs(ls + [l], mtu')
  {
    hide EntryAt, SectionOf, IsEntryLine, IsNumberBelow;
    var all := ls + [l];
    forall i: nat, v
      ensures EntryAt(all, i, InterfaceSection, "mtu", v) <==>
                EntryAt(ls, i, InterfaceSection, "mtu", v) ||
                (i == |ls| && SectionOf(ls) == InterfaceSection && IsEntryLine(l, "mtu", v))
    {
      EntrySnoc(ls, l, i, InterfaceSection, "mtu", v);
    }
    forall i: nat, v ensures EntryAt(ls, i, InterfaceSection, "mtu", v) ==> i < |ls| {
      EntryInRange(ls, i, InterfaceSection, "mtu", v);
    }
    if HasEntry(SectionOf(ls), InterfaceSection, l, "mtu") {
      var v :| IsEntryLine(l, "mtu", v) && IsNumberBelow(v, 0x1_0000_0000, mtu'.value);
      assert EntryAt(all, |ls|, InterfaceSection, "mtu", v);
    } else if mtu.Some? {
      var i: nat, v :| EntryAt(ls, i, InterfaceSection, "mtu", v) && IsNumberBelow(v, 0x1_0000_0000, mtu.value) &&
                       forall j: nat, u :: i < j ==> !EntryAt(ls, j, InterfaceSection, "mtu", u);
      assert EntryAt(all, i, InterfaceSection, "mtu", v);
    }
  }

  // -------------------------------------------------------------------------- the peers

  ghost function PeerLines(ls: seq<string>): (r: seq<nat>)
    ensures forall i <- r :: i < |ls|
  {
    if ls == [] then [] else
    PeerLines(ls[..|ls| - 1]) + (if IsSectionLine(ls[|ls| - 1], PeerSection) then [|ls| - 1] else [])
  }

  lemma PeerLinesSnoc(ls: seq<string>, l: string)
    ensures PeerLines(ls + [l]) == PeerLines(ls) + (if IsSectionLine(l, PeerSection) then [|ls|] else [])
  {
    assert (ls + [l])[..|ls|] == ls;
  }

  lemma {:induction false} PeerLinesExactly(ls: seq<string>)
    ensures forall i: nat :: i in PeerLines(ls) <==> i < |ls| && IsSectionLine(ls[i], PeerSection)
    ensures forall p, q :: 0 <= p < q < |PeerLines(ls)| ==> PeerLines(ls)[p] < PeerLines(ls)[q]
    decreases |ls|
  {
    hide IsSectionLine;
    if ls != [] {
      var front := PeerLines(ls[..|ls| - 1]);
      PeerLinesExactly(ls[..|ls| - 1]);
      assert forall p :: 0 <= p < |front| ==> front[p] in front;
    }
  }

  /** The section in force is a peer's exactly when the last peer line is the last section line. */
  lemma {:induction false} OpenPeer(ls: seq<string>, i: nat)
    requires i < |ls| && IsSectionLine(ls[i], PeerSection)
    ensures Unbroken(ls, i, |ls|) ==>
              SectionOf(ls) == PeerSection && PeerLines(ls) != [] && PeerLines(ls)[|PeerLines(ls)| - 1] == i
    decreases |ls|
  {
    hide IsSectionLine;
    OneSectionPerLine(ls[|ls| - 1]);
    var front := ls[..|ls| - 1];
    if i < |front| && Unbroken(ls, i, |ls|) {
      assert forall m :: i < m < |front| ==> front[m] == ls[m];
      OpenPeer(front, i);
      assert !IsAnySection(ls[|ls| - 1]);
    }
  }

  lemma OneSectionPerLine(raw: string)
    ensures !(IsSectionLine(raw, InterfaceSection) && IsSectionLine(raw, PeerSection))
    ensures forall k, v :: IsEntryLine(raw, k, v) ==> !IsAnySection(raw)
  {
    hide IsSectionLine, IsEntryLine, Classify, HeaderSection;
    ClassifyExactly(raw);
  }

  lemma {:induction false} LastPeerIsOpen(ls: seq<string>)
    requires SectionOf(ls) == PeerSection
    ensures PeerLines(ls) != [] && Unbroken(ls, PeerLines(ls)[|PeerLines(ls)| - 1], |ls|)
    decreases |ls|
  {
    hide IsSectionLine;
    var n := |ls| - 1;
    if !IsSectionLine(ls[n], PeerSection) {
      LastPeerIsOpen(ls[..n]);
      assert forall m :: 0 <= m < n ==> ls[..n][m] == ls[m];
    }
  }

  lemma KeySnoc(ls: seq<string>, l: string, i: nat)
    requires i < |ls|
    ensures KeyGiven(ls + [l], i) <==>
              KeyGiven(ls, i) || (Unbroken(ls, i, |ls|) && exists v :: IsEntryLine(l, "publickey", v))
  {
    hide IsEntryLine, IsAnySection;
    var all := ls + [l];
    assert all[|ls|] == l && forall j :: 0 <= j < |ls| ==> all[j] == ls[j];
    assert forall j :: 0 <= j <= |ls| ==> (Unbroken(all, i, j) <==> Unbroken(ls, i, j));
    if Unbroken(ls, i, |ls|) && exists v :: IsEntryLine(l, "publickey", v) {
      var v :| IsEntryLine(l, "publickey", v);
      assert IsEntryLine(all[|ls|], "publickey", v) && Unbroken(all, i, |ls|);
    }
    if KeyGiven(ls, i) {
      var j, v :| i < j < |ls| && IsEntryLine(ls[j], "publickey", v) && Unbroken(ls, i, j);
      assert IsEntryLine(all[j], "publickey", v) && Unbroken(all, i, j);
    }
    if KeyGiven(all, i) {
      var j, v :| i < j < |all| && IsEntryLine(all[j], "publickey", v) && Unbroken(all, i, j);
      assert j < |ls| ==> IsEntryLine(ls[j], "publickey", v) && Unbroken(ls, i, j);
    }
  }

  /** One flag a peer, raised exactly when that peer has its key. */
  ghost predicate FlagsTell(ls: seq<string>, flags: seq<bool>) {
    && |flags| == |PeerLines(ls)|
    && forall p :: 0 <= p < |flags| ==> (flags[p] <==> KeyGiven(ls, PeerLines(ls)[p]))
  }

  lemma NothingAfterLast(ls: seq<string>, i: nat)
    requires i + 1 == |ls|
    ensures !KeyGiven(ls, i)
  {}

  lemma FlagsSnoc(ls: seq<string>, l: string, flags: seq<bool>, flags': seq<bool>)
    requires FlagsTell(ls, flags)
    requires flags' == FlagsAfter(SectionOf(ls), flags, l)
    ensures FlagsTell(ls + [l], flags')
  {
    hide IsSectionLine, IsEntryLine, SectionOf, PeerLines, Unbroken, KeyGiven;
    var at, all := PeerLines(ls), ls + [l];
    PeerLinesSnoc(ls, l);
    PeerLinesExactly(ls);
    OneSectionPerLine(l);
    forall p | 0 <= p < |flags'| ensures flags'[p] <==> KeyGiven(all, PeerLines(all)[p]) {
      if p == |flags| {
        NothingAfterLast(all, |ls|);
      } else {
        assert at[p] in at;
        KeySnoc(ls, l, at[p]);
        OpenPeer(ls, at[p]);
        if SectionOf(ls) == PeerSection { LastPeerIsOpen(ls); }
      }
    }
  }

  // --------------------------------------------------------------------------- the theorem

  /** The reducer's variables say what the lines read so far hold. */
  ghost predicate Told(ls: seq<string>, st: Reducer) {
    && st.section == SectionOf(ls)
    && (st.hasPrivateKey <==> PrivateKeyGiven(ls))
    && (st.addresses != [] <==> AddressGiven(ls))
    && MtuIs(ls, st.mtu)
    && FlagsTell(ls, st.peerHasKey)
  }

  lemma ToldSection(ls: seq<string>, st: Reducer)
    requires Told(ls, st)
    ensures st.section == SectionOf(ls)
  {}

  lemma NothingTold()
    ensures Told([], START) && AllRead([])
  {}

  lemma ToldSnoc(ls: seq<string>, st: Reducer, l: string, st': Reducer)
    requires Told(ls, st) && ReduceItem(st, Classify(l)) == Ok(st')
    ensures Told(ls + [l], st')
  {
    hide SectionOf, PrivateKeyGiven, AddressGiven, MtuIs, FlagsTell, ReduceItem, Classify, IsSectionLine, IsEntryLine,
         IsNumberBelow, NextOf, Reads, Fails, HoldsIpv4, HasEntry, FlagsAfter;
    ReadsExactly(st, l);
    PrivateKeyEffect(st, l, st');
    AddressEffect(st, l, st');
    MtuEffect(st, l, st');
    FlagsEffect(st, l, st');
    SectionSnoc(ls, l);
    PrivateKeySnoc(ls, l);
    AddressSnoc(ls, l);
    MtuSnoc(ls, l, st.mtu, st'.mtu);
    FlagsSnoc(ls, l, st.peerHasKey, st'.peerHasKey);
  }

  /** The first line that cannot be read, and why. */
  ghost predicate FailsAt(ls: seq<string>, n: nat, e: ConfigError) {
    n < |ls| && AllRead(ls[..n]) && !Reads(SectionOf(ls[..n]), ls[n]) && Fails(SectionOf(ls[..n]), ls[n], e)
  }

  lemma {:induction false} ReduceTells(ls: seq<string>)
    ensures match Reduce(START, ls)
            case Ok(st) => AllRead(ls) && Told(ls, st)
            case Err(e) => !AllRead(ls) && exists n: nat :: FailsAt(ls, n, e)
    decreases |ls|
  {
    hide Told, AllRead, ReduceItem, Classify, SectionOf, Reads, Fails, Reduce;
    if ls == [] {
      NothingTold();
      NothingToReduce();
    } else {
      var n := |ls| - 1;
      var front, l := ls[..n], ls[n];
      assert ls == front + [l];
      ReduceTells(front);
      ReduceAppend(START, front, [l]);
      ReadSnoc(front, l);
      match Reduce(START, front)
      case Ok(st) =>
        ToldSection(front, st);
        ReadsExactly(st, l);
        ReduceLast(st, l);
        if ReduceItem(st, Classify(l)).Ok? {
          ToldSnoc(front, st, l, ReduceItem(st, Classify(l)).value);
        } else {
          assert FailsAt(ls, n, ReduceItem(st, Classify(l)).error);
        }
      case Err(e) =>
        var m: nat :| FailsAt(front, m, e);
        assert ls[..m] == front[..m] && ls[m] == front[m];
        assert FailsAt(ls, m, e);
    }
  }

  lemma ReduceLast(st: Reducer, l: string)
    ensures Reduce(st, [l]) == ReduceItem(st, Classify(l))
  {
    hide Classify, ReduceItem;
    assert [l][1..] == [];
  }

  lemma PeersByFlags(ls: seq<string>, flags: seq<bool>)
    requires FlagsTell(ls, flags)
    ensures flags != [] <==> PeerGiven(ls)
    ensures false !in flags <==> EveryPeerKeyed(ls)
  {
    hide IsSectionLine, PeerLines, KeyGiven;
    var at := PeerLines(ls);
    PeerLinesExactly(ls);
    if at != [] { assert at[0] in at; }
    if PeerGiven(ls) {
      var i: nat :| i < |ls| && IsSectionLine(ls[i], PeerSection);
      assert i in at;
    }
    if false !in flags {
      forall i: nat | i < |ls| && IsSectionLine(ls[i], PeerSection) ensures KeyGiven(ls, i) {
        assert i in at;
        var p :| 0 <= p < |at| && at[p] == i;
        assert flags[p] in flags;
      }
    }
    if EveryPeerKeyed(ls) {
      forall p | 0 <= p < |flags| ensures flags[p] { assert at[p] in at; }
    }
  }

  /**
   Which texts are accepted, by their lines: each reads in its section, a private key and an IPv4
   address stand in interface sections, there is a peer, and every peer has a public key before the
   next section. The MTU is that of the last MTU entry. Otherwise the error is that of the first
   line that does not read, or else names the first of the four things missing.
   */
  lemma AcceptedExactly(text: string)
    ensures var ls := Lines(text);
            match Parsed(text)
            case Ok(c) =>
              && AllRead(ls) && PrivateKeyGiven(ls) && PeerGiven(ls) && EveryPeerKeyed(ls) && AddressGiven(ls)
              && MtuIs(ls, c.mtu)
            case Err(NoPrivateKey) => AllRead(ls) && !PrivateKeyGiven(ls)
            case Err(NoPeer) => AllRead(ls) && PrivateKeyGiven(ls) && !PeerGiven(ls)
            case Err(PeerWithoutKey) => AllRead(ls) && PrivateKeyGiven(ls) && PeerGiven(ls) && !EveryPeerKeyed(ls)
            case Err(NoAddress) =>
              AllRead(ls) && PrivateKeyGiven(ls) && PeerGiven(ls) && EveryPeerKeyed(ls) && !AddressGiven(ls)
            case Err(e) => !AllRead(ls) && exists n: nat :: FailsAt(ls, n, e)
  {
    hide Reduce, AllRead, PrivateKeyGiven, PeerGiven, EveryPeerKeyed, AddressGiven, MtuIs, FlagsTell, Lines, Reads,
         SectionOf;
    var ls := Lines(text);
    ReduceTells(ls);
    match Reduce(START, ls)
    case Ok(st) => PeersByFlags(ls, st.peerHasKey);
    case Err(_) =>
  }
}
