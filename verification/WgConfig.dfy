/**
 Reduction of a wg-quick style config to what `wg setconf` accepts, and the rewriting of its
 endpoint lines (crates/dns-helper/src/tunnel.rs).
 */
module WgConfig {
  import opened Strings
  import opened Wrappers

  const INTERFACE_KEYS: seq<string> := ["privatekey", "listenport", "fwmark"]
  const PEER_KEYS: seq<string> := ["publickey", "presharedkey", "allowedips", "endpoint", "persistentkeepalive"]

  datatype Section = NoSection | InterfaceSection | PeerSection

  datatype ConfigError =
    | UnknownSection | MalformedLine | BadMtu | KeyOutsideSection
    | NoPrivateKey | NoPeer | PeerWithoutKey | NoAddress

  datatype WgConfig = WgConfig(addresses: seq<string>, mtu: Option<nat>, setconf: string, endpoint: Option<string>)

  // ------------------------------------------------------------------- reading one line

  datatype Item = Blank | Header(line: string) | Entry(key: string, value: string) | Malformed

  /** The line without its comment, trimmed, as the reducer sees it. */
  function Classify(raw: string): Item {
    var line := Trim(raw[..IndexOf(raw, '#')]);
    if line == "" then Blank
    else if line[0] == '[' && line[|line| - 1] == ']' then Header(line)
    else
      var i := IndexOf(line, '=');
      if i == |line| then Malformed
      else Entry(Lower(Trim(line[..i])), Trim(line[i + 1..]))
  }

  function HeaderSection(line: string): Section {
    if Lower(line) == "[interface]" then InterfaceSection
    else if Lower(line) == "[peer]" then PeerSection
    else NoSection
  }

  function KeyLine(key: string, value: string): string {
    key + " = " + value
  }

  predicate IsOctet(s: string) {
    && 1 <= |s| <= 3 && (forall c <- s :: IsDigit(c)) && (|s| > 1 ==> s[0] != '0') && Digits(s) < 256
  }

  predicate IsIpv4(s: string) {
    var parts := Split(s, '.');
    |parts| == 4 && forall p <- parts :: IsOctet(p)
  }

  predicate IsIpv4Cidr(s: string) {
    var i := IndexOf(s, '/');
    var ip, prefix := s[..i], if i == |s| then "32" else s[i + 1..];
    IsIpv4(ip) && ParseNat(prefix, 256).Some? && ParseNat(prefix, 256).value <= 32
  }

  /** The IPv4 ones among the comma-separated addresses. */
  function V4Addresses(parts: seq<string>): (r: seq<string>)
    ensures forall a <- r :: IsIpv4Cidr(a)
  {
    if parts == [] then [] else
    V4Addresses(parts[..|parts| - 1]) +
    (var a := Trim(parts[|parts| - 1]); if IsIpv4Cidr(a) then [a] else [])
  }

  lemma OctetDecimal(n: nat)
    ensures IsOctet(Decimal(n)) <==> n < 256
  {
    DigitsOfDecimal(n);
    if n < 256 { ShortDecimal(n); }
  }

  lemma ShortDecimal(n: nat)
    requires n < 1000
    ensures |Decimal(n)| <= 3 && (n >= 10 ==> Decimal(n)[0] != '0')
  {
    if n >= 100 {
      assert Decimal(n / 10) == Decimal(n / 100) + [DigitChar(n / 10 % 10)];
      assert Decimal(n / 100) == [DigitChar(n / 100)];
    } else if n >= 10 {
      assert Decimal(n / 10) == [DigitChar(n / 10)];
    }
  }

  function Dotted(a: nat, b: nat, c: nat, d: nat): string {
    Decimal(a) + ['.'] + (Decimal(b) + ['.'] + (Decimal(c) + ['.'] + Decimal(d)))
  }

  /** `s` is the dotted form of four bytes: no other spelling of an address is read. */
  ghost predicate IsDotted(s: string) {
    exists a: nat, b: nat, c: nat, d: nat :: IsDottedOf(s, a, b, c, d)
  }

  predicate IsDottedOf(s: string, a: nat, b: nat, c: nat, d: nat) {
    a < 256 && b < 256 && c < 256 && d < 256 && s == Dotted(a, b, c, d)
  }

  /** A prefix length as it may be spelled: an optional plus sign, then digits worth at most 32. */
  predicate IsPrefixLength(s: string) {
    var d := if s != "" && s[0] == '+' then s[1..] else s;
    d != "" && (forall x <- d :: IsDigit(x)) && Digits(d) <= 32
  }

  /**
   Which strings pass for an IPv4 address: exactly the dotted forms of four bytes, alone or before
   a slash and a prefix length.
   */
  lemma CidrExactly(s: string)
    ensures IsIpv4Cidr(s) <==>
              IsDotted(s) || exists i :: 0 <= i < |s| && s[i] == '/' && IsDotted(s[..i]) && IsPrefixLength(s[i + 1..])
  {
    hide IsIpv4, ParseNat, IndexOf, IsDotted, IsPrefixLength;
    var i := IndexOf(s, '/');
    Ipv4IsDotted(s[..i]);
    if i == |s| {
      assert s[..i] == s;
      ThirtyTwo();
    } else {
      PrefixLength(s[i + 1..]);
      if IsDotted(s) { DottedHasNoSlash(s); }
    }
    forall j | 0 <= j < |s| && s[j] == '/' && IsDotted(s[..j]) ensures j == i {
      DottedHasNoSlash(s[..j]);
      assert forall n :: 0 <= n < j ==> s[n] == s[..j][n];
      IndexOfIs(s, '/', j);
    }
  }

  lemma ThirtyTwo()
    ensures ParseNat("32", 256) == Some(32)
  {
    assert Decimal(32) == "32";
    ParseDecimal(32, 256);
  }

  lemma PrefixLength(s: string)
    ensures IsPrefixLength(s) <==> ParseNat(s, 256).Some? && ParseNat(s, 256).value <= 32
  {
    hide Digits;
  }

  lemma DottedHasNoSlash(s: string)
    requires IsDotted(s)
    ensures forall j :: 0 <= j < |s| ==> s[j] != '/'
  {
    hide Dotted;
    var a, b, c, d :| IsDottedOf(s, a, b, c, d);
    DottedIsIpv4(a, b, c, d);
  }

  lemma Ipv4IsDotted(s: string)
    ensures IsIpv4(s) <==> IsDotted(s)
  {
    hide IsOctet, Split, Join, Digits, Decimal;
    if IsDotted(s) {
      var a, b, c, d :| IsDottedOf(s, a, b, c, d);
      DottedIsIpv4(a, b, c, d);
    }
    if IsIpv4(s) {
      var parts := Split(s, '.');
      JoinSplit(s, '.');
      JoinFour(parts, '.');
      forall p <- parts ensures Decimal(OctetValue(p)) == p && OctetValue(p) < 256 { OctetIsDecimal(p); }
      assert parts[0] in parts && parts[1] in parts && parts[2] in parts && parts[3] in parts;
      assert IsDottedOf(s, OctetValue(parts[0]), OctetValue(parts[1]), OctetValue(parts[2]), OctetValue(parts[3]));
    }
  }

  lemma JoinFour(p: seq<string>, c: char)
    requires |p| == 4
    ensures Join(p, c) == p[0] + [c] + (p[1] + [c] + (p[2] + [c] + p[3]))
  {
    assert p[1..][1..] == p[2..] && p[2..][1..] == p[3..] && Join(p[3..], c) == p[3];
    assert Join(p[2..], c) == p[2] + [c] + p[3];
    assert Join(p[1..], c) == p[1] + [c] + (p[2] + [c] + p[3]);
  }

  function OctetValue(s: string): nat {
    if forall x <- s :: IsDigit(x) then Digits(s) else 0
  }

  lemma OctetIsDecimal(s: string)
    requires IsOctet(s)
    ensures Decimal(OctetValue(s)) == s && OctetValue(s) < 256
  {
    DecimalOfDigits(s);
  }

  lemma DottedIsIpv4(a: nat, b: nat, c: nat, d: nat)
    ensures IsIpv4(Dotted(a, b, c, d)) <==> a < 256 && b < 256 && c < 256 && d < 256
    ensures forall j :: 0 <= j < |Dotted(a, b, c, d)| ==> Dotted(a, b, c, d)[j] != '/'
  {
    hide Decimal, IsOctet, Split;
    var w, x, y, z := Decimal(a), Decimal(b), Decimal(c), Decimal(d);
    NumberIsOnePart(a);
    NumberIsOnePart(b);
    NumberIsOnePart(c);
    NumberIsOnePart(d);
    SplitConcat(y, z, '.');
    SplitConcat(x, y + ['.'] + z, '.');
    SplitConcat(w, x + ['.'] + (y + ['.'] + z), '.');
    assert Split(Dotted(a, b, c, d), '.') == [w, x, y, z];
    OctetDecimal(a);
    OctetDecimal(b);
    OctetDecimal(c);
    OctetDecimal(d);
  }

  lemma NumberIsOnePart(n: nat)
    ensures Split(Decimal(n), '.') == [Decimal(n)]
    ensures forall j :: 0 <= j < |Decimal(n)| ==> Decimal(n)[j] != '/'
  {
    SplitSingle(Decimal(n), '.');
  }

  // ---------------------------------------------------------------- the line machine

  datatype Reducer = Reducer(
    section: Section, out: seq<string>, addresses: seq<string>, mtu: Option<nat>, endpoint: Option<string>,
    hasPrivateKey: bool, peerHasKey: seq<bool>)

  const START: Reducer := Reducer(NoSection, [], [], None, None, false, [])

  function ReduceEntry(st: Reducer, key: string, value: string): Result<Reducer, ConfigError> {
    match st.section
    case NoSection => Err(KeyOutsideSection)
    case InterfaceSection =>
      if key == "address" then Ok(st.(addresses := st.addresses + V4Addresses(Split(value, ','))))
      else if key == "mtu" then
        var mtu := ParseNat(value, 0x1_0000_0000);
        if mtu.None? then Err(BadMtu) else Ok(st.(mtu := mtu))
      else if key in INTERFACE_KEYS then
        Ok(st.(hasPrivateKey := st.hasPrivateKey || key == "privatekey", out := st.out + [KeyLine(key, value)]))
      else Ok(st)
    case PeerSection =>
      if key in PEER_KEYS then
        Ok(st.(peerHasKey := if key == "publickey" && st.peerHasKey != []
                             then st.peerHasKey[|st.peerHasKey| - 1 := true] else st.peerHasKey,
               endpoint := if key == "endpoint" && st.endpoint.None? then Some(value) else st.endpoint,
               out := st.out + [KeyLine(key, value)]))
      else Ok(st)
  }

  function ReduceItem(st: Reducer, item: Item): Result<Reducer, ConfigError> {
    match item
    case Blank => Ok(st)
    case Malformed => Err(MalformedLine)
    case Header(line) =>
      (match HeaderSection(line)
       case NoSection => Err(UnknownSection)
       case InterfaceSection => Ok(st.(section := InterfaceSection, out := st.out + [line]))
       case PeerSection =>
         Ok(st.(section := PeerSection, out := st.out + [line], peerHasKey := st.peerHasKey + [false])))
    case Entry(key, value) => ReduceEntry(st, key, value)
  }

  function Reduce(st: Reducer, lines: seq<string>): Result<Reducer, ConfigError>
    decreases |lines|
  {
    if lines == [] then Ok(st) else
    match ReduceItem(st, Classify(lines[0]))
    case Err(e) => Err(e)
    case Ok(st') => Reduce(st', lines[1..])
  }

  function Conclude(st: Reducer): Result<WgConfig, ConfigError> {
    if !st.hasPrivateKey then Err(NoPrivateKey)
    else if st.peerHasKey == [] then Err(NoPeer)
    else if false in st.peerHasKey then Err(PeerWithoutKey)
    else if st.addresses == [] then Err(NoAddress)
    else Ok(WgConfig(st.addresses, st.mtu, Unlines(st.out), st.endpoint))
  }

  function Parsed(text: string): Result<WgConfig, ConfigError> {
    match Reduce(START, Lines(text))
    case Err(e) => Err(e)
    case Ok(st) => Conclude(st)
  }

  /** `WgConfig::parse` as it is written: one loop over the lines; `st` holds its variables but for the text. */
  method Parse(text: string) returns (r: Result<WgConfig, ConfigError>)
    ensures r == Parsed(text)
  {
    hide Classify, ReduceItem, Unlines;
    var lines := Lines(text);
    var st, setconf := START, "";
    assert setconf == Unlines(st.out) by { NoLines(); }
    for n := 0 to |lines|
      invariant setconf == Unlines(st.out) && (st.section.PeerSection? ==> st.peerHasKey != [])
      invariant Reduce(st, lines[n..]) == Reduce(START, lines)
    {
      assert lines[n..][0] == lines[n] && lines[n..][1..] == lines[n + 1..];
      var next, more := TakeItem(st, Classify(lines[n]));
      if next.Err? { return Err(next.error); }
      st, setconf := next.value, setconf + more;
    }
    if !st.hasPrivateKey { return Err(NoPrivateKey); }
    if |st.peerHasKey| == 0 { return Err(NoPeer); }
    if false in st.peerHasKey { return Err(PeerWithoutKey); }
    if st.addresses == [] { return Err(NoAddress); }
    return Ok(WgConfig(st.addresses, st.mtu, setconf, st.endpoint));
  }

  lemma NoLines()
    ensures Unlines([]) == ""
  {}

  /** One pass through the loop body: the new variables, and the text pushed onto setconf. */
  method TakeItem(st: Reducer, item: Item) returns (r: Result<Reducer, ConfigError>, more: string)
    requires st.section.PeerSection? ==> st.peerHasKey != []
    ensures r == ReduceItem(st, item)
    ensures r.Ok? ==> Unlines(r.value.out) == Unlines(st.out) + more
    ensures r.Ok? && r.value.section.PeerSection? ==> r.value.peerHasKey != []
  {
    hide Unlines, ReduceEntry;
    more := "";
    if item.Blank? { return Ok(st), more; }
    if item.Malformed? { return Err(MalformedLine), more; }
    if item.Entry? {
      r, more := TakeEntry(st, item.key, item.value);
      return;
    }
    var section := HeaderSection(item.line);
    if section.NoSection? { return Err(UnknownSection), more; }
    var peerHasKey := st.peerHasKey;
    if section.PeerSection? { peerHasKey := peerHasKey + [false]; }
    UnlinesSnoc(st.out, item.line);
    more := item.line + "\n";
    return Ok(st.(section := section, out := st.out + [item.line], peerHasKey := peerHasKey)), more;
  }

  method TakeEntry(st: Reducer, key: string, value: string) returns (r: Result<Reducer, ConfigError>, more: string)
    requires st.section.PeerSection? ==> st.peerHasKey != []
    ensures r == ReduceEntry(st, key, value)
    ensures r.Ok? ==> Unlines(r.value.out) == Unlines(st.out) + more && r.value.section == st.section
    ensures r.Ok? && st.section.PeerSection? ==> r.value.peerHasKey != []
  {
    hide Unlines, V4Addresses, ParseNat;
    more := "";
    UnlinesSnoc(st.out, KeyLine(key, value));
    var line := KeyLine(key, value);
    if st.section.NoSection? { return Err(KeyOutsideSection), more; }
    if st.section.InterfaceSection? {
      if key == "address" {
        var found := CollectV4(Split(value, ','));
        return Ok(st.(addresses := st.addresses + found)), more;
      } else if key == "mtu" {
        var mtu := ParseNat(value, 0x1_0000_0000);
        if mtu.None? { return Err(BadMtu), more; }
        return Ok(st.(mtu := mtu)), more;
      } else if key in INTERFACE_KEYS {
        var hasPrivateKey := st.hasPrivateKey;
        if key == "privatekey" { hasPrivateKey := true; }
        return Ok(st.(hasPrivateKey := hasPrivateKey, out := st.out + [line])), line + "\n";
      }
    } else if key in PEER_KEYS {
      var flags, endpoint := st.peerHasKey, st.endpoint;
      if key == "publickey" { flags := flags[|flags| - 1 := true]; }
      if key == "endpoint" && endpoint.None? { endpoint := Some(value); }
      return Ok(st.(peerHasKey := flags, endpoint := endpoint, out := st.out + [line])), line + "\n";
    }
    return Ok(st), more;
  }

  method CollectV4(parts: seq<string>) returns (r: seq<string>)
    ensures r == V4Addresses(parts)
  {
    r := [];
    for i := 0 to |parts|
      invariant r == V4Addresses(parts[..i])
    {
      assert parts[..i + 1][..i] == parts[..i];
      var a := Trim(parts[i]);
      if IsIpv4Cidr(a) { r := r + [a]; }
    }
    assert parts[..|parts|] == parts;
  }

  // ------------------------------------------------------------ what the output looks like

  predicate IsHeader(l: string) {
    !HeaderSection(l).NoSection?
  }

  predicate CleanValue(v: string) {
    Trimmed(v) && '#' !in v && '\n' !in v
  }

  /** The line `key = value`, with nothing that the reducer would read differently. */
  predicate IsEntry(l: string, key: string) {
    StartsWith(l, key + " = ") && CleanValue(l[|key| + 3..])
  }

  function Keys(s: Section): seq<string> {
    match s
    case NoSection => []
    case InterfaceSection => INTERFACE_KEYS
    case PeerSection => PEER_KEYS
  }

  /** The section in force after some lines. */
  function SectionAfter(ls: seq<string>): Section {
    if ls == [] then NoSection
    else if IsHeader(ls[|ls| - 1]) then HeaderSection(ls[|ls| - 1])
    else SectionAfter(ls[..|ls| - 1])
  }

  predicate Allowed(section: Section, l: string) {
    IsHeader(l) || exists k :: k in Keys(section) && IsEntry(l, k)
  }

  /** Every line is a section header or an allowed key of the section it stands in. */
  ghost predicate Legal(ls: seq<string>) {
    forall i :: 0 <= i < |ls| ==> Allowed(SectionAfter(ls[..i]), ls[i])
  }

  lemma LegalSnoc(ls: seq<string>, l: string)
    requires Legal(ls) && Allowed(SectionAfter(ls), l)
    ensures Legal(ls + [l])
    ensures SectionAfter(ls + [l]) == if IsHeader(l) then HeaderSection(l) else SectionAfter(ls)
  {
    hide Allowed;
    var all := ls + [l];
    assert all[..|ls|] == ls;
    forall i | 0 <= i < |all| ensures Allowed(SectionAfter(all[..i]), all[i]) {
      if i < |ls| { assert all[..i] == ls[..i]; }
    }
  }

  predicate CleanKey(k: string) {
    k != "" && forall i :: 0 <= i < |k| ==> 'a' <= k[i] <= 'z'
  }

  lemma KeysAreClean(s: Section, k: string)
    requires k in Keys(s)
    ensures CleanKey(k)
  {}

  lemma EntryIsNotHeader(l: string, k: string)
    requires CleanKey(k) && StartsWith(l, k + " = ")
    ensures !IsHeader(l) && l[0] != '['
  {}

  lemma KeyLineIsEntry(k: string, v: string)
    requires CleanValue(v)
    ensures IsEntry(KeyLine(k, v), k)
  {}

  lemma ValueIsClean(raw: string)
    requires Classify(raw).Entry? && '\n' !in raw
    ensures CleanValue(Classify(raw).value)
  {
    var cut := raw[..IndexOf(raw, '#')];
    assert '#' !in cut && '\n' !in cut;
  }

  // ------------------------------------------------------- the invariant of the reducer

  predicate IsPeerHeader(l: string) {
    HeaderSection(l).PeerSection?
  }

  /** The peer whose header is line `i` has a public key before the next header. */
  ghost predicate PeerKeyed(ls: seq<string>, i: nat) {
    exists j :: i < j < |ls| && IsEntry(ls[j], "publickey") && forall m :: i < m <= j ==> !IsHeader(ls[m])
  }

  function PeerIndices(ls: seq<string>): (r: seq<nat>)
    ensures forall p <- r :: p < |ls|
  {
    if ls == [] then [] else
    PeerIndices(ls[..|ls| - 1]) + (if IsPeerHeader(ls[|ls| - 1]) then [|ls| - 1] else [])
  }

  lemma {:induction false} PeerIndicesComplete(ls: seq<string>, i: nat)
    requires i < |ls| && IsPeerHeader(ls[i])
    ensures i in PeerIndices(ls)
    decreases |ls|
  {
    if i < |ls| - 1 { PeerIndicesComplete(ls[..|ls| - 1], i); }
  }

  ghost predicate HasPrivateKey(ls: seq<string>) {
    exists i :: 0 <= i < |ls| && SectionAfter(ls[..i]).InterfaceSection? && IsEntry(ls[i], "privatekey")
  }

  /** Every raised flag stands for a keyed peer, and the last peer is still open in its section. */
  ghost predicate FlagsFit(st: Reducer) {
    var at := PeerIndices(st.out);
    && |st.peerHasKey| == |at|
    && (forall p :: 0 <= p < |at| && st.peerHasKey[p] ==> PeerKeyed(st.out, at[p]))
    && (st.section.PeerSection? ==>
          at != [] && forall m :: at[|at| - 1] < m < |st.out| ==> !IsHeader(st.out[m]))
  }

  ghost predicate Sound(st: Reducer) {
    && Legal(st.out) && SectionAfter(st.out) == st.section
    && (forall a <- st.addresses :: IsIpv4Cidr(a))
    && (st.hasPrivateKey ==> HasPrivateKey(st.out))
    && FlagsFit(st)
  }

  lemma KeyedSnoc(ls: seq<string>, l: string, i: nat)
    requires PeerKeyed(ls, i)
    ensures PeerKeyed(ls + [l], i)
  {
    var j :| i < j < |ls| && IsEntry(ls[j], "publickey") && forall m :: i < m <= j ==> !IsHeader(ls[m]);
    assert (ls + [l])[j] == ls[j];
  }

  lemma PeerIndicesSnoc(ls: seq<string>, l: string)
    ensures PeerIndices(ls + [l]) == PeerIndices(ls) + (if IsPeerHeader(l) then [|ls|] else [])
  {}

  lemma PrivateKeySnoc(ls: seq<string>, l: string)
    ensures HasPrivateKey(ls) ==> HasPrivateKey(ls + [l])
    ensures SectionAfter(ls).InterfaceSection? && IsEntry(l, "privatekey") ==> HasPrivateKey(ls + [l])
  {
    var all := ls + [l];
    assert all[..|ls|] == ls && all[|ls|] == l;
    if HasPrivateKey(ls) {
      var i :| 0 <= i < |ls| && SectionAfter(ls[..i]).InterfaceSection? && IsEntry(ls[i], "privatekey");
      assert all[..i] == ls[..i] && all[i] == ls[i];
    }
  }

  /** A header line keeps the flags fitting. */
  lemma HeaderFits(st: Reducer, l: string, st': Reducer)
    requires FlagsFit(st) && ReduceItem(st, Header(l)) == Ok(st')
    ensures FlagsFit(st')
  {
    hide HeaderSection;
    PeerIndicesSnoc(st.out, l);
    forall p | 0 <= p < |PeerIndices(st.out)| && st.peerHasKey[p]
      ensures PeerKeyed(st'.out, PeerIndices(st.out)[p])
    {
      KeyedSnoc(st.out, l, PeerIndices(st.out)[p]);
    }
  }

  /** So does a line that is not a header, with or without a raised flag. */
  lemma EntryFits(st: Reducer, l: string, flags: seq<bool>)
    requires FlagsFit(st) && !IsHeader(l)
    requires flags == st.peerHasKey ||
             (st.section.PeerSection? && st.peerHasKey != [] && IsEntry(l, "publickey") &&
              flags == st.peerHasKey[|st.peerHasKey| - 1 := true])
    ensures FlagsFit(st.(out := st.out + [l], peerHasKey := flags))
  {
    hide IsHeader, IsEntry;
    var at, all := PeerIndices(st.out), st.out + [l];
    PeerIndicesSnoc(st.out, l);
    NotPeerHeader(l);
    forall p | 0 <= p < |at| && flags[p] ensures PeerKeyed(all, at[p]) {
      if st.peerHasKey[p] {
        KeyedSnoc(st.out, l, at[p]);
      } else {
        assert all[|st.out|] == l && at[p] in at;
      }
    }
  }

  lemma NotPeerHeader(l: string)
    requires !IsHeader(l)
    ensures !IsPeerHeader(l)
  {}

  lemma ReduceEntrySound(st: Reducer, key: string, value: string, st': Reducer)
    requires Sound(st) && CleanValue(value) && ReduceEntry(st, key, value) == Ok(st')
    ensures Sound(st')
  {
    hide Allowed, Legal, HasPrivateKey, FlagsFit, IsEntry, SectionAfter, IsIpv4Cidr, IsHeader, CleanValue;
    if key in Keys(st.section) && key != "address" && key != "mtu" {
      var l := KeyLine(key, value);
      EmittedEntry(st.section, key, value);
      LegalSnoc(st.out, l);
      PrivateKeySnoc(st.out, l);
      EntryFits(st, l, st'.peerHasKey);
      FlagsFitSame(st.(out := st.out + [l], peerHasKey := st'.peerHasKey), st');
    } else {
      FlagsFitSame(st, st');
    }
  }

  lemma FlagsFitSame(a: Reducer, b: Reducer)
    requires FlagsFit(a) && a.out == b.out && a.peerHasKey == b.peerHasKey && a.section == b.section
    ensures FlagsFit(b)
  {}

  lemma EmittedEntry(section: Section, key: string, value: string)
    requires key in Keys(section) && CleanValue(value)
    ensures var l := KeyLine(key, value);
            Allowed(section, l) && IsEntry(l, key) && !IsHeader(l)
  {
    KeysAreClean(section, key);
    KeyLineIsEntry(key, value);
    EntryIsNotHeader(KeyLine(key, value), key);
  }

  lemma ReduceItemSound(st: Reducer, raw: string, st': Reducer)
    requires Sound(st) && '\n' !in raw && ReduceItem(st, Classify(raw)) == Ok(st')
    ensures Sound(st')
  {
    hide Classify, Legal, HasPrivateKey, FlagsFit, IsEntry, SectionAfter, IsIpv4Cidr, ReduceEntry, Allowed;
    match Classify(raw)
    case Blank =>
    case Malformed =>
    case Header(l) =>
      HeaderAllowed(st.section, l);
      LegalSnoc(st.out, l);
      PrivateKeySnoc(st.out, l);
      HeaderFits(st, l, st');
    case Entry(k, v) =>
      ValueIsClean(raw);
      ReduceEntrySound(st, k, v, st');
  }

  lemma HeaderAllowed(section: Section, l: string)
    requires IsHeader(l)
    ensures Allowed(section, l)
  {}

  lemma {:induction false} ReduceSound(st: Reducer, lines: seq<string>, st': Reducer)
    requires Sound(st) && (forall l <- lines :: '\n' !in l) && Reduce(st, lines) == Ok(st')
    ensures Sound(st')
    decreases |lines|
  {
    hide Sound, Classify, ReduceItem;
    if lines != [] {
      var next := ReduceItem(st, Classify(lines[0]));
      assert lines[0] in lines;
      ReduceItemSound(st, lines[0], next.value);
      ReduceSound(next.value, lines[1..], st');
    }
  }

  lemma StartIsSound()
    ensures Sound(START)
  {}

  // -------------------------------------------------------------------- reading it back

  lemma AllowedIsLine(section: Section, l: string)
    requires Allowed(section, l)
    ensures IsLine(l) && '#' !in l && l != "" && Trimmed(l[..1])
  {
    if IsHeader(l) {
      HeaderIsLine(l);
    } else {
      var k :| k in Keys(section) && IsEntry(l, k);
      KeysAreClean(section, k);
      EntryIsLine(l, k);
    }
  }

  lemma HeaderIsLine(l: string)
    requires IsHeader(l)
    ensures IsLine(l) && '#' !in l && |l| >= 6 && l[0] == '[' && l[|l| - 1] == ']'
  {}

  lemma EntryIsLine(l: string, k: string)
    requires CleanKey(k) && IsEntry(l, k)
    ensures IsLine(l) && '#' !in l && l != "" && !IsSpace(l[0])
  {}

  lemma ClassifyHeader(l: string)
    requires IsHeader(l)
    ensures Classify(l) == Header(l)
  {
    HeaderIsLine(l);
    IndexOfIs(l, '#', |l|);
    assert l[..|l|] == l && Trimmed(l);
  }

  lemma LettersAreNoSpace(k: string)
    requires CleanKey(k)
    ensures Trimmed(k) && (forall i :: 0 <= i < |k| ==> LowerChar(k[i]) == k[i])
    ensures !IsSpace(k[0]) && !IsSpace('=')
  {}

  lemma TrimKey(k: string)
    requires CleanKey(k)
    ensures Trim(k + " ") == k && Lower(k) == k
  {
    hide IsSpace, Trim, LowerChar;
    LettersAreNoSpace(k);
    TrimEndBlank(k);
    assert Lower(k) == k;
  }

  /** An entry line loses at most the blank after an empty value. */
  lemma TrimEntry(k: string, v: string)
    requires CleanKey(k) && Trimmed(v)
    ensures Trim(KeyLine(k, v)) == k + " " + (if v == "" then "=" else "= " + v)
  {
    hide IsSpace, Trim;
    LettersAreNoSpace(k);
    if v == "" {
      TrimEndBlank(k + " =");
      assert KeyLine(k, v) == k + " =" + " ";
    } else {
      var line := KeyLine(k, v);
      assert line[0] == k[0] && line[|line| - 1] == v[|v| - 1];
      assert line == k + " " + ("= " + v);
    }
  }

  lemma ClassifyEntry(l: string, k: string)
    requires CleanKey(k) && IsEntry(l, k)
    ensures Classify(l) == Entry(k, l[|k| + 3..]) && KeyLine(k, l[|k| + 3..]) == l
  {
    hide Trim, Lower, Trimmed, IsSpace, Classify, CleanKey;
    var v := l[|k| + 3..];
    assert l == KeyLine(k, v);
    EntryIsLine(l, k);
    TrimEntry(k, v);
    SplitEntry(k, v, Trim(l));
    TrimKey(k);
    TrimAfterEquals(v);
    ClassifySplit(l, |k| + 1);
  }

  lemma TrimAfterEquals(v: string)
    requires Trimmed(v)
    ensures Trim(if v == "" then "" else " " + v) == v
  {
    TrimStartBlank(v);
  }

  /** How a line without a comment is read, once its first equals sign is known. */
  lemma ClassifySplit(l: string, i: nat)
    requires '#' !in l && Trim(l) != "" && Trim(l)[0] != '[' && IndexOf(Trim(l), '=') == i < |Trim(l)|
    ensures Classify(l) == Entry(Lower(Trim(Trim(l)[..i])), Trim(Trim(l)[i + 1..]))
  {
    hide Trim, Lower;
    IndexOfIs(l, '#', |l|);
    assert l[..|l|] == l;
  }

  lemma SplitEntry(k: string, v: string, line: string)
    requires CleanKey(k) && line == k + " " + (if v == "" then "=" else "= " + v)
    ensures line != "" && line[0] != '[' && IndexOf(line, '=') == |k| + 1 < |line|
    ensures line[..|k| + 1] == k + " " && line[|k| + 2..] == if v == "" then "" else " " + v
  {
    hide IndexOf;
    var left, right := k + " ", if v == "" then "=" else "= " + v;
    Around(left, right, line);
    assert right[1..] == if v == "" then "" else " " + v;
    assert left[0] == k[0];
    forall j | 0 <= j < |left| ensures left[j] != '=' {
      if j < |k| { assert left[j] == k[j]; }
    }
    IndexOfIs(line, '=', |left|);
  }

  lemma Around(left: string, right: string, line: string)
    requires line == left + right && right != "" && left != ""
    ensures line[..|left|] == left && line[|left| + 1..] == right[1..] && line[|left|] == right[0] && line[0] == left[0]
    ensures forall j :: 0 <= j < |left| ==> line[j] == left[j]
  {}

  lemma {:induction false} ReduceAppend(st: Reducer, a: seq<string>, b: seq<string>)
    ensures Reduce(st, a + b) == match Reduce(st, a) case Err(e) => Err(e) case Ok(st') => Reduce(st', b)
    decreases |a|
  {
    if a == [] {
      assert a + b == b;
    } else {
      assert (a + b)[1..] == a[1..] + b;
      var next := ReduceItem(st, Classify(a[0]));
      if next.Ok? { ReduceAppend(next.value, a[1..], b); }
    }
  }

  /** One allowed line passes through the reducer unchanged. */
  lemma AllowedPasses(st: Reducer, l: string)
    requires Allowed(st.section, l)
    ensures var r := ReduceItem(st, Classify(l));
            r.Ok? && r.value.out == st.out + [l] &&
            r.value.section == if IsHeader(l) then HeaderSection(l) else st.section
  {
    hide Classify, ReduceEntry, KeyLine, CleanValue;
    if IsHeader(l) {
      ClassifyHeader(l);
    } else {
      var k :| k in Keys(st.section) && IsEntry(l, k);
      KeysAreClean(st.section, k);
      ClassifyEntry(l, k);
      EntryIsNotHeader(l, k);
      PassesAsEntry(st, k, l[|k| + 3..]);
    }
  }

  lemma PassesAsEntry(st: Reducer, k: string, v: string)
    requires k in Keys(st.section)
    ensures var r := ReduceEntry(st, k, v);
            r.Ok? && r.value.out == st.out + [KeyLine(k, v)] && r.value.section == st.section
  {}

  /** Reduction is idempotent on legal lines: the reducer reads its own output and changes nothing. */
  lemma {:induction false} LegalIsFixed(ls: seq<string>)
    requires Legal(ls)
    ensures Reduce(START, ls).Ok? && Reduce(START, ls).value.out == ls
    ensures Reduce(START, ls).value.section == SectionAfter(ls)
    decreases |ls|
  {
    hide Legal, Allowed, SectionAfter, Reduce, ReduceItem, Classify, IsHeader;
    if ls == [] {
      NothingToReduce();
    } else {
      var n := |ls| - 1;
      var front, l := ls[..n], ls[n];
      LegalFront(ls);
      LegalSnoc(front, l);
      LegalIsFixed(front);
      var st := Reduce(START, front).value;
      AllowedPasses(st, l);
      assert ls == front + [l];
      ReduceAppend(START, front, [l]);
      ReduceOne(st, l);
    }
  }

  lemma NothingToReduce()
    ensures Reduce(START, []) == Ok(START) && SectionAfter([]) == NoSection
  {}

  lemma ReduceOne(st: Reducer, l: string)
    requires ReduceItem(st, Classify(l)).Ok?
    ensures Reduce(st, [l]) == ReduceItem(st, Classify(l))
  {}

  lemma LegalFront(ls: seq<string>)
    requires Legal(ls) && ls != []
    ensures Legal(ls[..|ls| - 1]) && Allowed(SectionAfter(ls[..|ls| - 1]), ls[|ls| - 1])
  {
    hide Allowed, SectionAfter;
    var front := ls[..|ls| - 1];
    forall i | 0 <= i < |front| ensures Allowed(SectionAfter(front[..i]), front[i]) {
      assert front[..i] == ls[..i];
    }
  }

  // --------------------------------------------------------------------- the theorems

  /** What the reducer emits for a raw line in a section. */
  function Emits(section: Section, item: Item): seq<string> {
    match item
    case Header(l) => [l]
    case Entry(k, v) =>
      if (section.InterfaceSection? && k in {"privatekey", "listenport", "fwmark"}) ||
         (section.PeerSection? &&
          k in {"publickey", "presharedkey", "allowedips", "endpoint", "persistentkeepalive"})
      then [KeyLine(k, v)] else []
    case _ => []
  }

  function NextSection(section: Section, item: Item): Section {
    if item.Header? then HeaderSection(item.line) else section
  }

  /** The emitted lines of a text, in source order. */
  function EmitAll(section: Section, lines: seq<string>): seq<string>
    decreases |lines|
  {
    if lines == [] then [] else
    Emits(section, Classify(lines[0])) + EmitAll(NextSection(section, Classify(lines[0])), lines[1..])
  }

  lemma ReduceItemEmits(st: Reducer, item: Item)
    ensures ReduceItem(st, item).Ok? ==>
              && ReduceItem(st, item).value.out == st.out + Emits(st.section, item)
              && ReduceItem(st, item).value.section == NextSection(st.section, item)
  {}

  lemma {:induction false} ReduceEmits(st: Reducer, lines: seq<string>, st': Reducer)
    requires Reduce(st, lines) == Ok(st')
    ensures st'.out == st.out + EmitAll(st.section, lines)
    decreases |lines|
  {
    hide Classify, ReduceItem, Emits;
    if lines != [] {
      var item := Classify(lines[0]);
      ReduceItemEmits(st, item);
      var next := ReduceItem(st, item).value;
      ReduceEmits(next, lines[1..], st');
    }
  }

  /** The IPv4 addresses of the interface sections, in source order. */
  function CollectAll(section: Section, lines: seq<string>): seq<string>
    decreases |lines|
  {
    if lines == [] then [] else
    var item := Classify(lines[0]);
    (if item.Entry? && section.InterfaceSection? && item.key == "address"
     then V4Addresses(Split(item.value, ',')) else []) +
    CollectAll(NextSection(section, item), lines[1..])
  }

  lemma {:induction false} ReduceCollects(st: Reducer, lines: seq<string>, st': Reducer)
    requires Reduce(st, lines) == Ok(st')
    ensures st'.addresses == st.addresses + CollectAll(st.section, lines)
    decreases |lines|
  {
    hide Classify, V4Addresses;
    if lines != [] {
      var item := Classify(lines[0]);
      ReduceItemEmits(st, item);
      ReduceCollects(ReduceItem(st, item).value, lines[1..], st');
    }
  }

  /** The recorded endpoint is the value of the first endpoint line. */
  ghost predicate EndpointFits(endpoint: Option<string>, ls: seq<string>) {
    match endpoint
    case None => forall l <- ls :: !IsEntry(l, "endpoint")
    case Some(v) =>
      exists i :: 0 <= i < |ls| && ls[i] == KeyLine("endpoint", v) &&
                  forall j :: 0 <= j < i ==> !IsEntry(ls[j], "endpoint")
  }

  lemma EndpointSnoc(endpoint: Option<string>, ls: seq<string>, l: string)
    requires EndpointFits(endpoint, ls) && (endpoint.Some? || !IsEntry(l, "endpoint"))
    ensures EndpointFits(endpoint, ls + [l])
  {
    if endpoint.Some? {
      var i :| 0 <= i < |ls| && ls[i] == KeyLine("endpoint", endpoint.value) &&
               forall j :: 0 <= j < i ==> !IsEntry(ls[j], "endpoint");
      assert (ls + [l])[i] == ls[i];
    }
  }

  lemma FirstEndpoint(ls: seq<string>, v: string)
    requires EndpointFits(None, ls)
    ensures EndpointFits(Some(v), ls + [KeyLine("endpoint", v)])
  {
    var all := ls + [KeyLine("endpoint", v)];
    assert all[|ls|] == KeyLine("endpoint", v);
    assert forall j :: 0 <= j < |ls| ==> all[j] == ls[j] && ls[j] in ls;
  }

  lemma OtherKeyIsNotEndpoint(section: Section, k: string, v: string)
    requires k in Keys(section) && k != "endpoint"
    ensures !IsEntry(KeyLine(k, v), "endpoint")
  {
    var l := KeyLine(k, v);
    KeysAreClean(section, k);
    assert k[0] != 'e';
    assert l[0] == k[0];
    if |l| >= 11 { assert l[..11][0] == k[0]; }
  }

  lemma EndpointStep(st: Reducer, raw: string, st': Reducer)
    requires EndpointFits(st.endpoint, st.out) && ReduceItem(st, Classify(raw)) == Ok(st')
    ensures EndpointFits(st'.endpoint, st'.out)
  {
    hide EndpointFits, IsEntry, Classify;
    match Classify(raw)
    case Header(l) =>
      HeaderIsNotEndpoint(l);
      EndpointSnoc(st.endpoint, st.out, l);
    case Entry(k, v) =>
      if k in Keys(st.section) && k != "address" && k != "mtu" {
        if k == "endpoint" && st.endpoint.None? {
          FirstEndpoint(st.out, v);
        } else {
          if k != "endpoint" { OtherKeyIsNotEndpoint(st.section, k, v); }
          EndpointSnoc(st.endpoint, st.out, KeyLine(k, v));
        }
      }
    case _ =>
  }

  lemma HeaderIsNotEndpoint(l: string)
    requires IsHeader(l)
    ensures !IsEntry(l, "endpoint")
  {
    HeaderIsLine(l);
    if |l| >= 11 { assert l[..11][0] == '['; }
  }

  lemma {:induction false} ReduceEndpoint(st: Reducer, lines: seq<string>, st': Reducer)
    requires EndpointFits(st.endpoint, st.out) && Reduce(st, lines) == Ok(st')
    ensures EndpointFits(st'.endpoint, st'.out)
    decreases |lines|
  {
    hide EndpointFits, Classify, ReduceItem;
    if lines != [] {
      var next := ReduceItem(st, Classify(lines[0])).value;
      EndpointStep(st, lines[0], next);
      ReduceEndpoint(next, lines[1..], st');
    }
  }

  /** What an accepted config promises about its setconf lines. */
  ghost predicate WellReduced(ls: seq<string>) {
    && Legal(ls) && HasPrivateKey(ls)
    && (exists i :: 0 <= i < |ls| && IsPeerHeader(ls[i]))
    && (forall i :: 0 <= i < |ls| && IsPeerHeader(ls[i]) ==> PeerKeyed(ls, i))
  }

  /**
   For every accepted text: the setconf lines are exactly the allowed lines of the source in
   source order, each legal in its section, with a private key, at least one peer and a public
   key in every peer; the addresses are exactly the IPv4 ones of the source, and there is one;
   the endpoint is that of the first endpoint line; reducing the output again reproduces it.
   */
  lemma AcceptedConfig(text: string)
    requires Parsed(text).Ok?
    ensures var c := Parsed(text).value;
            var ls := Lines(c.setconf);
            && ls == EmitAll(NoSection, Lines(text))
            && WellReduced(ls) && c.setconf == Unlines(ls)
            && c.addresses != [] && (forall a <- c.addresses :: IsIpv4Cidr(a))
            && c.addresses == CollectAll(NoSection, Lines(text))
            && EndpointFits(c.endpoint, ls)
            && Reduce(START, ls).Ok? && Reduce(START, ls).value.out == ls
  {
    hide Legal, HasPrivateKey, PeerKeyed, Reduce, IsPeerHeader, IsIpv4Cidr, Lines, Unlines, EmitAll, PeerIndices,
         CollectAll, IsEntry;
    var lines := Lines(text);
    var st := Reduce(START, lines).value;
    LinesHaveNoFeed(text);
    StartIsSound();
    ReduceSound(START, lines, st);
    ReduceEmits(START, lines, st);
    ReduceCollects(START, lines, st);
    ReduceEndpoint(START, lines, st);
    assert [] + CollectAll(NoSection, lines) == CollectAll(NoSection, lines);
    assert [] + EmitAll(NoSection, lines) == EmitAll(NoSection, lines);
    LegalLinesReadBack(st.out);
    LegalIsFixed(st.out);
    forall i | 0 <= i < |st.out| && IsPeerHeader(st.out[i]) ensures PeerKeyed(st.out, i) {
      PeerIndicesComplete(st.out, i);
      var p :| 0 <= p < |PeerIndices(st.out)| && PeerIndices(st.out)[p] == i;
      assert st.peerHasKey[p] in st.peerHasKey;
    }
    FirstPeer(st.out);
  }

  lemma FirstPeer(ls: seq<string>)
    requires PeerIndices(ls) != []
    ensures exists i :: 0 <= i < |ls| && IsPeerHeader(ls[i])
  {}

  lemma LegalLinesReadBack(ls: seq<string>)
    requires Legal(ls)
    ensures Lines(Unlines(ls)) == ls
  {
    hide Allowed, SectionAfter;
    forall l | l in ls ensures IsLine(l) {
      var i :| 0 <= i < |ls| && ls[i] == l;
      AllowedIsLine(SectionAfter(ls[..i]), l);
    }
    LinesOfUnlines(ls);
  }

  // ------------------------------------------------------------------- endpoint lines

  function RewriteLine(l: string, endpoint: string): string {
    if StartsWith(Lower(l), "endpoint") then "endpoint = " + endpoint else l
  }

  function RewriteAll(ls: seq<string>, endpoint: string): seq<string> {
    seq(|ls|, i requires 0 <= i < |ls| => RewriteLine(ls[i], endpoint))
  }

  function WithEndpoint(setconf: string, endpoint: string): string {
    Join(RewriteAll(Lines(setconf), endpoint), '\n') + "\n"
  }

  lemma EndpointPrefix(k: string, l: string)
    requires k in INTERFACE_KEYS + PEER_KEYS && StartsWith(l, k + " = ")
    ensures StartsWith(Lower(l), "endpoint") <==> k == "endpoint"
  {
    assert CleanKey(k) by {
      if k in Keys(InterfaceSection) { KeysAreClean(InterfaceSection, k); } else { KeysAreClean(PeerSection, k); }
    }
    assert l[0] == (k + " = ")[0] == k[0] && k[0] in k;
    assert Lower(l)[0] == k[0];
    if k == "endpoint" {
      assert l[..8] == (k + " = ")[..8] == k;
      assert Lower(l)[..8] == k;
    } else {
      assert k[0] != 'e';
    }
  }

  lemma RewriteExactly(section: Section, l: string, endpoint: string)
    requires Allowed(section, l)
    ensures RewriteLine(l, endpoint) == if IsEntry(l, "endpoint") then "endpoint = " + endpoint else l
  {
    if IsHeader(l) {
      HeaderIsLine(l);
      assert Lower(l)[0] == '[';
      assert !StartsWith(Lower(l), "endpoint") by {
        if |l| >= 8 { assert Lower(l)[..8][0] == '['; }
      }
      assert !IsEntry(l, "endpoint") by {
        if |l| >= 11 { assert l[..11][0] == '['; }
      }
    } else {
      var k :| k in Keys(section) && IsEntry(l, k);
      EndpointPrefix(k, l);
      if IsEntry(l, "endpoint") { EndpointPrefix("endpoint", l); }
    }
  }

  /** `with_endpoint` on an accepted config rewrites every endpoint line, of all peers, and no other. */
  lemma WithEndpointExactly(text: string, endpoint: string)
    requires Parsed(text).Ok?
    ensures var ls := Lines(Parsed(text).value.setconf);
            exists after :: |after| == |ls| && WithEndpoint(Parsed(text).value.setconf, endpoint) == Unlines(after) &&
              forall i :: 0 <= i < |ls| ==>
                after[i] == if IsEntry(ls[i], "endpoint") then "endpoint = " + endpoint else ls[i]
  {
    hide Parsed, Lines, Unlines, IsEntry, IsPeerHeader, PeerKeyed, HasPrivateKey, Reduce, EmitAll, Allowed, CollectAll,
         EndpointFits, IsIpv4Cidr;
    AcceptedConfig(text);
    var ls := Lines(Parsed(text).value.setconf);
    var out := RewriteAll(ls, endpoint);
    JoinIsUnlines(out);
    forall i | 0 <= i < |ls|
      ensures out[i] == if IsEntry(ls[i], "endpoint") then "endpoint = " + endpoint else ls[i]
    {
      RewriteExactly(SectionAfter(ls[..i]), ls[i], endpoint);
    }
  }
}
