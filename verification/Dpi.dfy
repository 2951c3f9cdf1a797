/**
 TLS-record reframing of a client's first flight (crates/dns-helper/src/dpi.rs)
 and the byte stream that the DPI-bypass proxy sends upstream
 (crates/dns-helper/src/dpi_proxy.rs).

 The record layer follows section 5.1 of RFC 8446, the ClientHello section 4.1.2
 of RFC 8446 and server_name section 3 of RFC 6066.
 */
module Dpi {
  import opened Wrappers

  type Byte = x: int | 0 <= x < 256

  const TLS_HEADER: nat := 5
  const CONTENT_HANDSHAKE: Byte := 0x16
  const HANDSHAKE_CLIENT_HELLO: Byte := 0x01
  const EXT_SNI: nat := 0
  /** Where the session id starts, past type, length, version and random. */
  const SESSION_ID: nat := 38
  /** Size of the buffer the proxy reads the first flight into. */
  const FIRST_READ: nat := 16 * 1024

  // ---------------------------------------------------------------- the parser

  /** The value of two bytes in network order. */
  function Pair(hi: Byte, lo: Byte): nat {
    var high: int := hi;
    high * 256 + lo
  }

  function U16be(b: seq<Byte>, i: nat): Option<nat> {
    if i + 1 < |b| then Some(Pair(b[i], b[i + 1])) else None
  }

  function Get(b: seq<Byte>, i: nat): Option<Byte> {
    if i < |b| then Some(b[i]) else None
  }

  /** Where the extension list starts, when every length before it can be read. */
  function ExtensionsStart(p: seq<Byte>): Option<nat> {
    if Get(p, 0) != Some(HANDSHAKE_CLIENT_HELLO) then None else
    match Get(p, SESSION_ID)
    case None => None
    case Some(sid) =>
      var i := SESSION_ID + 1 + sid;
      match U16be(p, i)
      case None => None
      case Some(ciphers) =>
        var i := i + 2 + ciphers;
        match Get(p, i)
        case None => None
        case Some(comp) =>
          var i := i + 1 + comp;
          if U16be(p, i).None? then None else Some(i + 2)
  }

  /** The cut the code derives from an SNI extension at `i`. */
  function CutAt(p: seq<Byte>, i: nat): Option<nat>
    requires i + 4 <= |p|
  {
    if Get(p, i + 6) != Some(0) then None else
    match U16be(p, i + 7)
    case None => None
    case Some(len) =>
      if len < 2 || i + 9 + len > |p| then None else Some(i + 9 + len / 2)
  }

  /** The cursor walk over the extension list. */
  function Walk(p: seq<Byte>, i: nat): Option<nat>
    decreases |p| - i
  {
    if i + 4 > |p| then None
    else if U16be(p, i) == Some(EXT_SNI) then CutAt(p, i)
    else Walk(p, i + 4 + U16be(p, i + 2).value)
  }

  function SplitOffset(p: seq<Byte>): Option<nat> {
    match ExtensionsStart(p)
    case None => None
    case Some(i) => Walk(p, i)
  }

  /** The parser as it is written: one cursor, advanced until an SNI is met. */
  method SniSplitOffset(p: seq<Byte>) returns (r: Option<nat>)
    ensures r == SplitOffset(p)
  {
    hide ExtensionsStart;
    var start := SkipToExtensions(p);
    if start.None? { return None; }
    var i := start.value;
    while i + 4 <= |p|
      invariant Walk(p, i) == SplitOffset(p)
      decreases |p| - i
    {
      var etype := U16be(p, i).value;
      var elen := U16be(p, i + 2).value;
      var edata := i + 4;
      if etype == EXT_SNI {
        if edata + 2 >= |p| || p[edata + 2] != 0 { return None; }
        var nameLen := U16be(p, edata + 3);
        if nameLen.None? { return None; }
        var nameStart := edata + 5;
        if nameLen.value < 2 || nameStart + nameLen.value > |p| { return None; }
        return Some(nameStart + nameLen.value / 2);
      }
      i := edata + elen;
    }
    return None;
  }

  /** Its first half: past everything that precedes the extension list. */
  method SkipToExtensions(p: seq<Byte>) returns (r: Option<nat>)
    ensures r == ExtensionsStart(p)
  {
    hide Pair;
    if |p| == 0 || p[0] != HANDSHAKE_CLIENT_HELLO { return None; }
    var i: nat := 1 + 3 + 2 + 32;
    if i >= |p| { return None; }
    i := i + 1 + p[i];
    var cipherLen := U16be(p, i);
    if cipherLen.None? { return None; }
    i := i + 2 + cipherLen.value;
    if i >= |p| { return None; }
    i := i + 1 + p[i];
    if U16be(p, i).None? { return None; }
    return Some(i + 2);
  }

  // ------------------------------------- arbitrary bytes: what an offset means

  /** `j` is met from `i` by hopping over extensions that are not server_name. */
  ghost predicate Reaches(p: seq<Byte>, i: nat, j: nat)
    decreases |p| - i
  {
    i == j ||
    (i + 4 <= |p| && Pair(p[i], p[i + 1]) != EXT_SNI &&
     Reaches(p, i + 4 + Pair(p[i + 2], p[i + 3]), j))
  }

  /** A server_name extension header at `j` whose first entry is a host_name that fits in `p`. */
  ghost predicate HostNameAt(p: seq<Byte>, j: nat, start: nat, len: nat) {
    && start == j + 9 && 2 <= len && start + len <= |p|
    && p[j] == 0 && p[j + 1] == 0
    && p[j + 6] == 0 && Pair(p[j + 7], p[j + 8]) == len
  }

  /** A ClientHello whose session id, cipher suites and compression methods end before `i`. */
  ghost predicate ListStartsAt(p: seq<Byte>, i: nat) {
    38 < |p| && p[0] == 1 &&
    var a: nat := 39 + p[38] as int;
    a + 1 < |p| &&
    var b: nat := a + 2 + Pair(p[a], p[a + 1]);
    b < |p| &&
    var c: nat := b + 1 + p[b] as int;
    c + 1 < |p| && i == c + 2
  }

  ghost predicate FirstHostName(p: seq<Byte>, start: nat, len: nat) {
    && 9 <= start && HostNameAt(p, start - 9, start, len)
    && exists i :: ListStartsAt(p, i) && Reaches(p, i, start - 9)
  }

  lemma ListStartExactly(p: seq<Byte>)
    ensures forall i: nat :: ListStartsAt(p, i) <==> ExtensionsStart(p) == Some(i)
  {}

  lemma {:induction false} WalkFinds(p: seq<Byte>, i: nat, j: nat, len: nat)
    requires Reaches(p, i, j) && HostNameAt(p, j, j + 9, len)
    ensures Walk(p, i) == Some(j + 9 + len / 2)
    decreases |p| - i
  {
    if i != j {
      WalkFinds(p, i + 4 + Pair(p[i + 2], p[i + 3]), j, len);
    }
  }

  lemma {:induction false} WalkIsSound(p: seq<Byte>, i: nat) returns (j: nat, len: nat)
    requires Walk(p, i).Some?
    ensures Reaches(p, i, j) && HostNameAt(p, j, j + 9, len)
    ensures Walk(p, i) == Some(j + 9 + len / 2)
    decreases |p| - i
  {
    if U16be(p, i) == Some(EXT_SNI) {
      j, len := i, U16be(p, i + 7).value;
    } else {
      j, len := WalkIsSound(p, i + 4 + U16be(p, i + 2).value);
    }
  }

  /**
   On arbitrary bytes an offset is returned exactly when a host name is met first on
   the extension walk; it is the middle of that name, strictly inside it.
   */
  lemma SplitOffsetExact(p: seq<Byte>)
    ensures forall start: nat, len: nat :: FirstHostName(p, start, len) ==>
              SplitOffset(p) == Some(start + len / 2)
    ensures SplitOffset(p).Some? ==>
              exists start: nat, len: nat :: FirstHostName(p, start, len) &&
                start < SplitOffset(p).value < start + len <= |p|
  {
    hide ExtensionsStart, ListStartsAt, Walk, Reaches, HostNameAt;
    ListStartExactly(p);
    forall start: nat, len: nat | FirstHostName(p, start, len)
      ensures SplitOffset(p) == Some(start + len / 2)
    {
      WalkFinds(p, ExtensionsStart(p).value, start - 9, len);
    }
    if SplitOffset(p).Some? {
      var j, len := WalkIsSound(p, ExtensionsStart(p).value);
      assert FirstHostName(p, j + 9, len);
    }
  }

  // ------------------------------------------------------ ClientHello encoding

  datatype Extension = Extension(kind: nat, body: seq<Byte>)

  /** `moreNames` is whatever follows the first entry in the server_name_list. */
  datatype ClientHello = ClientHello(
    version: seq<Byte>, random: seq<Byte>, sessionId: seq<Byte>, ciphers: seq<Byte>, compression: seq<Byte>,
    before: seq<Extension>, host: seq<Byte>, moreNames: seq<Byte>, after: seq<Extension>)

  function U16(n: nat): (r: seq<Byte>)
    ensures |r| == 2
  {
    [(n / 256) % 256, n % 256]
  }

  /** A vector with a one-byte or two-byte length in front. */
  function Vec8(a: seq<Byte>): seq<Byte> {
    [|a| % 256] + a
  }

  function Vec16(a: seq<Byte>): seq<Byte> {
    U16(|a|) + a
  }

  function EncodeExtension(e: Extension): seq<Byte> {
    U16(e.kind) + Vec16(e.body)
  }

  function EncodeExtensions(es: seq<Extension>): seq<Byte> {
    if es == [] then [] else EncodeExtension(es[0]) + EncodeExtensions(es[1..])
  }

  predicate Encodable(e: Extension) {
    e.kind < 0x10000 && |e.body| < 0x10000
  }

  /** The kind of server_name is 0, and so is that of a host_name entry. */
  function Sni(h: ClientHello): Extension {
    Extension(0, Vec16([0] + (Vec16(h.host) + h.moreNames)))
  }

  function ExtensionBytes(h: ClientHello): seq<Byte> {
    EncodeExtensions(h.before) + (EncodeExtension(Sni(h)) + EncodeExtensions(h.after))
  }

  function SessionOnwards(h: ClientHello): seq<Byte> {
    Vec8(h.sessionId) + (Vec16(h.ciphers) + (Vec8(h.compression) + Vec16(ExtensionBytes(h))))
  }

  function Body(h: ClientHello): seq<Byte> {
    h.version + (h.random + SessionOnwards(h))
  }

  function U24(n: nat): seq<Byte> {
    [(n / 0x10000) % 256, (n / 0x100) % 256, n % 256]
  }

  function Handshake(h: ClientHello): seq<Byte> {
    [1] + (U24(|Body(h)|) + Body(h))
  }

  /** Every length fits the field that carries it, and `Sni(h)` is the first server_name. */
  predicate WellFormed(h: ClientHello) {
    && |h.version| == 2 && |h.random| == 32
    && |h.sessionId| < 0x100 && |h.ciphers| < 0x10000 && |h.compression| < 0x100
    && (forall e <- h.before :: Encodable(e) && e.kind != 0)
    && (forall e <- h.after :: Encodable(e))
    && 2 <= |h.host| && Encodable(Sni(h))
    && |ExtensionBytes(h)| < 0x10000
  }

  function ExtensionsAt(h: ClientHello): nat {
    SESSION_ID + 1 + |h.sessionId| + 2 + |h.ciphers| + 1 + |h.compression| + 2
  }

  /** Where the host name starts in the handshake message. */
  function HostStart(h: ClientHello): nat {
    ExtensionsAt(h) + |EncodeExtensions(h.before)| + 9
  }

  /** What follows the host name. */
  function Tail(h: ClientHello): seq<Byte> {
    h.moreNames + EncodeExtensions(h.after)
  }

  /** `s` is what is left of `p` at `i`. */
  ghost predicate At(p: seq<Byte>, i: nat, s: seq<Byte>) {
    i <= |p| && p[i..] == s
  }

  lemma Pass(p: seq<Byte>, i: nat, a: seq<Byte>, s: seq<Byte>)
    requires At(p, i, a + s)
    ensures At(p, i + |a|, s)
  {
    assert p[i + |a|..] == p[i..][|a|..];
  }

  lemma ReadU16(p: seq<Byte>, i: nat, n: nat, s: seq<Byte>)
    requires At(p, i, U16(n) + s) && n < 0x10000
    ensures U16be(p, i) == Some(n) && At(p, i + 2, s)
  {
    Pass(p, i, U16(n), s);
    assert p[i] == p[i..][0] && p[i + 1] == p[i..][1];
  }

  lemma ReadVec16(p: seq<Byte>, i: nat, a: seq<Byte>, s: seq<Byte>)
    requires At(p, i, Vec16(a) + s) && |a| < 0x10000
    ensures U16be(p, i) == Some(|a|) && At(p, i + 2, a + s) && At(p, i + 2 + |a|, s)
  {
    hide U16, U16be, At;
    assert Vec16(a) + s == U16(|a|) + (a + s);
    ReadU16(p, i, |a|, a + s);
    Pass(p, i + 2, a, s);
  }

  lemma ReadExtension(p: seq<Byte>, i: nat, e: Extension, s: seq<Byte>)
    requires At(p, i, EncodeExtension(e) + s) && Encodable(e)
    ensures U16be(p, i) == Some(e.kind) && U16be(p, i + 2) == Some(|e.body|)
    ensures At(p, i + 4, e.body + s) && At(p, i + 4 + |e.body|, s)
  {
    assert EncodeExtension(e) + s == U16(e.kind) + (Vec16(e.body) + s);
    ReadU16(p, i, e.kind, Vec16(e.body) + s);
    ReadVec16(p, i + 2, e.body, s);
  }

  lemma HopOver(p: seq<Byte>, i: nat, e: Extension, s: seq<Byte>)
    requires At(p, i, EncodeExtension(e) + s) && Encodable(e) && e.kind != EXT_SNI
    ensures Walk(p, i) == Walk(p, i + |EncodeExtension(e)|) && At(p, i + |EncodeExtension(e)|, s)
  {
    ReadExtension(p, i, e, s);
  }

  lemma {:induction false} WalkSkips(p: seq<Byte>, i: nat, es: seq<Extension>, s: seq<Byte>)
    requires At(p, i, EncodeExtensions(es) + s)
    requires forall e <- es :: Encodable(e) && e.kind != EXT_SNI
    ensures Walk(p, i) == Walk(p, i + |EncodeExtensions(es)|)
    ensures At(p, i + |EncodeExtensions(es)|, s)
    decreases |es|
  {
    hide At, Walk, Encodable, EncodeExtension;
    if es == [] {
      assert EncodeExtensions(es) + s == s;
    } else {
      var e, more := es[0], EncodeExtensions(es[1..]);
      assert EncodeExtensions(es) + s == EncodeExtension(e) + (more + s);
      HopOver(p, i, e, more + s);
      WalkSkips(p, i + |EncodeExtension(e)|, es[1..], s);
    }
  }

  lemma ReadServerName(p: seq<Byte>, i: nat, host: seq<Byte>, moreNames: seq<Byte>, s: seq<Byte>)
    requires |host| + |moreNames| < 0x10000 - 3
    requires At(p, i, Vec16([0] + (Vec16(host) + moreNames)) + s)
    ensures Get(p, i + 2) == Some(0) && U16be(p, i + 3) == Some(|host|)
    ensures At(p, i + 5, host + (moreNames + s)) && i + 5 + |host| <= |p|
  {}

  lemma SniIsRead(h: ClientHello, p: seq<Byte>, i: nat, after: seq<Byte>)
    requires 2 <= |h.host| && Encodable(Sni(h))
    requires At(p, i, EncodeExtension(Sni(h)) + after)
    ensures Walk(p, i) == Some(i + 9 + |h.host| / 2)
    ensures At(p, i + 9, h.host + (h.moreNames + after)) && i + 9 + |h.host| <= |p|
  {
    hide At, Walk, U16, U16be, Get, EncodeExtension;
    ReadExtension(p, i, Sni(h), after);
    assert |Sni(h).body| < 0x10000 by { assert Encodable(Sni(h)); }
    ReadServerName(p, i + 4, h.host, h.moreNames, after);
    CutAtReads(p, i, |h.host|);
  }

  lemma CutAtReads(p: seq<Byte>, i: nat, len: nat)
    requires U16be(p, i) == Some(EXT_SNI) && Get(p, i + 6) == Some(0) && U16be(p, i + 7) == Some(len)
    requires 2 <= len && i + 9 + len <= |p|
    ensures Walk(p, i) == Some(i + 9 + len / 2)
  {}

  lemma ReadFixedPart(p: seq<Byte>, i: nat, sid: seq<Byte>, ciphers: seq<Byte>, comp: seq<Byte>, exts: seq<Byte>)
    requires |sid| < 0x100 && |ciphers| < 0x10000 && |comp| < 0x100 && |exts| < 0x10000
    requires At(p, i, Vec8(sid) + (Vec16(ciphers) + (Vec8(comp) + Vec16(exts))))
    ensures var j := i + 1 + |sid|;
            var k := j + 2 + |ciphers|;
            var l := k + 1 + |comp|;
            && Get(p, i) == Some(|sid|)
            && U16be(p, j) == Some(|ciphers|)
            && Get(p, k) == Some(|comp|)
            && U16be(p, l) == Some(|exts|)
            && At(p, l + 2, exts)
  {
    hide At, Get, U16be, Vec8, Vec16;
    var j := i + 1 + |sid|;
    var k := j + 2 + |ciphers|;
    ReadVec8(p, i, sid, Vec16(ciphers) + (Vec8(comp) + Vec16(exts)));
    ReadVec16(p, j, ciphers, Vec8(comp) + Vec16(exts));
    ReadVec8(p, k, comp, Vec16(exts));
    assert Vec16(exts) == Vec16(exts) + [];
    assert exts + [] == exts;
    ReadVec16(p, k + 1 + |comp|, exts, []);
  }

  lemma ReadVec8(p: seq<Byte>, i: nat, a: seq<Byte>, s: seq<Byte>)
    requires At(p, i, Vec8(a) + s) && |a| < 0x100
    ensures Get(p, i) == Some(|a|) && At(p, i + 1 + |a|, s)
  {
    Pass(p, i, Vec8(a), s);
    assert p[i] == p[i..][0];
  }

  lemma ExtensionsStartReads(h: ClientHello)
    requires WellFormed(h)
    ensures ExtensionsStart(Handshake(h)) == Some(ExtensionsAt(h))
    ensures At(Handshake(h), ExtensionsAt(h), ExtensionBytes(h))
  {
    hide At, U16, Vec8, Vec16, U16be, Get, U24, ExtensionBytes;
    var p := Handshake(h);
    SkipToSession(p, |Body(h)|, h.version, h.random, SessionOnwards(h));
    ReadFixedPart(p, SESSION_ID, h.sessionId, h.ciphers, h.compression, ExtensionBytes(h));
  }

  lemma SkipToSession(p: seq<Byte>, n: nat, version: seq<Byte>, random: seq<Byte>, s: seq<Byte>)
    requires p == [HANDSHAKE_CLIENT_HELLO] + (U24(n) + (version + (random + s)))
    requires |version| == 2 && |random| == 32
    ensures Get(p, 0) == Some(HANDSHAKE_CLIENT_HELLO) && At(p, SESSION_ID, s)
  {}

  /**
   For every encoded ClientHello the parser returns exactly the start of the host name
   plus half its length, and the name is what stands there.
   */
  lemma SplitOffsetOfClientHello(h: ClientHello)
    requires WellFormed(h)
    ensures SplitOffset(Handshake(h)) == Some(HostStart(h) + |h.host| / 2)
    ensures At(Handshake(h), HostStart(h), h.host + Tail(h)) && HostStart(h) + |h.host| <= |Handshake(h)|
  {
    hide At, Walk, U16, ExtensionsStart, ExtensionsAt, Handshake, EncodeExtension, EncodeExtensions, Sni;
    var p := Handshake(h);
    ExtensionsStartReads(h);
    WalkSkips(p, ExtensionsAt(h), h.before, EncodeExtension(Sni(h)) + EncodeExtensions(h.after));
    SniIsRead(h, p, ExtensionsAt(h) + |EncodeExtensions(h.before)|, EncodeExtensions(h.after));
  }

  // -------------------------------------------------------------- the rewrite

  datatype Record = Record(kind: Byte, major: Byte, minor: Byte, fragment: seq<Byte>)

  function EncodeRecord(r: Record): seq<Byte> {
    [r.kind, r.major, r.minor] + (U16(|r.fragment|) + r.fragment)
  }

  /** Exactly one whole handshake record, and enough payload to cut. */
  predicate Reframed(data: seq<Byte>) {
    && TLS_HEADER + 2 <= |data| && data[0] == CONTENT_HANDSHAKE
    && TLS_HEADER + U16be(data, 3).value == |data|
  }

  /** Where a payload is cut: inside the host name, or at the midpoint when none is found. */
  function Cut(payload: seq<Byte>): (c: nat)
    requires 2 <= |payload|
    ensures 0 < c < |payload|
  {
    SplitOffsetExact(payload);
    match SplitOffset(payload)
    case Some(c) => c
    case None => |payload| / 2
  }

  function Fragment(data: seq<Byte>): seq<Byte> {
    if Reframed(data) then
      var payload := data[TLS_HEADER..];
      var cut := Cut(payload);
      EncodeRecord(Record(CONTENT_HANDSHAKE, data[1], data[2], payload[..cut])) +
      EncodeRecord(Record(CONTENT_HANDSHAKE, data[1], data[2], payload[cut..]))
    else data
  }

  /** `fragment_client_hello`, with its guards and its loop over the two parts. */
  method FragmentClientHello(data: seq<Byte>) returns (out: seq<Byte>)
    ensures out == Fragment(data)
  {
    hide EncodeRecord, EncodeParts, Walk, ExtensionsStart, FirstHostName;
    if |data| <= TLS_HEADER || data[0] != CONTENT_HANDSHAKE { return data; }
    var recLen := U16be(data, 3).value;
    if TLS_HEADER + recLen != |data| { return data; }
    var payload := data[TLS_HEADER..];
    var offset := SniSplitOffset(payload);
    var cut: nat;
    if offset.Some? && 0 < offset.value < |payload| {
      cut := offset.value;
    } else {
      if |payload| < 2 { return data; }
      cut := if |payload| / 2 > 1 then |payload| / 2 else 1;
    }
    SplitOffsetExact(payload);
    assert payload[..cut] + payload[cut..] == payload;
    out := EmitRecords(data[1], data[2], [payload[..cut], payload[cut..]]);
    EncodePartsOfTwo(data[1], data[2], payload[..cut], payload[cut..]);
  }

  method EmitRecords(major: Byte, minor: Byte, parts: seq<seq<Byte>>) returns (out: seq<Byte>)
    requires forall part <- parts :: |part| < 0x10000
    ensures out == EncodeParts(major, minor, parts)
  {
    hide U16;
    out := [];
    for k := 0 to |parts|
      invariant out == EncodeParts(major, minor, parts[..k])
    {
      var part := parts[k];
      EncodePartsSnoc(major, minor, parts[..k], part);
      assert parts[..k] + [part] == parts[..k + 1];
      assert |part| % 0x10000 == |part|;
      out := out + ([CONTENT_HANDSHAKE, major, minor] + (U16(|part| % 0x10000) + part));
    }
    assert parts[..|parts|] == parts;
  }

  lemma EncodePartsOfTwo(major: Byte, minor: Byte, a: seq<Byte>, b: seq<Byte>)
    ensures EncodeParts(major, minor, [a, b]) ==
            EncodeRecord(Record(CONTENT_HANDSHAKE, major, minor, a)) +
            EncodeRecord(Record(CONTENT_HANDSHAKE, major, minor, b))
  {
    assert [a, b][1..] == [b] && [b][1..] == [];
    assert EncodeParts(major, minor, [b]) == EncodeRecord(Record(CONTENT_HANDSHAKE, major, minor, b));
  }

  function EncodeParts(major: Byte, minor: Byte, parts: seq<seq<Byte>>): seq<Byte> {
    if parts == [] then [] else
    EncodeRecord(Record(CONTENT_HANDSHAKE, major, minor, parts[0])) + EncodeParts(major, minor, parts[1..])
  }

  lemma {:induction false} EncodePartsSnoc(major: Byte, minor: Byte, parts: seq<seq<Byte>>, part: seq<Byte>)
    ensures EncodeParts(major, minor, parts + [part]) ==
            EncodeParts(major, minor, parts) + EncodeRecord(Record(CONTENT_HANDSHAKE, major, minor, part))
  {
    if parts != [] {
      assert (parts + [part])[1..] == parts[1..] + [part];
      EncodePartsSnoc(major, minor, parts[1..], part);
    }
  }

  // ------------------------------------------------------- what a stream means

  /** One byte of content with the type and version of the record that carried it. */
  datatype TypedByte = TypedByte(kind: Byte, major: Byte, minor: Byte, byte: Byte)

  /** The typed content of the whole records of a stream, and the incomplete record at its end. */
  datatype Flow = Flow(typed: seq<TypedByte>, rest: seq<Byte>)

  function Tag(r: Record): seq<TypedByte> {
    seq(|r.fragment|, i requires 0 <= i < |r.fragment| => TypedByte(r.kind, r.major, r.minor, r.fragment[i]))
  }

  function Content(s: seq<Byte>): Flow {
    if |s| < TLS_HEADER || TLS_HEADER + U16be(s, 3).value > |s| then Flow([], s) else
    var n := TLS_HEADER + U16be(s, 3).value;
    var more := Content(s[n..]);
    Flow(Tag(Record(s[0], s[1], s[2], s[TLS_HEADER..n])) + more.typed, more.rest)
  }

  /** Decoding undoes encoding, record by record. */
  lemma ContentOfRecord(r: Record, s: seq<Byte>)
    requires |r.fragment| < 0x10000
    ensures Content(EncodeRecord(r) + s) == Flow(Tag(r) + Content(s).typed, Content(s).rest)
  {
    var all := EncodeRecord(r) + s;
    var n := TLS_HEADER + |r.fragment|;
    HeaderReads(r, s);
    assert all[n..] == s;
    assert all[TLS_HEADER..n] == r.fragment;
  }

  lemma HeaderReads(r: Record, s: seq<Byte>)
    requires |r.fragment| < 0x10000
    ensures U16be(EncodeRecord(r) + s, 3) == Some(|r.fragment|)
    ensures At(EncodeRecord(r) + s, TLS_HEADER, r.fragment + s)
  {}

  lemma ReframedIsRecord(data: seq<Byte>)
    requires Reframed(data)
    ensures data == EncodeRecord(Record(CONTENT_HANDSHAKE, data[1], data[2], data[TLS_HEADER..]))
    ensures |data[TLS_HEADER..]| < 0x10000
  {}

  /** In bytes: type 22, two length bytes that account for all the rest, and two bytes of payload or more. */
  lemma ReframedExactly(data: seq<Byte>)
    ensures Reframed(data) <==>
              |data| >= 7 && data[0] == 0x16 && (data[3] as int) * 256 + data[4] as int == |data| - 5
  {}

  /** `out` is the payload of `data` cut after `cut` bytes, as two records in the layout of RFC 8446. */
  ghost predicate CutInTwo(data: seq<Byte>, cut: nat, out: seq<Byte>) {
    && 5 < 5 + cut < |data|
    && var a, b := data[5..5 + cut], data[5 + cut..];
       && |a| < 0x10000 && |b| < 0x10000
       && out == [0x16, data[1], data[2], |a| / 256, |a| % 256] + a +
                 ([0x16, data[1], data[2], |b| / 256, |b| % 256] + b)
  }

  /**
   The shape of a reframed flight: two non-empty records with lengths that fit, five bytes more; the
   payload is cut in the middle of the host name that the walk meets first, or in its own middle
   when there is none.
   */
  lemma FragmentShape(data: seq<Byte>)
    ensures Reframed(data) ==>
              && |Fragment(data)| == |data| + TLS_HEADER
              && exists cut: nat :: CutInTwo(data, cut, Fragment(data)) &&
                   (forall start: nat, len: nat :: FirstHostName(data[5..], start, len) ==> cut == start + len / 2) &&
                   ((forall start: nat, len: nat :: !FirstHostName(data[5..], start, len)) ==> cut == (|data| - 5) / 2)
    ensures Fragment(data) != data <==> Reframed(data)
    ensures |Fragment(data)| != |data| <==> Reframed(data)
  {
    hide FirstHostName, SplitOffset;
    if Reframed(data) {
      ReframedIsRecord(data);
      var payload := data[TLS_HEADER..];
      SplitOffsetExact(payload);
      var cut := Cut(payload);
      var a, b := payload[..cut], payload[cut..];
      assert a == data[5..5 + cut] && b == data[5 + cut..];
      RecordBytes(data[1], data[2], a);
      RecordBytes(data[1], data[2], b);
      assert CutInTwo(data, cut, Fragment(data));
    }
  }

  lemma RecordBytes(major: Byte, minor: Byte, a: seq<Byte>)
    requires |a| < 0x10000
    ensures EncodeRecord(Record(CONTENT_HANDSHAKE, major, minor, a)) == [0x16, major, minor, |a| / 256, |a| % 256] + a
  {}

  /** Reframing a reframed flight changes nothing. */
  lemma FragmentIdempotent(data: seq<Byte>)
    ensures Fragment(Fragment(data)) == Fragment(data)
  {
    if Reframed(data) {
      ReframedIsRecord(data);
      var payload := data[TLS_HEADER..];
      var cut := Cut(payload);
      HeaderReads(Record(CONTENT_HANDSHAKE, data[1], data[2], payload[..cut]),
                  EncodeRecord(Record(CONTENT_HANDSHAKE, data[1], data[2], payload[cut..])));
      FragmentShape(data);
    }
  }

  /** What the proxy sends for a client stream whose first read returned `n` bytes. */
  function Upstream(stream: seq<Byte>, n: nat): seq<Byte>
    requires n <= |stream|
  {
    Fragment(stream[..n]) + stream[n..]
  }

  /**
   For every stream and every first-read length the typed record content is unchanged,
   and so is the unfinished record at the end.
   */
  lemma SplicePreservesContent(stream: seq<Byte>, n: nat)
    requires n <= |stream|
    ensures Content(Upstream(stream, n)) == Content(stream)
  {
    hide Content, EncodeRecord, Cut;
    var data, rest := stream[..n], stream[n..];
    assert stream == data + rest;
    if Reframed(data) {
      ReframedIsRecord(data);
      var payload := data[TLS_HEADER..];
      SplitRecordSameContent(Record(CONTENT_HANDSHAKE, data[1], data[2], payload), Cut(payload), rest);
    }
  }

  /** Cutting any record in two is invisible in the typed content. */
  lemma SplitRecordSameContent(r: Record, cut: nat, rest: seq<Byte>)
    requires cut <= |r.fragment| < 0x10000
    ensures Content(EncodeRecord(r.(fragment := r.fragment[..cut])) +
                    EncodeRecord(r.(fragment := r.fragment[cut..])) + rest) == Content(EncodeRecord(r) + rest)
  {
    var r1, r2 := r.(fragment := r.fragment[..cut]), r.(fragment := r.fragment[cut..]);
    var e1, e2 := EncodeRecord(r1), EncodeRecord(r2);
    assert e1 + e2 + rest == e1 + (e2 + rest);
    ContentOfRecord(r, rest);
    ContentOfRecord(r2, rest);
    ContentOfRecord(r1, e2 + rest);
    TagSplit(r, cut, Content(rest).typed);
  }

  lemma TagSplit(r: Record, cut: nat, s: seq<TypedByte>)
    requires cut <= |r.fragment|
    ensures Tag(r.(fragment := r.fragment[..cut])) + (Tag(r.(fragment := r.fragment[cut..])) + s) == Tag(r) + s
  {}

  /** The record that carries a ClientHello. */
  function HelloRecord(h: ClientHello, major: Byte, minor: Byte): seq<Byte> {
    EncodeRecord(Record(0x16, major, minor, Handshake(h)))
  }

  /** Two records instead: the first ends with one half of the host name, the second begins with the other. */
  function SeveredRecords(h: ClientHello, major: Byte, minor: Byte): seq<Byte>
    requires HostStart(h) <= |Handshake(h)|
  {
    EncodeRecord(Record(0x16, major, minor, Handshake(h)[..HostStart(h)] + h.host[..|h.host| / 2])) +
    EncodeRecord(Record(0x16, major, minor, h.host[|h.host| / 2..] + Tail(h)))
  }

  /** The host name of every encoded ClientHello is severed, neither half empty. */
  lemma HostNameIsSevered(h: ClientHello, major: Byte, minor: Byte)
    requires WellFormed(h) && |Handshake(h)| < 0x10000
    ensures 0 < |h.host| / 2 < |h.host| && HostStart(h) + |h.host| <= |Handshake(h)|
    ensures Fragment(HelloRecord(h, major, minor)) == SeveredRecords(h, major, minor)
  {
    hide At, Handshake, SplitOffset, U16, HostStart, Tail, EncodeRecord, Sni, ExtensionBytes, Encodable;
    var p := Handshake(h);
    var record := Record(CONTENT_HANDSHAKE, major, minor, p);
    SplitOffsetOfClientHello(h);
    RecordIsReframed(record);
    SplitInside(p, HostStart(h), h.host, Tail(h), |h.host| / 2);
  }

  lemma RecordIsReframed(r: Record)
    requires r.kind == CONTENT_HANDSHAKE && 2 <= |r.fragment| < 0x10000
    ensures Reframed(EncodeRecord(r)) && EncodeRecord(r)[TLS_HEADER..] == r.fragment
    ensures EncodeRecord(r)[1] == r.major && EncodeRecord(r)[2] == r.minor
  {
    assert EncodeRecord(r) + [] == EncodeRecord(r) && r.fragment + [] == r.fragment;
    HeaderReads(r, []);
  }

  lemma SplitInside(p: seq<Byte>, i: nat, name: seq<Byte>, tail: seq<Byte>, half: nat)
    requires At(p, i, name + tail) && half <= |name|
    ensures p[..i + half] == p[..i] + name[..half]
    ensures p[i + half..] == name[half..] + tail
  {}

  // ------------------------------------------------------------------- splice

  /** The first read is one whole record with a well-formed ClientHello in it. */
  ghost predicate IsHello(data: seq<Byte>, h: ClientHello, major: Byte, minor: Byte) {
    WellFormed(h) && |Handshake(h)| < 0x10000 && data == HelloRecord(h, major, minor)
  }

  /**
   What goes to the server, in bytes: for every ClientHello that is the first read, the severed
   records and then the rest; for every reframed flight, its two records; else the stream as it is.
   */
  lemma SentExactly(stream: seq<Byte>, n: nat)
    requires n <= |stream|
    ensures forall h: ClientHello, major: Byte, minor: Byte :: IsHello(stream[..n], h, major, minor) ==>
              HostStart(h) <= |Handshake(h)| &&
              Upstream(stream, n) == SeveredRecords(h, major, minor) + stream[n..]
    ensures Reframed(stream[..n]) ==>
              exists cut: nat, framed ::
                CutInTwo(stream[..n], cut, framed) && Upstream(stream, n) == framed + stream[n..]
    ensures !Reframed(stream[..n]) ==> Upstream(stream, n) == stream
    ensures |Upstream(stream, n)| == |stream| + if Reframed(stream[..n]) then 5 else 0
  {
    hide Reframed, FirstHostName, SeveredRecords, HelloRecord, WellFormed, CutInTwo, Handshake, HostStart;
    var data := stream[..n];
    assert stream == data + stream[n..];
    FragmentShape(data);
    forall h: ClientHello, major: Byte, minor: Byte | IsHello(data, h, major, minor)
      ensures HostStart(h) <= |Handshake(h)| && Upstream(stream, n) == SeveredRecords(h, major, minor) + stream[n..]
    {
      HostNameIsSevered(h, major, minor);
    }
    if Reframed(data) {
      var cut: nat :| CutInTwo(data, cut, Fragment(data));
    }
  }

  lemma Appended(a: seq<Byte>, b: seq<Byte>, c: seq<Byte>)
    ensures a + b + c == a + (b + c) && (a + b + c)[|a|..] == b + c
  {}

  lemma NothingSent()
    ensures Upstream([], 0) == [] && !Reframed([])
  {}

  /** The proxy's counter and what it has written to the server so far. */
  class Connection {
    var sent: seq<Byte>
    var fragmented: nat

    constructor ()
      ensures sent == [] && fragmented == 0
    {
      sent, fragmented := [], 0;
    }

    /**
     The client-to-server half of `splice`. `n` is what the first read returned: zero only at
     the end of the stream, and never more than the buffer holds.
     */
    method Splice(stream: seq<Byte>, n: nat)
      requires n <= |stream| && n <= FIRST_READ
      requires n == 0 ==> stream == []
      modifies this
      ensures sent == old(sent) + Upstream(stream, n)
      ensures forall h: ClientHello, major: Byte, minor: Byte :: IsHello(stream[..n], h, major, minor) ==>
                HostStart(h) <= |Handshake(h)| &&
                sent == old(sent) + (SeveredRecords(h, major, minor) + stream[n..])
      ensures Reframed(stream[..n]) ==>
                exists cut: nat, framed ::
                  CutInTwo(stream[..n], cut, framed) && sent == old(sent) + (framed + stream[n..])
      ensures !Reframed(stream[..n]) ==> sent == old(sent) + stream
      ensures |sent| == |old(sent)| + |stream| + if Reframed(stream[..n]) then 5 else 0
      ensures Content(sent[|old(sent)|..]) == Content(stream)
      ensures fragmented == old(fragmented) + (if Reframed(stream[..n]) then 1 else 0)
    {
      hide Content, Fragment, Reframed, CutInTwo, IsHello, SeveredRecords, Handshake, HostStart;
      NothingSent();
      SentExactly(stream, n);
      if n == 0 {
        assert sent[|old(sent)|..] == [] && old(sent) + [] == sent;
        return;
      }
      var framed := FragmentClientHello(stream[..n]);
      FragmentShape(stream[..n]);
      if |framed| != n {
        fragmented := fragmented + 1;
      }
      sent := sent + framed;
      sent := sent + stream[n..];
      SplicePreservesContent(stream, n);
      Appended(old(sent), framed, stream[n..]);
    }
  }
}
