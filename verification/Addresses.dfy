/**
 Addresses, prefixes, the destinations that bypass the tunnel
 (crates/dns-helper/src/tunnel.rs) and the local-destination test of
 crates/dns-helper/src/apps.rs.
 */
module Addresses {
  /** Octets or 16-bit segments, in network order. */
  datatype Ip = V4(octets: seq<bv8>) | V6(segments: seq<bv16>)

  datatype Prefix = Prefix(net: Ip, len: nat)

  predicate IsAddress(ip: Ip) {
    match ip
    case V4(o) => |o| == 4
    case V6(s) => |s| == 8
  }

  /** The first `n` bits of two units agree. */
  predicate Agree8(a: bv8, b: bv8, n: nat)
    requires n <= 8
  {
    (a ^ b) >> (8 - n) == 0
  }

  predicate Agree16(a: bv16, b: bv16, n: nat)
    requires n <= 16
  {
    (a ^ b) >> (16 - n) == 0
  }

  /** How many bits of unit `i` a prefix of `len` bits covers. */
  function Span(len: nat, unit: nat, i: nat): (r: nat)
    ensures r <= unit
  {
    if len >= unit * (i + 1) then unit else if len <= unit * i then 0 else len - unit * i
  }

  predicate InPrefix(ip: Ip, p: Prefix) {
    match (ip, p.net)
    case (V4(a), V4(b)) => |a| == |b| && forall i :: 0 <= i < |a| ==> Agree8(a[i], b[i], Span(p.len, 8, i))
    case (V6(a), V6(b)) => |a| == |b| && forall i :: 0 <= i < |a| ==> Agree16(a[i], b[i], Span(p.len, 16, i))
    case _ => false
  }

  const BYPASS_V4: seq<Prefix> := [
    Prefix(V4([127, 0, 0, 0]), 8),
    Prefix(V4([10, 0, 0, 0]), 8),
    Prefix(V4([172, 16, 0, 0]), 12),
    Prefix(V4([192, 168, 0, 0]), 16),
    Prefix(V4([169, 254, 0, 0]), 16),
    Prefix(V4([100, 64, 0, 0]), 10)
  ]

  const BYPASS_V6: seq<Prefix> := [
    Prefix(V6([0, 0, 0, 0, 0, 0, 0, 1]), 128),
    Prefix(V6([0xfc00, 0, 0, 0, 0, 0, 0, 0]), 7),
    Prefix(V6([0xfe80, 0, 0, 0, 0, 0, 0, 0]), 10)
  ]

  predicate InAny(ip: Ip, ps: seq<Prefix>) {
    exists p :: p in ps && InPrefix(ip, p)
  }

  /** A destination the tunnel never carries. */
  predicate Bypassed(ip: Ip) {
    InAny(ip, BYPASS_V4) || InAny(ip, BYPASS_V6)
  }

  /** `is_local_destination`: octet comparisons for IPv4, bit masks for IPv6. */
  predicate IsLocalDestination(ip: Ip)
    requires IsAddress(ip)
  {
    match ip
    case V4(o) =>
      || o[0] == 127
      || (o[0] == 10 || (o[0] == 172 && 16 <= o[1] <= 31) || (o[0] == 192 && o[1] == 168))
      || (o[0] == 169 && o[1] == 254)
      || o == [0, 0, 0, 0]
      || (o[0] == 100 && 64 <= o[1] < 128)
    case V6(s) =>
      || s == [0, 0, 0, 0, 0, 0, 0, 1]
      || s == [0, 0, 0, 0, 0, 0, 0, 0]
      || s[0] & 0xfe00 == 0xfc00
      || s[0] & 0xffc0 == 0xfe80
  }

  predicate Unspecified(ip: Ip) {
    ip == V4([0, 0, 0, 0]) || ip == V6([0, 0, 0, 0, 0, 0, 0, 0])
  }

  /** A prefix of at most 16 bits looks at two octets. */
  lemma ShortPrefix(o: seq<bv8>, b0: bv8, b1: bv8, len: nat)
    requires |o| == 4 && 8 <= len <= 16
    ensures InPrefix(V4(o), Prefix(V4([b0, b1, 0, 0]), len)) <==> o[0] == b0 && Agree8(o[1], b1, len - 8)
  {
    hide Agree8, Span;
    var b := [b0, b1, 0, 0];
    WholeOctet(o[0], b0);
    NoBits(o[2], 0);
    NoBits(o[3], 0);
    SpanOfOctets(len);
    assert b[0] == b0 && b[1] == b1 && b[2] == 0 && b[3] == 0;
  }

  lemma SpanOfOctets(len: nat)
    requires 8 <= len <= 16
    ensures Span(len, 8, 0) == 8 && Span(len, 8, 1) == len - 8 && Span(len, 8, 2) == 0 && Span(len, 8, 3) == 0
  {}

  lemma WholeOctet(a: bv8, b: bv8)
    ensures Agree8(a, b, 8) <==> a == b
  {}

  lemma NoBits(a: bv8, b: bv8)
    ensures Agree8(a, b, 0)
  {}

  lemma BypassV4(o: seq<bv8>)
    requires |o| == 4
    ensures InAny(V4(o), BYPASS_V4) <==>
              || o[0] == 127 || o[0] == 10 || (o[0] == 172 && 16 <= o[1] <= 31) || (o[0] == 192 && o[1] == 168)
              || (o[0] == 169 && o[1] == 254) || (o[0] == 100 && 64 <= o[1] < 128)
  {
    hide InPrefix;
    var ps := BYPASS_V4;
    ShortPrefix(o, 127, 0, 8);
    ShortPrefix(o, 10, 0, 8);
    ShortPrefix(o, 172, 16, 12);
    ShortPrefix(o, 192, 168, 16);
    ShortPrefix(o, 169, 254, 16);
    ShortPrefix(o, 100, 64, 10);
    SecondOctet(o[1]);
    assert forall i :: 0 <= i < 6 ==> ps[i] in ps;
    assert InAny(V4(o), ps) <==>
             InPrefix(V4(o), ps[0]) || InPrefix(V4(o), ps[1]) || InPrefix(V4(o), ps[2]) ||
             InPrefix(V4(o), ps[3]) || InPrefix(V4(o), ps[4]) || InPrefix(V4(o), ps[5]);
  }

  lemma SecondOctet(x: bv8)
    ensures Agree8(x, 0, 0)
    ensures Agree8(x, 16, 4) <==> 16 <= x <= 31
    ensures Agree8(x, 168, 8) <==> x == 168
    ensures Agree8(x, 254, 8) <==> x == 254
    ensures Agree8(x, 64, 2) <==> 64 <= x < 128
  {}

  lemma FirstSegment(s: seq<bv16>, b0: bv16, len: nat)
    requires |s| == 8 && len <= 16
    ensures InPrefix(V6(s), Prefix(V6([b0, 0, 0, 0, 0, 0, 0, 0]), len)) <==> Agree16(s[0], b0, len)
  {
    var b := [b0, 0, 0, 0, 0, 0, 0, 0];
    assert Span(len, 16, 0) == len;
    forall i | 1 <= i < 8 ensures Agree16(s[i], b[i], Span(len, 16, i)) {
      assert Agree16(s[i], b[i], 0);
      assert Span(len, 16, i) == 0;
    }
  }

  lemma WholeAddress(s: seq<bv16>, b: seq<bv16>)
    requires |s| == 8 == |b|
    ensures InPrefix(V6(s), Prefix(V6(b), 128)) <==> s == b
  {}

  lemma Masks(x: bv16)
    ensures Agree16(x, 0xfc00, 7) <==> x & 0xfe00 == 0xfc00
    ensures Agree16(x, 0xfe80, 10) <==> x & 0xffc0 == 0xfe80
  {}

  lemma BypassV6(s: seq<bv16>)
    requires |s| == 8
    ensures InAny(V6(s), BYPASS_V6) <==>
              s == [0, 0, 0, 0, 0, 0, 0, 1] || s[0] & 0xfe00 == 0xfc00 || s[0] & 0xffc0 == 0xfe80
  {
    hide InPrefix;
    var ps := BYPASS_V6;
    WholeAddress(s, [0, 0, 0, 0, 0, 0, 0, 1]);
    FirstSegment(s, 0xfc00, 7);
    FirstSegment(s, 0xfe80, 10);
    Masks(s[0]);
    assert forall i :: 0 <= i < 3 ==> ps[i] in ps;
    assert InAny(V6(s), ps) <==> InPrefix(V6(s), ps[0]) || InPrefix(V6(s), ps[1]) || InPrefix(V6(s), ps[2]);
  }

  lemma FamiliesAreSeparate(ip: Ip)
    ensures ip.V4? ==> !InAny(ip, BYPASS_V6)
    ensures ip.V6? ==> !InAny(ip, BYPASS_V4)
  {}

  /**
   The octet and mask tests agree with the bypass prefixes on every address, apart from the two
   unspecified addresses, which only the tests accept.
   */
  lemma LocalIsBypassed(ip: Ip)
    requires IsAddress(ip)
    ensures IsLocalDestination(ip) <==> Bypassed(ip) || Unspecified(ip)
    ensures Unspecified(ip) ==> !Bypassed(ip)
  {
    hide InAny;
    FamiliesAreSeparate(ip);
    match ip
    case V4(o) => BypassV4(o);
    case V6(s) => BypassV6(s);
  }
}
