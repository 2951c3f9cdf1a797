/** The string operations of the Rust standard library that the other modules rely on. */
module Strings {
  import opened Wrappers

  // ------------------------------------------------------------------------ characters

  function LowerChar(c: char): char {
    if 'A' <= c <= 'Z' then c - 'A' + 'a' else c
  }

  /** `to_ascii_lowercase`. */
  function Lower(s: string): (r: string)
    ensures |r| == |s|
    ensures forall i :: 0 <= i < |s| ==> r[i] == LowerChar(s[i])
  {
    seq(|s|, i requires 0 <= i < |s| => LowerChar(s[i]))
  }

  /** The same letter in either case, or the same character: ASCII capitals are 32 places below. */
  predicate SameLetter(a: char, b: char) {
    || a == b
    || ('A' <= a <= 'Z' && b as int == a as int + 32)
    || ('A' <= b <= 'Z' && a as int == b as int + 32)
  }

  predicate SameSpelling(a: string, b: string) {
    |a| == |b| && forall i :: 0 <= i < |a| ==> SameLetter(a[i], b[i])
  }

  lemma LowIsFixed(r: string)
    requires forall c <- r :: !('A' <= c <= 'Z')
    ensures Lower(r) == r
  {
    forall i | 0 <= i < |r| ensures LowerChar(r[i]) == r[i] { assert r[i] in r; }
  }

  lemma LowerFoldsCase(a: string, b: string)
    ensures Lower(a) == Lower(b) <==> SameSpelling(a, b)
    ensures SameSpelling(Lower(a), a) && forall c <- Lower(a) :: !('A' <= c <= 'Z')
  {
    if Lower(a) == Lower(b) {
      forall i | 0 <= i < |a| ensures SameLetter(a[i], b[i]) { assert Lower(a)[i] == Lower(b)[i]; }
    }
  }

  /** The Unicode White_Space property. */
  predicate IsSpace(c: char) {
    || '\t' <= c <= '\r' || c == ' ' || c == '\U{85}' || c == '\U{A0}' || c == '\U{1680}'
    || '\U{2000}' <= c <= '\U{200A}' || c == '\U{2028}' || c == '\U{2029}' || c == '\U{202F}'
    || c == '\U{205F}' || c == '\U{3000}'
  }

  predicate StartsWith(s: string, p: string) {
    |p| <= |s| && s[..|p|] == p
  }

  predicate EndsWith(s: string, p: string) {
    |p| <= |s| && s[|s| - |p|..] == p
  }

  // -------------------------------------------------------------------------- trimming

  function TrimStart(s: string): (r: string)
    ensures r != [] ==> !IsSpace(r[0])
    ensures forall c <- r :: c in s
    ensures s == "" || !IsSpace(s[0]) ==> r == s
  {
    if s != [] && IsSpace(s[0]) then TrimStart(s[1..]) else s
  }

  function TrimEnd(s: string): (r: string)
    ensures r != [] ==> !IsSpace(r[|r| - 1])
    ensures |r| <= |s| && r == s[..|r|]
    ensures s == "" || !IsSpace(s[|s| - 1]) ==> r == s
  {
    if s != [] && IsSpace(s[|s| - 1]) then TrimEnd(s[..|s| - 1]) else s
  }

  /** Neither end is a space. */
  predicate Trimmed(s: string) {
    s == [] || (!IsSpace(s[0]) && !IsSpace(s[|s| - 1]))
  }

  function Trim(s: string): (r: string)
    ensures Trimmed(r) && forall c <- r :: c in s
    ensures Trimmed(s) ==> r == s
  {
    TrimEnd(TrimStart(s))
  }

  lemma BlankIsSpace()
    ensures IsSpace(' ')
  {}

  lemma TrimStartBlank(s: string)
    requires Trimmed(s)
    ensures Trim(" " + s) == s
  {
    hide IsSpace;
    BlankIsSpace();
    assert (" " + s)[1..] == s;
  }

  lemma TrimEndBlank(s: string)
    requires Trimmed(s) && s != ""
    ensures Trim(s + " ") == s
  {
    hide IsSpace;
    BlankIsSpace();
    assert (s + " ")[0] == s[0] && (s + " ")[..|s|] == s;
    assert TrimStart(s + " ") == s + " ";
    assert TrimEnd(s + " ") == TrimEnd(s);
  }

  predicate AllSpace(s: string) {
    forall i :: 0 <= i < |s| ==> IsSpace(s[i])
  }

  lemma {:induction false} TrimStartParts(a: string, s: string)
    requires AllSpace(a) && (s == "" || !IsSpace(s[0]))
    ensures TrimStart(a + s) == s
    decreases |a|
  {
    hide IsSpace;
    if a == "" {
      assert a + s == s;
    } else {
      assert (a + s)[0] == a[0] && (a + s)[1..] == a[1..] + s;
      TrimStartParts(a[1..], s);
    }
  }

  lemma {:induction false} TrimEndParts(s: string, b: string)
    requires AllSpace(b) && (s == "" || !IsSpace(s[|s| - 1]))
    ensures TrimEnd(s + b) == s
    decreases |b|
  {
    hide IsSpace;
    if b == "" {
      assert s + b == s;
    } else {
      var n := |s + b| - 1;
      assert (s + b)[n] == b[|b| - 1] && (s + b)[..n] == s + b[..|b| - 1];
      TrimEndParts(s, b[..|b| - 1]);
    }
  }

  lemma TrimParts(a: string, t: string, b: string)
    requires AllSpace(a) && AllSpace(b) && Trimmed(t)
    ensures Trim(a + t + b) == t
  {
    hide IsSpace, TrimStart, TrimEnd;
    if t == "" {
      assert a + t + b == (a + b) + "";
      TrimStartParts(a + b, "");
      TrimEndParts("", "");
      assert "" + "" == "";
    } else {
      assert a + t + b == a + (t + b) && (t + b)[0] == t[0];
      TrimStartParts(a, t + b);
      TrimEndParts(t, b);
    }
  }

  lemma {:induction false} TrimStartCut(s: string) returns (a: string)
    ensures s == a + TrimStart(s) && AllSpace(a)
    decreases |s|
  {
    if s != "" && IsSpace(s[0]) {
      a := TrimStartCut(s[1..]);
      a := [s[0]] + a;
    } else {
      a := "";
    }
  }

  lemma {:induction false} TrimEndCut(s: string) returns (b: string)
    ensures s == TrimEnd(s) + b && AllSpace(b)
    decreases |s|
  {
    if s != "" && IsSpace(s[|s| - 1]) {
      b := TrimEndCut(s[..|s| - 1]);
      b := b + [s[|s| - 1]];
    } else {
      b := "";
    }
  }

  /** `t` is what is left of `s` when the spaces at both ends are taken off. */
  ghost predicate IsTrimOf(t: string, s: string) {
    exists a, b :: IsTrimBetween(t, s, a, b)
  }

  predicate IsTrimBetween(t: string, s: string, a: string, b: string) {
    Trimmed(t) && AllSpace(a) && AllSpace(b) && s == a + t + b
  }

  lemma TrimIsTrim(s: string)
    ensures IsTrimOf(Trim(s), s)
  {
    hide AllSpace, Trimmed, IsTrimBetween, TrimStart, TrimEnd;
    var a := TrimStartCut(s);
    var b := TrimEndCut(TrimStart(s));
    assert s == a + Trim(s) + b;
    assert IsTrimBetween(Trim(s), s, a, b) by { BetweenHolds(Trim(s), s, a, b); }
  }

  lemma BetweenHolds(t: string, s: string, a: string, b: string)
    requires Trimmed(t) && AllSpace(a) && AllSpace(b) && s == a + t + b
    ensures IsTrimBetween(t, s, a, b)
  {}

  lemma TrimExactly(s: string, t: string)
    ensures Trim(s) == t <==> IsTrimOf(t, s)
  {
    hide AllSpace, Trimmed, Trim;
    TrimIsTrim(s);
    if IsTrimOf(t, s) {
      var a, b :| IsTrimBetween(t, s, a, b);
      TrimParts(a, t, b);
    }
  }

  // ------------------------------------------------------------------------- splitting

  /** The first place of `c`, or the length. */
  function IndexOf(s: string, c: char): (i: nat)
    ensures i <= |s| && (i < |s| ==> s[i] == c)
    ensures forall j :: 0 <= j < i ==> s[j] != c
  {
    if s == [] || s[0] == c then 0 else 1 + IndexOf(s[1..], c)
  }

  lemma {:induction false} IndexOfIs(s: string, c: char, i: nat)
    requires i <= |s| && (i < |s| ==> s[i] == c) && forall j :: 0 <= j < i ==> s[j] != c
    ensures IndexOf(s, c) == i
  {}

  function Split(s: string, c: char): (r: seq<string>)
    ensures r != []
    decreases |s|
  {
    var i := IndexOf(s, c);
    if i == |s| then [s] else [s[..i]] + Split(s[i + 1..], c)
  }

  function Join(parts: seq<string>, c: char): string {
    if parts == [] then "" else if |parts| == 1 then parts[0] else parts[0] + [c] + Join(parts[1..], c)
  }

  /** Splitting a concatenation around a separator splits both sides. */
  lemma {:induction false} SplitConcat(a: string, b: string, c: char)
    ensures Split(a + [c] + b, c) == Split(a, c) + Split(b, c)
    decreases |a|
  {
    hide IndexOf;
    var s := a + [c] + b;
    var i := IndexOf(a, c);
    Around(a, c, b, i);
    IndexOfIs(s, c, i);
    if i == |a| {
      assert a[..i] == a;
    } else {
      SplitConcat(a[i + 1..], b, c);
      assert [a[..i]] + (Split(a[i + 1..], c) + Split(b, c)) == ([a[..i]] + Split(a[i + 1..], c)) + Split(b, c);
    }
  }

  /** The pieces of a concatenation around a separator, cut at the separator or inside the front. */
  lemma Around(a: string, c: char, b: string, i: nat)
    requires i <= |a|
    ensures var s := a + [c] + b;
            && s[|a|] == c && s[..i] == a[..i]
            && (forall j :: 0 <= j < |a| ==> s[j] == a[j])
            && s[i + 1..] == if i == |a| then b else a[i + 1..] + [c] + b
  {}

  /** Joining undoes splitting. */
  lemma {:induction false} JoinSplit(s: string, c: char)
    ensures Join(Split(s, c), c) == s
    decreases |s|
  {
    hide IndexOf;
    var i := IndexOf(s, c);
    if i < |s| {
      JoinSplit(s[i + 1..], c);
      JoinCons(s[..i], Split(s[i + 1..], c), c);
      assert s == s[..i] + [c] + s[i + 1..];
    }
  }

  lemma JoinCons(first: string, rest: seq<string>, c: char)
    requires rest != []
    ensures Join([first] + rest, c) == first + [c] + Join(rest, c)
  {
    assert ([first] + rest)[1..] == rest;
  }

  lemma {:induction false} JoinConcat(a: seq<string>, b: seq<string>, c: char)
    requires a != [] && b != []
    ensures Join(a + b, c) == Join(a, c) + [c] + Join(b, c)
  {
    if |a| == 1 {
      assert (a + b)[1..] == b;
    } else {
      assert (a + b)[1..] == a[1..] + b;
      JoinConcat(a[1..], b, c);
    }
  }

  lemma SplitSingle(s: string, c: char)
    requires c !in s
    ensures Split(s, c) == [s]
  {}

  // ----------------------------------------------------------------------------- lines

  /** A carriage return goes with the line feed that follows it. */
  function StripCr(s: string): string {
    if s != [] && s[|s| - 1] == '\r' then s[..|s| - 1] else s
  }

  function Lines(s: string): seq<string>
    decreases |s|
  {
    if s == [] then [] else
    var i := IndexOf(s, '\n');
    if i == |s| then [s] else [StripCr(s[..i])] + Lines(s[i + 1..])
  }

  function Unlines(ls: seq<string>): string {
    if ls == [] then "" else ls[0] + "\n" + Unlines(ls[1..])
  }

  predicate IsLine(s: string) {
    '\n' !in s && (s != [] ==> s[|s| - 1] != '\r')
  }

  /** Reading back what was written line by line. */
  lemma {:induction false} LinesOfUnlines(ls: seq<string>)
    requires forall l <- ls :: IsLine(l)
    ensures Lines(Unlines(ls)) == ls
  {
    hide IndexOf;
    if ls != [] {
      var l := ls[0];
      assert IsLine(l);
      Around(l, '\n', Unlines(ls[1..]), |l|);
      IndexOfIs(Unlines(ls), '\n', |l|);
      assert l[..|l|] == l && StripCr(l) == l;
      LinesOfUnlines(ls[1..]);
    }
  }

  lemma {:induction false} UnlinesSnoc(ls: seq<string>, l: string)
    ensures Unlines(ls + [l]) == Unlines(ls) + l + "\n"
  {
    if ls == [] {
      assert ls + [l] == [l] && [l][1..] == [];
    } else {
      assert (ls + [l])[1..] == ls[1..] + [l];
      UnlinesSnoc(ls[1..], l);
    }
  }

  lemma {:induction false} JoinIsUnlines(ls: seq<string>)
    requires ls != []
    ensures Join(ls, '\n') + "\n" == Unlines(ls)
  {
    if |ls| == 1 {
      assert ls[1..] == [];
    } else {
      JoinIsUnlines(ls[1..]);
    }
  }

  /** No line of a text contains a line feed. */
  lemma {:induction false} LinesHaveNoFeed(s: string)
    ensures forall l <- Lines(s) :: '\n' !in l
    decreases |s|
  {
    hide IndexOf, StripCr;
    if s != [] {
      var i := IndexOf(s, '\n');
      if i < |s| {
        LinesHaveNoFeed(s[i + 1..]);
        StrippedHasNoFeed(s[..i]);
      }
    }
  }

  lemma StrippedHasNoFeed(s: string)
    requires forall j :: 0 <= j < |s| ==> s[j] != '\n'
    ensures '\n' !in StripCr(s)
  {}

  // --------------------------------------------------------------------------- numbers

  predicate IsDigit(c: char) {
    '0' <= c <= '9'
  }

  function DigitValue(c: char): nat
    requires IsDigit(c)
  {
    c as int - '0' as int
  }

  function Digits(s: string): nat
    requires forall c <- s :: IsDigit(c)
  {
    if s == [] then 0 else
    assert s[|s| - 1] in s;
    Digits(s[..|s| - 1]) * 10 + DigitValue(s[|s| - 1])
  }

  /** `parse` for an unsigned type with `bound` values: an optional plus sign, then digits. */
  function ParseNat(s: string, bound: nat): Option<nat> {
    var d := if s != [] && s[0] == '+' then s[1..] else s;
    if d == [] || exists c :: c in d && !IsDigit(c) then None
    else if Digits(d) < bound then Some(Digits(d)) else None
  }

  function DigitChar(n: nat): (c: char)
    requires n < 10
    ensures IsDigit(c) && DigitValue(c) == n
  {
    '0' + n as char
  }

  /** The decimal form of a number. */
  function Decimal(n: nat): (s: string)
    ensures s != [] && forall c <- s :: IsDigit(c)
  {
    if n < 10 then [DigitChar(n)] else Decimal(n / 10) + [DigitChar(n % 10)]
  }

  /** Parsing undoes printing. */
  lemma {:induction false} ParseDecimal(n: nat, bound: nat)
    ensures ParseNat(Decimal(n), bound) == if n < bound then Some(n) else None
  {
    DigitsOfDecimal(n);
    assert IsDigit(Decimal(n)[0]);
  }

  lemma DecimalSnoc(n: nat, d: nat)
    requires d < 10
    ensures Decimal(n * 10 + d) == if n == 0 then [DigitChar(d)] else Decimal(n) + [DigitChar(d)]
  {
    assert (n * 10 + d) / 10 == n && (n * 10 + d) % 10 == d;
  }

  lemma DigitsSnoc(s: string, c: char)
    requires (forall x <- s :: IsDigit(x)) && IsDigit(c)
    ensures forall x <- s + [c] :: IsDigit(x)
    ensures Digits(s + [c]) == Digits(s) * 10 + DigitValue(c) && DigitChar(DigitValue(c)) == c
  {
    assert (s + [c])[..|s|] == s;
  }

  /** Printing undoes parsing, where there are no zeros in front. */
  lemma {:induction false} DecimalOfDigits(s: string)
    requires s != [] && (forall c <- s :: IsDigit(c)) && (|s| > 1 ==> s[0] != '0')
    ensures Decimal(Digits(s)) == s && (s[0] != '0' ==> Digits(s) > 0)
  {
    hide Decimal, Digits, DigitChar;
    var front, last := s[..|s| - 1], s[|s| - 1];
    assert s == front + [last] && IsDigit(last);
    DigitsSnoc(front, last);
    DecimalSnoc(Digits(front), DigitValue(last));
    if front == [] {
      NoDigits();
    } else {
      assert front[0] == s[0];
      DecimalOfDigits(front);
    }
  }

  lemma NoDigits()
    ensures Digits("") == 0
  {}

  lemma {:induction false} DigitsOfDecimal(n: nat)
    ensures Digits(Decimal(n)) == n
  {
    if n >= 10 {
      DigitsOfDecimal(n / 10);
      assert Decimal(n)[..|Decimal(n)| - 1] == Decimal(n / 10);
    } else {
      assert Decimal(n)[..0] == [];
    }
  }
}
