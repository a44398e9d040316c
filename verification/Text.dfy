/** The string operations the matchers use, over ASCII: case folding, trimming,
    substring search, and the hex form of a UUID. */
module Text {

  type Byte = b: int | 0 <= b < 256
  type Bytes = seq<Byte>

  function LowerChar(c: char): char {
    if 'A' <= c <= 'Z' then (c as int + 32) as char else c
  }

  function Lower(s: string): string {
    seq(|s|, i requires 0 <= i < |s| => LowerChar(s[i]))
  }

  predicate EqualFold(a: string, b: string) {
    Lower(a) == Lower(b)
  }

  predicate OccursAt(s: string, sub: string, i: nat) {
    i + |sub| <= |s| && s[i..i + |sub|] == sub
  }

  ghost predicate Contains(s: string, sub: string) {
    exists i: nat :: OccursAt(s, sub, i)
  }

  predicate IsSpace(c: char) {
    c in " \t\n\r" || c == 11 as char || c == 12 as char
  }

  function TrimSpace(s: string): (r: string)
    ensures r == [] || (!IsSpace(r[0]) && !IsSpace(r[|r| - 1]))
  {
    if s == [] then s
    else if IsSpace(s[0]) then TrimSpace(s[1..])
    else if IsSpace(s[|s| - 1]) then TrimSpace(s[..|s| - 1])
    else s
  }

  predicate Blank(s: string) {
    forall c | c in s :: IsSpace(c)
  }

  // No space at either end.
  predicate Tidy(s: string) {
    s == "" || (!IsSpace(s[0]) && !IsSpace(s[|s| - 1]))
  }

  /** Trimming takes off exactly the spaces around a text. */
  lemma {:induction false} TrimsExactlySpaces(x: string, s: string, y: string)
    requires Blank(x) && Tidy(s) && Blank(y)
    ensures TrimSpace(x + s + y) == s
  {
    if x == "" {
      assert x + s + y == s + y;
      TrimsEnd(s, y);
    } else {
      assert (x + s + y)[1..] == x[1..] + s + y && (x + s + y)[0] == x[0];
      TrimsExactlySpaces(x[1..], s, y);
    }
  }

  lemma {:induction false} TrimsEnd(s: string, y: string)
    requires Tidy(s) && Blank(y)
    ensures TrimSpace(s + y) == s
  {
    if s == "" {
      assert s + y == y;
      BlankTrims(y);
    } else if y == "" {
      assert s + y == s;
    } else {
      assert (s + y)[..|s + y| - 1] == s + y[..|y| - 1];
      TrimsEnd(s, y[..|y| - 1]);
    }
  }

  lemma {:induction false} BlankTrims(s: string)
    requires Blank(s)
    ensures TrimSpace(s) == ""
  {
    if s != "" {
      BlankTrims(s[1..]);
    }
  }

  lemma {:induction false} BlankTrimsIff(s: string)
    ensures TrimSpace(s) == "" <==> Blank(s)
  {
    if Blank(s) {
      BlankTrims(s);
    } else if IsSpace(s[0]) {
      BlankTrimsIff(s[1..]);
    } else if IsSpace(s[|s| - 1]) {
      BlankTrimsIff(s[..|s| - 1]);
    }
  }

  // The same character, or the same ASCII letter in the other case.
  predicate SameLetter(a: char, b: char) {
    || a == b
    || ('A' <= a <= 'Z' && b as int == a as int + 32)
    || ('A' <= b <= 'Z' && a as int == b as int + 32)
  }

  // sub stands in s from position i on, up to case.
  predicate StandsAt(s: string, sub: string, i: nat) {
    i + |sub| <= |s| && forall j :: 0 <= j < |sub| ==> SameLetter(s[i + j], sub[j])
  }

  predicate SameText(a: string, b: string) {
    |a| == |b| && StandsAt(a, b, 0)
  }

  lemma EqualFoldIff(a: string, b: string)
    ensures EqualFold(a, b) <==> SameText(a, b)
  {
    if EqualFold(a, b) {
      forall j | 0 <= j < |b|
        ensures SameLetter(a[j], b[j])
      {
        assert Lower(a)[j] == Lower(b)[j];
      }
    }
    if SameText(a, b) {
      assert forall j :: 0 <= j < |b| ==> SameLetter(a[0 + j], b[j]);
    }
  }

  lemma ContainsFoldIff(s: string, sub: string)
    ensures Contains(Lower(s), Lower(sub)) <==> exists i: nat :: StandsAt(s, sub, i)
  {
    forall i: nat
      ensures OccursAt(Lower(s), Lower(sub), i) <==> StandsAt(s, sub, i)
    {
      if i + |sub| <= |s| {
        assert Lower(s)[i..i + |sub|] == Lower(s[i..i + |sub|]);
        EqualFoldIff(s[i..i + |sub|], sub);
      }
    }
  }

  predicate HasPrefix(s: string, p: string) {
    |p| <= |s| && s[..|p|] == p
  }

  lemma EqualFoldContains(s: string, sub: string)
    requires EqualFold(s, sub)
    ensures Contains(Lower(s), Lower(sub))
  {
    assert OccursAt(Lower(s), Lower(sub), 0);
  }

  type UUID = Bytes

  const ZERO: UUID := [0, 0, 0, 0, 0, 0, 0, 0, 0, 0, 0, 0, 0, 0, 0, 0]

  predicate AllZero(u: UUID) {
    forall i :: 0 <= i < |u| ==> u[i] == 0
  }

  lemma ZeroIff(u: UUID)
    requires |u| == 16
    ensures u == ZERO <==> AllZero(u)
  {
    forall i | 0 <= i < 16
      ensures ZERO[i] == 0
    {
    }
  }

  function HexDigit(n: nat): char
    requires n < 16
  {
    "0123456789abcdef"[n]
  }

  function Hex(u: UUID): string {
    if u == [] then "" else [HexDigit(u[0] / 16), HexDigit(u[0] % 16)] + Hex(u[1..])
  }

  lemma HexDigitInjective(m: nat, n: nat)
    requires m < 16 && n < 16 && HexDigit(m) == HexDigit(n)
    ensures m == n
  {
  }

  function DigitValue(c: char): int {
    if '0' <= c <= '9' then c as int - '0' as int else c as int - 'a' as int + 10
  }

  lemma DigitReadsBack(n: nat)
    requires n < 16
    ensures var c := HexDigit(n); DigitValue(c) == n && ('0' <= c <= '9' || 'a' <= c <= 'f')
  {
  }

  /** Two hexadecimal digits for each byte, the high one first. */
  lemma {:induction false} HexReadsBack(u: UUID, i: nat)
    requires i < |u|
    ensures |Hex(u)| == 2 * |u|
    ensures 16 * DigitValue(Hex(u)[2 * i]) + DigitValue(Hex(u)[2 * i + 1]) == u[i]
  {
    hide HexDigit, DigitValue;
    HexLength(u[1..]);
    var first := [HexDigit(u[0] / 16), HexDigit(u[0] % 16)];
    assert Hex(u) == first + Hex(u[1..]);
    if i > 0 {
      HexReadsBack(u[1..], i - 1);
      assert Hex(u)[2 * i] == Hex(u[1..])[2 * (i - 1)] && Hex(u)[2 * i + 1] == Hex(u[1..])[2 * (i - 1) + 1];
    } else {
      DigitReadsBack(u[0] / 16);
      DigitReadsBack(u[0] % 16);
    }
  }

  lemma {:induction false} HexLength(u: UUID)
    ensures |Hex(u)| == 2 * |u|
  {
    if u != [] {
      HexLength(u[1..]);
    }
  }

  lemma {:induction false} HexInjective(u: UUID, v: UUID)
    requires Hex(u) == Hex(v)
    ensures u == v
  {
    if u != [] && v != [] {
      var s, t := Hex(u), Hex(v);
      assert s[0] == HexDigit(u[0] / 16) && s[1] == HexDigit(u[0] % 16) && s[2..] == Hex(u[1..]);
      assert t[0] == HexDigit(v[0] / 16) && t[1] == HexDigit(v[0] % 16) && t[2..] == Hex(v[1..]);
      HexDigitInjective(u[0] / 16, v[0] / 16);
      HexDigitInjective(u[0] % 16, v[0] % 16);
      HexInjective(u[1..], v[1..]);
    }
  }
}
