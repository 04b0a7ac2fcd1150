/**
 * UUID strings as the Python standard library parses and prints them: `UUID(s)`
 * normalises `s` (removes every "urn:" and then every "uuid:", strips braces from
 * both ends, removes every hyphen), requires 32 characters and reads them with
 * `int(hex, 16)`; this model reads only plain ASCII hexadecimal digits there.
 * `str(UUID(s))` prints them in lower case, grouped 8-4-4-4-12.
 */
module Uuid {
  import opened Wrappers

  type Nibble = x: int | 0 <= x < 16

  /** The 128 bits of a UUID, as 32 hexadecimal digits, most significant first. */
  type Uuid = s: seq<Nibble> | |s| == 32 witness seq(32, i => 0)

  predicate IsHexDigit(c: char) {
    '0' <= c <= '9' || 'a' <= c <= 'f' || 'A' <= c <= 'F'
  }

  predicate IsLowerHexDigit(c: char) {
    '0' <= c <= '9' || 'a' <= c <= 'f'
  }

  function HexValue(c: char): Nibble
    requires IsHexDigit(c)
  {
    if '0' <= c <= '9' then c as int - '0' as int
    else if 'a' <= c <= 'f' then c as int - 'a' as int + 10
    else c as int - 'A' as int + 10
  }

  /** The digit `str(UUID)` prints for one nibble. */
  function LowerHexDigit(n: Nibble): (c: char)
    ensures IsLowerHexDigit(c) && HexValue(c) == n
  {
    if n < 10 then ('0' as int + n) as char else ('a' as int + n - 10) as char
  }

  lemma LowerHexDigitOfValue(c: char)
    requires IsLowerHexDigit(c)
    ensures LowerHexDigit(HexValue(c)) == c
  {
  }

  /** Python's `s.replace(pat, "")`: every non-overlapping occurrence, left to right. */
  function RemoveAll(s: string, pat: string): string
    requires |pat| > 0
  {
    if |s| < |pat| then s
    else if s[..|pat|] == pat then RemoveAll(s[|pat|..], pat)
    else [s[0]] + RemoveAll(s[1..], pat)
  }

  predicate IsBrace(c: char) { c == '{' || c == '}' }

  function StripLeadingBraces(s: string): string {
    if |s| > 0 && IsBrace(s[0]) then StripLeadingBraces(s[1..]) else s
  }

  function StripTrailingBraces(s: string): string {
    if |s| > 0 && IsBrace(s[|s| - 1]) then StripTrailingBraces(s[..|s| - 1]) else s
  }

  /** Python's `s.strip('{}')`. */
  function StripBraces(s: string): string {
    StripTrailingBraces(StripLeadingBraces(s))
  }

  /** Python's `s.replace('-', '')`. */
  function DropHyphens(s: string): (r: string)
    ensures '-' !in r
  {
    if s == [] then [] else (if s[0] == '-' then [] else [s[0]]) + DropHyphens(s[1..])
  }

  /** The hexadecimal digits `UUID(s)` reads out of `s`, before checking them. */
  function NormalisedHex(s: string): string {
    DropHyphens(StripBraces(RemoveAll(RemoveAll(s, "urn:"), "uuid:")))
  }

  /**
   * `UUID(s)` for keys whose 32 normalised characters are hexadecimal digits; `None`
   * for every other key, where Python raises `ValueError` unless `int(hex, 16)`
   * accepts one of its other spellings.
   */
  function ParseUuid(s: string): Option<Uuid> {
    var hex := NormalisedHex(s);
    if |hex| == 32 && forall i :: 0 <= i < 32 ==> IsHexDigit(hex[i]) then
      Some(seq(32, i requires 0 <= i < 32 => HexValue(hex[i])))
    else
      None
  }

  function Hex(ns: seq<Nibble>): (r: string)
    ensures |r| == |ns|
  {
    seq(|ns|, i requires 0 <= i < |ns| => LowerHexDigit(ns[i]))
  }

  /** `str(u)`. */
  function FormatUuid(u: Uuid): string {
    Hex(u[..8]) + "-" + Hex(u[8..12]) + "-" + Hex(u[12..16]) + "-" + Hex(u[16..20]) + "-" + Hex(u[20..])
  }

  predicate IsHyphenPosition(i: int) { i == 8 || i == 13 || i == 18 || i == 23 }

  /** The form `str(UUID(...))` always has: 36 characters, lower-case digits, hyphens at 8, 13, 18, 23. */
  predicate IsCanonical(s: string) {
    |s| == 36 &&
    forall i :: 0 <= i < 36 ==> if IsHyphenPosition(i) then s[i] == '-' else IsLowerHexDigit(s[i])
  }

  lemma {:induction false} RemoveAllAbsent(s: string, pat: string)
    requires |pat| > 0 && pat[|pat| - 1] !in s
    ensures RemoveAll(s, pat) == s
  {
    if |s| >= |pat| {
      assert s[..|pat|][|pat| - 1] == s[|pat| - 1];
      assert s[..|pat|] != pat;
      RemoveAllAbsent(s[1..], pat);
      assert [s[0]] + s[1..] == s;
    }
  }

  lemma {:induction false} DropHyphensAppend(a: string, b: string)
    ensures DropHyphens(a + b) == DropHyphens(a) + DropHyphens(b)
  {
    if a != [] {
      assert (a + b)[1..] == a[1..] + b;
      DropHyphensAppend(a[1..], b);
    } else {
      assert a + b == b;
    }
  }

  lemma {:induction false} DropHyphensNone(a: string)
    requires '-' !in a
    ensures DropHyphens(a) == a
  {
    if a != [] {
      DropHyphensNone(a[1..]);
      assert [a[0]] + a[1..] == a;
    }
  }

  /** Every string `str(UUID)` prints is canonical. */
  lemma FormatIsCanonical(u: Uuid)
    ensures IsCanonical(FormatUuid(u))
  {
    var s := FormatUuid(u);
    forall i | 0 <= i < 36
      ensures if IsHyphenPosition(i) then s[i] == '-' else IsLowerHexDigit(s[i])
    {
      if i < 8 { assert s[i] == Hex(u[..8])[i]; }
      else if 8 < i < 13 { assert s[i] == Hex(u[8..12])[i - 9]; }
      else if 13 < i < 18 { assert s[i] == Hex(u[12..16])[i - 14]; }
      else if 18 < i < 23 { assert s[i] == Hex(u[16..20])[i - 19]; }
      else if 23 < i { assert s[i] == Hex(u[20..])[i - 24]; }
    }
  }

  lemma SplitCanonical(s: string)
    requires IsCanonical(s)
    ensures s == s[..8] + "-" + s[9..13] + "-" + s[14..18] + "-" + s[19..23] + "-" + s[24..]
  {
    assert s[8..9] == "-" && s[13..14] == "-" && s[18..19] == "-" && s[23..24] == "-";
    assert s == s[..8] + s[8..9] + s[9..13] + s[13..14] + s[14..18] + s[18..19] + s[19..23] + s[23..24] + s[24..];
  }

  lemma DropOneHyphen(x: string, y: string)
    ensures DropHyphens(x + "-" + y) == DropHyphens(x) + DropHyphens(y)
  {
    DropHyphensAppend(x + "-", y);
    DropHyphensAppend(x, "-");
  }

  lemma DropHyphensOfGroups(a: string, b: string, c: string, d: string, e: string)
    requires '-' !in a && '-' !in b && '-' !in c && '-' !in d && '-' !in e
    ensures DropHyphens(a + "-" + b + "-" + c + "-" + d + "-" + e) == a + b + c + d + e
  {
    DropOneHyphen(a + "-" + b + "-" + c + "-" + d, e);
    DropOneHyphen(a + "-" + b + "-" + c, d);
    DropOneHyphen(a + "-" + b, c);
    DropOneHyphen(a, b);
    DropHyphensNone(a);
    DropHyphensNone(b);
    DropHyphensNone(c);
    DropHyphensNone(d);
    DropHyphensNone(e);
  }

  lemma CanonicalGroupHasNoHyphen(s: string, a: int, b: int)
    requires IsCanonical(s) && 0 <= a <= b <= 36
    requires forall i :: a <= i < b ==> !IsHyphenPosition(i)
    ensures '-' !in s[a..b]
  {
    forall j | 0 <= j < b - a ensures s[a..b][j] != '-' {
      assert IsLowerHexDigit(s[a + j]);
    }
  }

  /** A canonical string passes through `UUID(...)`'s normalisation with only its hyphens removed. */
  lemma CanonicalNormalises(s: string)
    requires IsCanonical(s)
    ensures NormalisedHex(s) == s[..8] + s[9..13] + s[14..18] + s[19..23] + s[24..]
  {
    assert ':' !in s by {
      forall i | 0 <= i < |s| ensures s[i] != ':' {
        if IsHyphenPosition(i) { } else { assert IsLowerHexDigit(s[i]); }
      }
    }
    RemoveAllAbsent(s, "urn:");
    RemoveAllAbsent(s, "uuid:");
    assert StripLeadingBraces(s) == s by { assert IsLowerHexDigit(s[0]); }
    assert StripTrailingBraces(s) == s by { assert IsLowerHexDigit(s[35]); }
    SplitCanonical(s);
    CanonicalGroupHasNoHyphen(s, 0, 8);
    CanonicalGroupHasNoHyphen(s, 9, 13);
    CanonicalGroupHasNoHyphen(s, 14, 18);
    CanonicalGroupHasNoHyphen(s, 19, 23);
    CanonicalGroupHasNoHyphen(s, 24, 36);
    DropHyphensOfGroups(s[..8], s[9..13], s[14..18], s[19..23], s[24..]);
  }

  /** The five groups of a printed UUID are the five slices of its digits. */
  lemma FormatGroups(u: Uuid)
    ensures var s := FormatUuid(u);
      |s| == 36 &&
      s[..8] == Hex(u)[..8] && s[9..13] == Hex(u)[8..12] && s[14..18] == Hex(u)[12..16] &&
      s[19..23] == Hex(u)[16..20] && s[24..] == Hex(u)[20..]
  {
    HexSlice(u, 0, 8);
    HexSlice(u, 8, 12);
    HexSlice(u, 12, 16);
    HexSlice(u, 16, 20);
    HexSlice(u, 20, 32);
    assert u[..8] == u[0..8] && u[20..] == u[20..32];
  }

  /** Two 32-digit strings that agree on the five groups are equal. */
  lemma SameGroups(x: string, y: string)
    requires |x| == 32 && |y| == 32
    requires x[..8] == y[..8] && x[8..12] == y[8..12] && x[12..16] == y[12..16]
    requires x[16..20] == y[16..20] && x[20..] == y[20..]
    ensures x == y
  {
    forall i | 0 <= i < 32 ensures x[i] == y[i] {
      if i < 8 { assert x[i] == x[..8][i]; }
      else if i < 12 { assert x[i] == x[8..12][i - 8]; }
      else if i < 16 { assert x[i] == x[12..16][i - 12]; }
      else if i < 20 { assert x[i] == x[16..20][i - 16]; }
      else { assert x[i] == x[20..][i - 20]; }
    }
  }

  /** Parsing what `str(UUID)` printed gives back the same UUID. */
  lemma ParseFormat(u: Uuid)
    ensures ParseUuid(FormatUuid(u)) == Some(u)
  {
    var s := FormatUuid(u);
    FormatIsCanonical(u);
    CanonicalDigits(s);
    FormatGroups(u);
    var hex := NormalisedHex(s);
    SameGroups(hex, Hex(u));
    assert ParseUuid(s).Some?;
    assert ParseUuid(s).value == u by {
      forall i | 0 <= i < 32 ensures ParseUuid(s).value[i] == u[i] {
        assert hex[i] == LowerHexDigit(u[i]);
      }
    }
  }

  lemma HexSlice(ns: seq<Nibble>, a: int, b: int)
    requires 0 <= a <= b <= |ns|
    ensures Hex(ns[a..b]) == Hex(ns)[a..b]
  {
  }

  /** The digits of a canonical string, in order, are the digits it normalises to. */
  lemma CanonicalDigits(s: string)
    requires IsCanonical(s)
    ensures var hex := NormalisedHex(s);
      |hex| == 32 && (forall i :: 0 <= i < 32 ==> IsLowerHexDigit(hex[i])) &&
      hex[..8] == s[..8] && hex[8..12] == s[9..13] && hex[12..16] == s[14..18] &&
      hex[16..20] == s[19..23] && hex[20..] == s[24..]
  {
    CanonicalNormalises(s);
    var hex := NormalisedHex(s);
    forall i | 0 <= i < 32 ensures IsLowerHexDigit(hex[i]) {
      if i < 8 { assert hex[i] == s[i]; }
      else if i < 12 { assert hex[i] == s[i + 1]; }
      else if i < 16 { assert hex[i] == s[i + 2]; }
      else if i < 20 { assert hex[i] == s[i + 3]; }
      else { assert hex[i] == s[i + 4]; }
    }
  }

  /** Printing the values of lower-case digits gives the digits back. */
  lemma HexOfValues(hex: string, u: seq<Nibble>)
    requires |u| == |hex| && forall i :: 0 <= i < |hex| ==> IsLowerHexDigit(hex[i]) && u[i] == HexValue(hex[i])
    ensures Hex(u) == hex
  {
    forall i | 0 <= i < |hex| ensures Hex(u)[i] == hex[i] {
      LowerHexDigitOfValue(hex[i]);
    }
  }

  /** A canonical key is printed back unchanged by `str(UUID(key))`. */
  lemma FormatParse(s: string)
    requires IsCanonical(s)
    ensures ParseUuid(s).Some? && FormatUuid(ParseUuid(s).value) == s
  {
    CanonicalDigits(s);
    var hex := NormalisedHex(s);
    var u: Uuid := seq(32, i requires 0 <= i < 32 => HexValue(hex[i]));
    assert ParseUuid(s) == Some(u);
    HexOfValues(hex, u);
    HexSlice(u, 0, 8);
    HexSlice(u, 8, 12);
    HexSlice(u, 12, 16);
    HexSlice(u, 16, 20);
    HexSlice(u, 20, 32);
    assert u[..8] == u[0..8] && u[20..] == u[20..32];
    SplitCanonical(s);
  }
}
