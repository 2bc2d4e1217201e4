/** The string and path primitives of the .NET runtime that the program relies
    on, written out: `Path.Combine` (Windows separators), `string.Replace`,
    ordinal `string.Contains`, and `Int32.ToString("x8")` together with the
    inverse reading a `.reg` importer performs on a `dword:` value. */
module Strings {

  /** The primary directory separator of `Path.Combine` on Windows. */
  const DirSep: char := '\\'

  /** A 32-bit signed integer, the type of a REG_DWORD value read back as `int`. */
  type Int32 = x: int | -0x8000_0000 <= x < 0x8000_0000

  const TwoTo32: int := 0x1_0000_0000

  // ---------------------------------------------------------------------------
  // Path.Combine
  // ---------------------------------------------------------------------------

  /** `a` already ends in a directory or volume separator, so `Path.Combine`
      appends without inserting one. */
  predicate EndsWithSeparator(a: string) {
    |a| > 0 && (a[|a| - 1] == '\\' || a[|a| - 1] == '/' || a[|a| - 1] == ':')
  }

  /** `Path.Combine(a, b)` for a relative `b`: an empty `b` yields `a`, an
      empty `a` yields `b`, otherwise `b` is appended after `a`, separated by
      `\` unless `a` already ends in a separator. */
  function Combine(a: string, b: string): string {
    if |b| == 0 then a
    else if |a| == 0 then b
    else if EndsWithSeparator(a) then a + b
    else a + [DirSep] + b
  }

  /** The combination starts with the directory, ends with the name, and has
      at most one separator between them. */
  lemma CombineShape(a: string, b: string)
    ensures var r := Combine(a, b);
      && |a| <= |r| <= |a| + 1 + |b|
      && |b| <= |r| && r[|r| - |b|..] == b
      && r[..|a|] == a
      && (|b| > 0 ==> |r| > |a|)
      && (|a| > 0 && |b| > 0 && !EndsWithSeparator(a) ==> |r| == |a| + 1 + |b| && r[|a|] == DirSep)
  {
  }

  /** Combining the same directory with two different names never yields the
      same path: the name is always the suffix of the combination. */
  lemma CombineInjective(a: string, b1: string, b2: string)
    requires b1 != b2
    ensures Combine(a, b1) != Combine(a, b2)
  {
    if |b1| == 0 || |b2| == 0 {
      CombineShape(a, b1);
      CombineShape(a, b2);
    } else if |a| > 0 && !EndsWithSeparator(a) {
      assert Combine(a, b1)[|a| + 1..] == b1;
      assert Combine(a, b2)[|a| + 1..] == b2;
    } else if |a| > 0 {
      assert Combine(a, b1)[|a|..] == b1;
      assert Combine(a, b2)[|a|..] == b2;
    }
  }

  // ---------------------------------------------------------------------------
  // string.Replace with a one-character pattern
  // ---------------------------------------------------------------------------

  /** Every occurrence of `c` in `s` replaced by `t`, left to right. */
  function ReplaceAll(s: string, c: char, t: string): string {
    if |s| == 0 then ""
    else (if s[0] == c then t else [s[0]]) + ReplaceAll(s[1..], c, t)
  }

  /** Replacement distributes over concatenation. */
  lemma {:induction false} ReplaceAllConcat(a: string, b: string, c: char, t: string)
    ensures ReplaceAll(a + b, c, t) == ReplaceAll(a, c, t) + ReplaceAll(b, c, t)
    decreases |a|
  {
    if |a| > 0 {
      assert (a + b)[1..] == a[1..] + b;
      ReplaceAllConcat(a[1..], b, c, t);
    } else {
      assert a + b == b;
    }
  }

  /** A string without `c` is left as it is. */
  lemma {:induction false} ReplaceAllAbsent(s: string, c: char, t: string)
    requires c !in s
    ensures ReplaceAll(s, c, t) == s
    decreases |s|
  {
    if |s| > 0 {
      ReplaceAllAbsent(s[1..], c, t);
      assert [s[0]] + s[1..] == s;
    }
  }

  // ---------------------------------------------------------------------------
  // string.Contains (ordinal)
  // ---------------------------------------------------------------------------

  /** `sub` occurs in `s` starting at index `i`. */
  predicate OccursAt(s: string, sub: string, i: int) {
    0 <= i && i + |sub| <= |s| && s[i..i + |sub|] == sub
  }

  /** Ordinal substring search, scanning left to right. */
  function Contains(s: string, sub: string): bool
    decreases |s|
  {
    if |sub| > |s| then false
    else if s[..|sub|] == sub then true
    else Contains(s[1..], sub)
  }

  /** The scan finds `sub` exactly when it occurs somewhere in `s`. */
  lemma {:induction false} ContainsIffOccurs(s: string, sub: string)
    ensures Contains(s, sub) <==> exists i :: OccursAt(s, sub, i)
    decreases |s|
  {
    if |sub| > |s| {
    } else if s[..|sub|] == sub {
      assert OccursAt(s, sub, 0);
    } else {
      ContainsIffOccurs(s[1..], sub);
      if exists i :: OccursAt(s[1..], sub, i) {
        var i :| OccursAt(s[1..], sub, i);
        assert s[1..][i..i + |sub|] == s[i + 1..i + 1 + |sub|];
        assert OccursAt(s, sub, i + 1);
      }
      if exists i :: OccursAt(s, sub, i) {
        var i :| OccursAt(s, sub, i);
        assert i != 0;
        assert s[1..][i - 1..i - 1 + |sub|] == s[i..i + |sub|];
        assert OccursAt(s[1..], sub, i - 1);
      }
    }
  }

  // ---------------------------------------------------------------------------
  // Int32.ToString("x8") and its inverse
  // ---------------------------------------------------------------------------

  predicate IsLowerHexDigit(c: char) {
    ('0' <= c <= '9') || ('a' <= c <= 'f')
  }

  predicate AllLowerHex(s: string) {
    forall i :: 0 <= i < |s| ==> IsLowerHexDigit(s[i])
  }

  function DigitValue(c: char): (d: nat)
    requires IsLowerHexDigit(c)
    ensures d < 16
  {
    if c <= '9' then c as int - '0' as int else c as int - 'a' as int + 10
  }

  /** The lower-case hexadecimal digit for `d`. */
  function HexDigit(d: nat): (c: char)
    requires d < 16
    ensures IsLowerHexDigit(c)
    ensures DigitValue(c) == d
  {
    if d < 10 then ('0' as int + d) as char else ('a' as int + d - 10) as char
  }

  function Pow16(n: nat): (r: nat)
    ensures r >= 1
  {
    if n == 0 then 1 else 16 * Pow16(n - 1)
  }

  /** The value of a string of lower-case hex digits, most significant first. */
  function HexValue(s: string): (n: nat)
    requires AllLowerHex(s)
    ensures n < Pow16(|s|)
  {
    if |s| == 0 then 0
    else 16 * HexValue(s[..|s| - 1]) + DigitValue(s[|s| - 1])
  }

  /** `n` written with exactly `width` lower-case hex digits, zero-padded. */
  function FixedHex(n: nat, width: nat): (s: string)
    requires n < Pow16(width)
    ensures |s| == width
    ensures AllLowerHex(s)
    ensures HexValue(s) == n
  {
    if width == 0 then ""
    else
      assert n / 16 < Pow16(width - 1);
      var s := FixedHex(n / 16, width - 1) + [HexDigit(n % 16)];
      assert s[..|s| - 1] == FixedHex(n / 16, width - 1);
      s
  }

  /** Reading eight hex digits back as a signed 32-bit value, the way a REG_DWORD
      holding `u` is seen by code that reads it as `int`. */
  function SignedDword(u: nat): (v: Int32)
    requires u < TwoTo32
    ensures v % TwoTo32 == u
  {
    if u < 0x8000_0000 then u else u - TwoTo32
  }

  /** `v.ToString("x8")`: the two's-complement bit pattern of `v` in eight
      lower-case hex digits. */
  function DwordHex(v: Int32): (s: string)
    ensures |s| == 8 && AllLowerHex(s)
    ensures HexValue(s) == v % TwoTo32
    ensures SignedDword(HexValue(s)) == v
  {
    assert Pow16(8) == TwoTo32;
    FixedHex(v % TwoTo32, 8)
  }
}
