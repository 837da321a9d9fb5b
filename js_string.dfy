/** The JavaScript string operations the validators rely on:
    `String.prototype.trim`, `.length` (in UTF-16 code units),
    `String.prototype.toLowerCase` and the decimal rendering of a count
    inside a template literal. */
module JsString {

  /** ECMAScript WhiteSpace and LineTerminator code points, the set `trim` strips. */
  predicate IsWhitespace(c: char) {
    || c == '\t' || c == '\n' || c == '\U{000B}' || c == '\U{000C}' || c == '\r'
    || c == ' ' || c == '\U{00A0}' || c == '\U{1680}'
    || ('\U{2000}' <= c && c <= '\U{200A}')
    || c == '\U{2028}' || c == '\U{2029}' || c == '\U{202F}' || c == '\U{205F}'
    || c == '\U{3000}' || c == '\U{FEFF}'
  }

  predicate AllWhitespace(s: string) {
    forall i :: 0 <= i < |s| ==> IsWhitespace(s[i])
  }

  /** Neither end of `s` is whitespace. */
  predicate IsTrimmed(s: string) {
    s == [] || (!IsWhitespace(s[0]) && !IsWhitespace(s[|s| - 1]))
  }

  /** Number of whitespace characters at the front of `s`. */
  function LeadingWhitespace(s: string): (k: nat)
    ensures k <= |s|
    ensures AllWhitespace(s[..k])
    ensures k < |s| ==> !IsWhitespace(s[k])
  {
    if |s| > 0 && IsWhitespace(s[0]) then 1 + LeadingWhitespace(s[1..]) else 0
  }

  /** Number of whitespace characters at the back of `s`. */
  function TrailingWhitespace(s: string): (k: nat)
    ensures k <= |s|
    ensures AllWhitespace(s[|s| - k..])
    ensures k < |s| ==> !IsWhitespace(s[|s| - 1 - k])
  {
    if |s| > 0 && IsWhitespace(s[|s| - 1]) then 1 + TrailingWhitespace(s[..|s| - 1]) else 0
  }

  /** `s.trim()`: `s` without its leading and trailing whitespace. */
  function Trim(s: string): (r: string)
    ensures IsTrimmed(r)
    ensures var lo := LeadingWhitespace(s);
      && lo + |r| <= |s| && r == s[lo..lo + |r|] && AllWhitespace(s[lo + |r|..])
    ensures r == [] <==> AllWhitespace(s)
  {
    var lo := LeadingWhitespace(s);
    if lo == |s| then
      assert s == s[..lo];
      []
    else
      TrailingWhitespaceAfter(s, lo);
      s[lo..|s| - TrailingWhitespace(s)]
  }

  /** Only whitespace follows the last non-whitespace character. */
  lemma TrailingWhitespaceAfter(s: string, i: nat)
    requires i < |s| && !IsWhitespace(s[i])
    ensures TrailingWhitespace(s) < |s| - i
  {
  }

  /** Number of UTF-16 code units that encode `c`. */
  function CodeUnits(c: char): nat {
    if c as int < 0x1_0000 then 1 else 2
  }

  /** `s.length`: a JavaScript string counts UTF-16 code units, so a code
      point outside the Basic Multilingual Plane counts twice. */
  function Utf16Length(s: string): (n: nat)
    ensures |s| <= n <= 2 * |s|
    ensures n == |s| <==> forall i :: 0 <= i < |s| ==> s[i] as int < 0x1_0000
    ensures |s| == 1 ==> n == CodeUnits(s[0])
  {
    if s == [] then 0 else CodeUnits(s[0]) + Utf16Length(s[1..])
  }

  /** The length of a concatenation is the sum of the lengths, so every
      character contributes its own code units. */
  lemma {:induction false} Utf16LengthAppend(a: string, b: string)
    ensures Utf16Length(a + b) == Utf16Length(a) + Utf16Length(b)
  {
    if a != [] {
      assert (a + b)[0] == a[0] && (a + b)[1..] == a[1..] + b;
      Utf16LengthAppend(a[1..], b);
    } else {
      assert a + b == b;
    }
  }

  /** Lower-cases an ASCII capital letter; every other character is unchanged. */
  function LowerChar(c: char): (l: char)
    ensures 'A' <= c <= 'Z' ==> l as int == c as int + 32
    ensures !('A' <= c <= 'Z') ==> l == c
  {
    if 'A' <= c <= 'Z' then (c as int + 32) as char else c
  }

  /** `s.toLowerCase()`, restricted to ASCII letters. */
  function ToLower(s: string): (r: string)
    ensures |r| == |s|
    ensures forall i :: 0 <= i < |s| ==> r[i] == LowerChar(s[i])
  {
    if s == [] then [] else [LowerChar(s[0])] + ToLower(s[1..])
  }

  predicate IsDigit(c: char) {
    '0' <= c <= '9'
  }

  predicate AllDigits(s: string) {
    forall i :: 0 <= i < |s| ==> IsDigit(s[i])
  }

  function DigitChar(d: nat): (c: char)
    requires d < 10
    ensures IsDigit(c) && c as int - '0' as int == d
  {
    ('0' as int + d) as char
  }

  /** The number written by the decimal digits `s`. */
  function DecimalValue(s: string): nat
    requires AllDigits(s)
  {
    if s == [] then 0 else 10 * DecimalValue(s[..|s| - 1]) + (s[|s| - 1] as int - '0' as int)
  }

  /** `${n}` for a non-negative integer: its decimal digits, without leading zeros. */
  function NatToString(n: nat): (s: string)
    ensures s != [] && AllDigits(s)
    ensures s[0] == '0' ==> s == "0"
  {
    (if n < 10 then "" else NatToString(n / 10)) + [DigitChar(n % 10)]
  }

  /** The leading whitespace of `p + u` is exactly `p` when `u` does not
      start with whitespace. */
  lemma {:induction false} LeadingWhitespaceOf(p: string, u: string)
    requires AllWhitespace(p) && (u == [] || !IsWhitespace(u[0]))
    ensures LeadingWhitespace(p + u) == |p|
  {
    if p == [] {
      assert p + u == u;
    } else {
      assert (p + u)[0] == p[0];
      assert (p + u)[1..] == p[1..] + u;
      LeadingWhitespaceOf(p[1..], u);
    }
  }

  /** The trailing whitespace of `u + q` is exactly `q` when `u` does not
      end with whitespace. */
  lemma {:induction false} TrailingWhitespaceOf(u: string, q: string)
    requires AllWhitespace(q) && (u == [] || !IsWhitespace(u[|u| - 1]))
    ensures TrailingWhitespace(u + q) == |q|
  {
    if q == [] {
      assert u + q == u;
    } else {
      var s := u + q;
      assert s[|s| - 1] == q[|q| - 1];
      assert s[..|s| - 1] == u + q[..|q| - 1];
      TrailingWhitespaceOf(u, q[..|q| - 1]);
    }
  }

  /** `trim` is characterised by its result alone: whatever whitespace
      surrounds a string with non-whitespace ends is exactly what is removed. */
  lemma TrimOf(p: string, t: string, q: string)
    requires AllWhitespace(p) && AllWhitespace(q) && IsTrimmed(t)
    ensures Trim(p + t + q) == t
  {
    var s := p + t + q;
    if t == [] {
      assert s == p + q;
      assert AllWhitespace(s) by {
        forall i | 0 <= i < |s| ensures IsWhitespace(s[i]) {
          if i < |p| { assert s[i] == p[i]; } else { assert s[i] == q[i - |p|]; }
        }
      }
    } else {
      assert s == p + (t + q);
      LeadingWhitespaceOf(p, t + q);
      assert (p + t)[|p + t| - 1] == t[|t| - 1];
      TrailingWhitespaceOf(p + t, q);
      assert s[|p|..|s| - |q|] == t;
    }
  }

  /** Trimming twice is trimming once. */
  lemma TrimIdempotent(s: string)
    ensures Trim(Trim(s)) == Trim(s)
  {
    TrimOf([], Trim(s), []);
    assert [] + Trim(s) + [] == Trim(s);
  }

  /** Only whitespace precedes the first non-whitespace character. */
  lemma LeadingWhitespaceBefore(s: string, i: nat)
    requires i < |s| && !IsWhitespace(s[i])
    ensures LeadingWhitespace(s) <= i
  {
  }

  /** Only whitespace follows the last non-whitespace character. */
  lemma TrimEndsAfter(s: string, j: nat)
    requires 0 < j <= |s| && !IsWhitespace(s[j - 1])
    ensures j <= LeadingWhitespace(s) + |Trim(s)|
  {
  }

  /** A stretch of `s` that begins and ends with non-whitespace survives
      `trim` intact, shifted left by the leading whitespace. */
  lemma TrimKeepsInfix(s: string, i: nat, j: nat)
    requires i < j <= |s| && !IsWhitespace(s[i]) && !IsWhitespace(s[j - 1])
    ensures var lo := LeadingWhitespace(s);
      lo <= i && j - lo <= |Trim(s)| && Trim(s)[i - lo..j - lo] == s[i..j]
  {
    var r := Trim(s);
    var lo := LeadingWhitespace(s);
    LeadingWhitespaceBefore(s, i);
    TrimEndsAfter(s, j);
    SliceOfSlice(s, r, lo, i, j);
  }

  /** A slice of a slice of `s` is a slice of `s`. */
  lemma SliceOfSlice(s: string, r: string, lo: nat, i: nat, j: nat)
    requires lo <= i <= j <= lo + |r| <= |s| && r == s[lo..lo + |r|]
    ensures r[i - lo..j - lo] == s[i..j]
  {
    forall k | 0 <= k < j - i ensures r[i - lo..j - lo][k] == s[i..j][k] {
      assert r[i - lo..j - lo][k] == r[i - lo + k] == s[lo..lo + |r|][i - lo + k];
    }
  }

  /** Decoding the decimal rendering of `n` gives back `n`. */
  lemma {:induction false} NatToStringRoundTrip(n: nat)
    ensures DecimalValue(NatToString(n)) == n
  {
    var s := NatToString(n);
    var front := if n < 10 then "" else NatToString(n / 10);
    assert s[..|s| - 1] == front;
    if n >= 10 {
      NatToStringRoundTrip(n / 10);
    }
  }
}
