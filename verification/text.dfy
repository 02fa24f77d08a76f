/**
 * Character and string helpers shared by the model: JavaScript's
 * `String.prototype.toLowerCase` (as far as ASCII output is concerned),
 * decimal rendering of integers (`String(n)`), and `padStart`.
 */
module Text {

  predicate IsAsciiUpper(c: char) { 'A' <= c <= 'Z' }
  predicate IsAsciiLower(c: char) { 'a' <= c <= 'z' }
  predicate IsDigit(c: char) { '0' <= c <= '9' }

  /** KELVIN SIGN, whose lower case is the ASCII letter 'k'. */
  const KelvinSign: char := '\U{212A}'
  /** LATIN CAPITAL LETTER I WITH DOT ABOVE, lower-cased to "i" + COMBINING DOT ABOVE. */
  const CapitalIWithDot: char := '\U{0130}'
  const CombiningDotAbove: char := '\U{0307}'

  /**
   * The lower case of one character. ASCII capitals and the only two non-ASCII
   * characters whose lower case contains an ASCII character are mapped exactly;
   * every other character is kept as it is. A non-ASCII character other than
   * those two has a non-ASCII lower case, so the choice never changes which
   * characters of the result are ASCII.
   */
  function LowerChar(c: char): (r: seq<char>)
    ensures |r| >= 1
    ensures forall i :: 0 <= i < |r| ==> !IsAsciiUpper(r[i])
    ensures '.' in r <==> c == '.'
    ensures '/' in r <==> c == '/'
  {
    if IsAsciiUpper(c) then [(c as int + 32) as char]
    else if c == KelvinSign then ['k']
    else if c == CapitalIWithDot then ['i', CombiningDotAbove]
    else [c]
  }

  /** `s.toLowerCase()` */
  function ToLowerCase(s: string): (r: string)
    ensures forall i :: 0 <= i < |r| ==> !IsAsciiUpper(r[i])
    ensures |r| >= |s|
  {
    if s == [] then [] else LowerChar(s[0]) + ToLowerCase(s[1..])
  }

  lemma {:induction false} ToLowerCaseAppend(a: string, b: string)
    ensures ToLowerCase(a + b) == ToLowerCase(a) + ToLowerCase(b)
  {
    if a == [] {
      assert a + b == b;
    } else {
      assert (a + b)[0] == a[0];
      assert (a + b)[1..] == a[1..] + b;
      ToLowerCaseAppend(a[1..], b);
    }
  }

  /** Upper-cases ASCII letters only; the inverse of lower-casing on ASCII text. */
  function AsciiUpperChar(c: char): char {
    if IsAsciiLower(c) then (c as int - 32) as char else c
  }

  function AsciiUpper(s: string): (r: string)
    ensures |r| == |s|
    ensures forall i :: 0 <= i < |s| ==> r[i] == AsciiUpperChar(s[i])
  {
    if s == [] then [] else [AsciiUpperChar(s[0])] + AsciiUpper(s[1..])
  }

  /** Lower-casing forgets ASCII case: upper-casing first changes nothing. */
  lemma {:induction false} LowerOfUpper(s: string)
    ensures ToLowerCase(AsciiUpper(s)) == ToLowerCase(s)
  {
    if s != [] {
      assert AsciiUpper(s)[1..] == AsciiUpper(s[1..]);
      LowerOfUpper(s[1..]);
    }
  }

  function DigitChar(d: nat): (c: char)
    requires d < 10
    ensures IsDigit(c) && c as int - '0' as int == d
  {
    ('0' as int + d) as char
  }

  function DigitValue(c: char): nat
    requires IsDigit(c)
  {
    c as int - '0' as int
  }

  /** `String(n)` for a non-negative integer: its decimal digits, no leading zeros. */
  function NatToString(n: nat): (s: string)
    ensures |s| >= 1
    ensures forall i :: 0 <= i < |s| ==> IsDigit(s[i])
    ensures n >= 10 ==> |s| >= 2
  {
    if n < 10 then [DigitChar(n)] else NatToString(n / 10) + [DigitChar(n % 10)]
  }

  predicate AllDigits(s: string) {
    forall i :: 0 <= i < |s| ==> IsDigit(s[i])
  }

  /** Reads a run of decimal digits back as a number. */
  function ParseDigits(s: string): nat
    requires AllDigits(s)
  {
    if s == [] then 0 else ParseDigits(s[..|s| - 1]) * 10 + DigitValue(s[|s| - 1])
  }

  /** The decimal rendering is read back exactly. */
  lemma {:induction false} ParseNatToString(n: nat)
    ensures ParseDigits(NatToString(n)) == n
  {
    if n >= 10 {
      var s := NatToString(n);
      assert s[..|s| - 1] == NatToString(n / 10);
      ParseNatToString(n / 10);
    }
  }

  /** Distinct numbers have distinct decimal renderings. */
  lemma NatToStringInjective(a: nat, b: nat)
    requires NatToString(a) == NatToString(b)
    ensures a == b
  {
    ParseNatToString(a);
    ParseNatToString(b);
  }

  /** `String(i)` for any integer. */
  function IntToString(i: int): (s: string)
    ensures |s| >= 1
    ensures i >= 0 ==> AllDigits(s)
    ensures i < 0 ==> s[0] == '-'
  {
    if i < 0 then "-" + NatToString(-i) else NatToString(i)
  }

  /** Reads `String(i)` back: an optional '-' followed by decimal digits; anything else reads as 0. */
  function ParseInt(s: string): int {
    if s != [] && s[0] == '-' && AllDigits(s[1..]) then -(ParseDigits(s[1..]) as int)
    else if AllDigits(s) then ParseDigits(s)
    else 0
  }

  /** The decimal rendering of any integer is read back exactly. */
  lemma ParseIntToString(i: int)
    ensures ParseInt(IntToString(i)) == i
  {
    var s := IntToString(i);
    if i < 0 {
      assert s[1..] == NatToString(-i);
      ParseNatToString(-i);
    } else {
      ParseNatToString(i);
    }
  }

  function Repeat(c: char, n: nat): (s: string)
    ensures |s| == n
    ensures forall i :: 0 <= i < n ==> s[i] == c
  {
    if n == 0 then [] else [c] + Repeat(c, n - 1)
  }

  /** `s.padStart(2, '0')` */
  function PadStart2(s: string): (r: string)
    ensures |r| == if |s| >= 2 then |s| else 2
    ensures r[|r| - |s|..] == s
    ensures forall i :: 0 <= i < |r| - |s| ==> r[i] == '0'
  {
    if |s| >= 2 then s else Repeat('0', 2 - |s|) + s
  }

  /** A string is a suffix of another. */
  predicate IsSuffix(suffix: string, s: string) {
    |suffix| <= |s| && s[|s| - |suffix|..] == suffix
  }

  predicate IsPrefix(prefix: string, s: string) {
    |prefix| <= |s| && s[..|prefix|] == prefix
  }

  /** Cancels a common prefix and suffix from an equation between strings. */
  lemma CancelAffixes(p: string, x: string, y: string, q: string)
    requires p + x + q == p + y + q
    ensures x == y
  {
    assert |x| == |y|;
    assert x == (p + x + q)[|p|..|p| + |x|];
    assert y == (p + y + q)[|p|..|p| + |y|];
  }

  /** A subset is no larger, and only as large when it is the whole set. */
  lemma {:induction false} SubsetSize<T>(a: set<T>, b: set<T>)
    requires a <= b
    ensures |a| <= |b|
    ensures |a| == |b| ==> a == b
  {
    if a != {} {
      var x :| x in a;
      SubsetSize(a - {x}, b - {x});
    }
  }

  /** The values `f` takes on `[from, n)`. */
  function Image<T>(f: nat -> T, from: nat, n: nat): set<T> {
    set k: nat | from <= k < n :: f(k)
  }

  /** An injective function on `[from, n)` has an image of `n - from` elements. */
  lemma {:induction false} InjectiveImageSize<T>(f: nat -> T, from: nat, n: nat)
    requires from <= n
    requires forall j: nat, k: nat :: from <= j < k < n ==> f(j) != f(k)
    ensures |Image(f, from, n)| == n - from
    decreases n - from
  {
    if n > from {
      InjectiveImageSize(f, from, n - 1);
      assert Image(f, from, n) == Image(f, from, n - 1) + {f(n - 1)};
      assert f(n - 1) !in Image(f, from, n - 1);
    }
  }
}
