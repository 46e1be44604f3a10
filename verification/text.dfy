/**
 * String helpers shared by the Rust engine and the Python wrapper:
 * padding, whitespace trimming, decimal rendering and UTF-8 length.
 * Strings are sequences of Unicode scalar values (`char`).
 */
module Text {

  /** A run of `k` ASCII spaces. */
  function Spaces(k: nat): (r: string)
    ensures |r| == k
    ensures forall i :: 0 <= i < k ==> r[i] == ' '
  {
    seq(k, _ => ' ')
  }

  /** Rust's `char::is_whitespace`: the Unicode White_Space property. */
  predicate IsRustWhitespace(c: char)
  {
    var k := c as int;
    (9 <= k <= 13) || k == 0x20 || k == 0x85 || k == 0xA0 || k == 0x1680
    || (0x2000 <= k <= 0x200A) || k == 0x2028 || k == 0x2029 || k == 0x202F
    || k == 0x205F || k == 0x3000
  }

  /**
   * Python's `str.isspace` on one character: White_Space plus the four
   * information separators U+001C..U+001F.
   */
  predicate IsPyWhitespace(c: char)
  {
    IsRustWhitespace(c) || (0x1C <= c as int <= 0x1F)
  }

  /** Rust's `str::trim_start`: drop the leading whitespace, keep the rest. */
  function TrimStart(s: string): (r: string)
    ensures |r| <= |s| && r == s[|s| - |r|..]
    ensures forall i :: 0 <= i < |s| - |r| ==> IsRustWhitespace(s[i])
    ensures r == [] || !IsRustWhitespace(r[0])
  {
    if s != [] && IsRustWhitespace(s[0]) then TrimStart(s[1..]) else s
  }

  /** Python's `str.rstrip()` with no argument. */
  function RStrip(s: string): (r: string)
    ensures |r| <= |s| && r == s[..|r|]
    ensures forall i :: |r| <= i < |s| ==> IsPyWhitespace(s[i])
    ensures r == [] || !IsPyWhitespace(r[|r| - 1])
  {
    if s != [] && IsPyWhitespace(s[|s| - 1]) then RStrip(s[..|s| - 1]) else s
  }

  /**
   * Rust's `trim_end_matches(ch)` and Python's `rstrip(ch)` for a single
   * character: drop every trailing copy of `ch`.
   */
  function TrimEndChar(s: string, ch: char): (r: string)
    ensures |r| <= |s| && r == s[..|r|]
    ensures forall i :: |r| <= i < |s| ==> s[i] == ch
    ensures r == [] || r[|r| - 1] != ch
  {
    if s != [] && s[|s| - 1] == ch then TrimEndChar(s[..|s| - 1], ch) else s
  }

  function DigitChar(d: nat): (c: char)
    requires d < 10
    ensures '0' <= c <= '9' && c as int - '0' as int == d
  {
    (d + '0' as int) as char
  }

  /** Decimal rendering of a natural number, as Rust's `to_string` and Python's `%d` give it. */
  function ToDecimal(n: nat): (r: string)
    ensures |r| >= 1
    ensures forall i :: 0 <= i < |r| ==> '0' <= r[i] <= '9'
    decreases n
  {
    if n < 10 then [DigitChar(n)] else ToDecimal(n / 10) + [DigitChar(n % 10)]
  }

  /** Reading a string of decimal digits back as a number. */
  function ParseDecimal(s: string): nat
    requires forall i :: 0 <= i < |s| ==> '0' <= s[i] <= '9'
  {
    if s == [] then 0
    else 10 * ParseDecimal(s[..|s| - 1]) + (s[|s| - 1] as int - '0' as int)
  }

  function Pow10(k: nat): (r: nat)
    ensures r >= 1
  {
    if k == 0 then 1 else 10 * Pow10(k - 1)
  }

  /** The decimal rendering reads back as the number it renders. */
  lemma {:induction false} ParseToDecimal(n: nat)
    ensures ParseDecimal(ToDecimal(n)) == n
    decreases n
  {
    if n >= 10 {
      ParseToDecimal(n / 10);
      var s := ToDecimal(n);
      assert s[..|s| - 1] == ToDecimal(n / 10);
    }
  }

  /**
   * The rendering has exactly as many characters as the number has digits:
   * one for zero, and k with 10^(k-1) <= n < 10^k otherwise; a positive
   * number never starts with '0'.
   */
  lemma {:induction false} DecimalLength(n: nat)
    ensures n == 0 ==> ToDecimal(n) == "0"
    ensures n > 0 ==> Pow10(|ToDecimal(n)| - 1) <= n < Pow10(|ToDecimal(n)|)
    ensures n > 0 ==> ToDecimal(n)[0] != '0'
    decreases n
  {
    if n >= 10 {
      DecimalLength(n / 10);
    }
  }

  /** Bytes taken by one character in UTF-8. */
  function Utf8Width(c: char): (w: nat)
    ensures 1 <= w <= 4
  {
    var k := c as int;
    if k < 0x80 then 1 else if k < 0x800 then 2 else if k < 0x10000 then 3 else 4
  }

  /** Rust's `str::len`: the UTF-8 byte length. */
  function Utf8Len(s: string): (r: nat)
    ensures |s| <= r <= 4 * |s|
  {
    if s == [] then 0 else Utf8Width(s[0]) + Utf8Len(s[1..])
  }
}
