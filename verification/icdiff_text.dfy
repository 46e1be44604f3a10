/**
 * The string layer of the Python side-by-side renderer: `str.replace`
 * and the ordered replacement table, East Asian display width, the ANSI
 * colour codes, and the escape-aware "real length" with the padding
 * built on it.
 */
module IcdiffText {
  import opened Text

  const ESC: char := 27 as char

  // ---------------------------------------------------------------
  // str.replace and replace_all
  // ---------------------------------------------------------------

  /** `pat` occurs in `s` starting at position `j`. */
  predicate At(s: string, j: nat, pat: string)
  {
    j + |pat| <= |s| && s[j..j + |pat|] == pat
  }

  /** `c` does not occur in `s`. */
  predicate Without(s: string, c: char)
  {
    forall j :: 0 <= j < |s| ==> s[j] != c
  }

  /**
   * Python's `s.replace(pat, rep)`: occurrences are found left to right
   * and do not overlap; the empty pattern matches before every character
   * and once more at the end.
   */
  function Replace(s: string, pat: string, rep: string): string
  {
    ReplaceAt(s, 0, pat, rep)
  }

  /** How far the scan of `Replace` advances from position `i`: past a match, or one character. */
  function Step(s: string, i: nat, pat: string): (n: nat)
    requires i < |s|
    ensures 1 <= n && i + n <= |s|
    ensures n > 1 ==> At(s, i, pat)
  {
    if pat != [] && At(s, i, pat) then |pat| else 1
  }

  /** What the scan of `Replace` emits at position `i`. */
  function Piece(s: string, i: nat, pat: string, rep: string): string
    requires i < |s|
  {
    if pat == [] then rep + [s[i]] else if At(s, i, pat) then rep else [s[i]]
  }

  /** The scan of `Replace` from position `i` of `s` on. */
  function ReplaceAt(s: string, i: nat, pat: string, rep: string): string
    requires i <= |s|
    decreases |s| - i
  {
    if i == |s| then (if pat == [] then rep else [])
    else Piece(s, i, pat, rep) + ReplaceAt(s, i + Step(s, i, pat), pat, rep)
  }

  /** `s` from position `k` on and `x` from position `i` on hold the same characters. */
  predicate SameFrom(s: string, k: nat, x: string, i: nat)
  {
    k <= |s| && i <= |x| && |s| - k == |x| - i
    && forall j :: k <= j < |s| ==> s[j] == x[j - k + i]
  }

  /** Equal tails take the same step and emit the same piece. */
  lemma SameFromStep(s: string, k: nat, x: string, i: nat, pat: string, rep: string)
    requires SameFrom(s, k, x, i) && i < |x|
    ensures SameFrom(s, k + Step(x, i, pat), x, i + Step(x, i, pat))
    ensures Step(s, k, pat) == Step(x, i, pat)
    ensures Piece(s, k, pat, rep) == Piece(x, i, pat, rep)
  {
    assert s[k] == x[i];
    if i + |pat| <= |x| {
      var u, v := s[k..k + |pat|], x[i..i + |pat|];
      forall j | 0 <= j < |pat|
        ensures u[j] == v[j]
      {
        assert s[k + j] == x[i + j];
      }
      assert u == v;
    }
  }

  /** The scan of a tail depends only on the characters in it. */
  lemma {:induction false} ReplaceAtSame(s: string, k: nat, x: string, i: nat, pat: string, rep: string)
    requires SameFrom(s, k, x, i)
    ensures ReplaceAt(s, k, pat, rep) == ReplaceAt(x, i, pat, rep)
    decreases |x| - i
  {
    if i < |x| {
      SameFromStep(s, k, x, i, pat, rep);
      var n := Step(x, i, pat);
      ReplaceAtSame(s, k + n, x, i + n, pat, rep);
      assert ReplaceAt(s, k, pat, rep) == Piece(s, k, pat, rep) + ReplaceAt(s, k + n, pat, rep);
      assert ReplaceAt(x, i, pat, rep) == Piece(x, i, pat, rep) + ReplaceAt(x, i + n, pat, rep);
    } else {
      assert k == |s|;
    }
  }

  /** The scan from position `i` is `Replace` on what is left. */
  lemma ReplaceAtRest(s: string, i: nat, pat: string, rep: string)
    requires i <= |s|
    ensures ReplaceAt(s, i, pat, rep) == Replace(s[i..], pat, rep)
  {
    ReplaceAtSame(s, i, s[i..], 0, pat, rep);
  }

  /** One step of `Replace` at an occurrence of a non-empty pattern. */
  lemma ReplaceMatch(s: string, pat: string, rep: string)
    requires pat != [] && At(s, 0, pat)
    ensures Replace(s, pat, rep) == rep + Replace(s[|pat|..], pat, rep)
  {
    ReplaceAtRest(s, |pat|, pat, rep);
  }

  /** One step of `Replace` past a character that does not begin an occurrence. */
  lemma ReplaceSkip(s: string, pat: string, rep: string)
    requires pat != [] && s != [] && !At(s, 0, pat)
    ensures Replace(s, pat, rep) == [s[0]] + Replace(s[1..], pat, rep)
  {
    ReplaceAtRest(s, 1, pat, rep);
  }

  /** `Replace` on the empty string. */
  lemma ReplaceEmpty(pat: string, rep: string)
    ensures Replace([], pat, rep) == (if pat == [] then rep else [])
  {
  }

  /** With no occurrence of a non-empty pattern from `i` on, the scan copies the rest. */
  lemma {:induction false} ReplaceAtAbsent(s: string, i: nat, pat: string, rep: string)
    requires pat != [] && i <= |s|
    requires forall j :: i <= j < |s| ==> !At(s, j, pat)
    ensures ReplaceAt(s, i, pat, rep) == s[i..]
    decreases |s| - i
  {
    if i < |s| {
      assert !At(s, i, pat);
      ReplaceAtAbsent(s, i + 1, pat, rep);
      assert s[i..] == [s[i]] + s[i + 1..];
    }
  }

  /** With no occurrence of a non-empty pattern, replacing changes nothing. */
  lemma ReplaceAbsent(s: string, pat: string, rep: string)
    requires pat != []
    requires forall j :: 0 <= j < |s| ==> !At(s, j, pat)
    ensures Replace(s, pat, rep) == s
  {
    ReplaceAtAbsent(s, 0, pat, rep);
  }

  /** An occurrence of a non-empty pattern begins with the pattern's first character. */
  lemma AtHead(s: string, j: nat, pat: string)
    requires pat != [] && At(s, j, pat)
    ensures s[j] == pat[0]
  {
    assert s[j..j + |pat|][0] == s[j];
  }

  /** A pattern whose first character is missing from `s` does not occur in it. */
  lemma NoFirstNoMatch(s: string, pat: string)
    requires pat != [] && Without(s, pat[0])
    ensures forall j :: 0 <= j < |s| ==> !At(s, j, pat)
  {
    forall j | 0 <= j < |s|
      ensures !At(s, j, pat)
    {
      if At(s, j, pat) {
        AtHead(s, j, pat);
      }
    }
  }

  /** The scan keeps out a character absent from both `s` and `rep`. */
  lemma {:induction false} ReplaceAtKeepsOut(s: string, i: nat, pat: string, rep: string, c: char)
    requires i <= |s| && Without(s, c) && Without(rep, c)
    ensures Without(ReplaceAt(s, i, pat, rep), c)
    decreases |s| - i
  {
    if i < |s| {
      ReplaceAtKeepsOut(s, i + Step(s, i, pat), pat, rep, c);
    }
  }

  /** A character absent from both `s` and `rep` is absent from the result. */
  lemma ReplaceKeepsOut(s: string, pat: string, rep: string, c: char)
    requires Without(s, c) && Without(rep, c)
    ensures Without(Replace(s, pat, rep), c)
  {
    ReplaceAtKeepsOut(s, 0, pat, rep, c);
  }

  /** A prefix free of the pattern's first character passes through untouched. */
  lemma {:induction false} ReplacePrefix(a: string, x: string, pat: string, rep: string)
    requires pat != [] && Without(a, pat[0])
    ensures Replace(a + x, pat, rep) == a + Replace(x, pat, rep)
    decreases |a|
  {
    if a == [] {
      assert a + x == x;
    } else {
      var s := a + x;
      assert s[0] == a[0];
      if At(s, 0, pat) {
        AtHead(s, 0, pat);
      }
      ReplaceSkip(s, pat, rep);
      assert s[1..] == a[1..] + x;
      ReplacePrefix(a[1..], x, pat, rep);
      assert a == [a[0]] + a[1..];
    }
  }

  /**
   * `b` can follow a match of `pat` without taking part in one: it lacks
   * the pattern's first character, and cannot complete a two-character
   * pattern begun just before it.
   */
  predicate Trails(pat: string, b: string)
  {
    1 <= |pat| <= 2 && Without(b, pat[0]) && (|pat| == 2 && b != [] ==> b[0] != pat[1])
  }

  /** At the start of a non-empty `x`, a trailing `b` does not change whether the pattern occurs. */
  lemma AtTrailing(x: string, b: string, pat: string)
    requires x != [] && Trails(pat, b)
    ensures At(x + b, 0, pat) == At(x, 0, pat)
  {
    var s := x + b;
    if |x| < |pat| {
      // then |pat| == 2 and x has one character
      if b != [] {
        assert s[1] == b[0];
        assert s[0..2][1] == s[1];
      }
    } else {
      assert s[0..|pat|] == x[0..|pat|];
    }
  }

  /** The step of `ReplaceSuffix` at a match. */
  lemma SuffixMatch(x: string, b: string, pat: string, rep: string)
    requires Trails(pat, b) && x != [] && At(x, 0, pat)
    requires Replace(x[|pat|..] + b, pat, rep) == Replace(x[|pat|..], pat, rep) + b
    ensures Replace(x + b, pat, rep) == Replace(x, pat, rep) + b
  {
    var s := x + b;
    AtTrailing(x, b, pat);
    ReplaceMatch(s, pat, rep);
    ReplaceMatch(x, pat, rep);
    assert s[|pat|..] == x[|pat|..] + b;
  }

  /** The step of `ReplaceSuffix` past a character. */
  lemma SuffixSkip(x: string, b: string, pat: string, rep: string)
    requires Trails(pat, b) && x != [] && !At(x, 0, pat)
    requires Replace(x[1..] + b, pat, rep) == Replace(x[1..], pat, rep) + b
    ensures Replace(x + b, pat, rep) == Replace(x, pat, rep) + b
  {
    var s := x + b;
    AtTrailing(x, b, pat);
    ReplaceSkip(s, pat, rep);
    ReplaceSkip(x, pat, rep);
    assert s[1..] == x[1..] + b;
  }

  /**
   * A suffix free of the pattern's first character, and which cannot
   * complete a two-character pattern begun just before it, passes
   * through untouched.
   */
  lemma {:induction false} ReplaceSuffix(x: string, b: string, pat: string, rep: string)
    requires Trails(pat, b)
    ensures Replace(x + b, pat, rep) == Replace(x, pat, rep) + b
    decreases |x|
  {
    if x == [] {
      assert x + b == b;
      NoFirstNoMatch(b, pat);
      ReplaceAbsent(b, pat, rep);
      ReplaceEmpty(pat, rep);
    } else if At(x, 0, pat) {
      ReplaceSuffix(x[|pat|..], b, pat, rep);
      SuffixMatch(x, b, pat, rep);
    } else {
      ReplaceSuffix(x[1..], b, pat, rep);
      SuffixSkip(x, b, pat, rep);
    }
  }

  /** A one-character replacement maps each character on its own. */
  lemma ReplaceChar(s: string, c: char, d: char)
    requires s != []
    ensures Replace(s, [c], [d]) == [if s[0] == c then d else s[0]] + Replace(s[1..], [c], [d])
  {
    if s[0] == c {
      assert At(s, 0, [c]);
      ReplaceMatch(s, [c], [d]);
    } else {
      assert s[0..1] == [s[0]];
      ReplaceSkip(s, [c], [d]);
    }
  }

  /** Replacing one character by another leaves no copy of the first behind. */
  lemma {:induction false} ReplaceEliminates(s: string, c: char, d: char)
    requires c != d
    ensures Without(Replace(s, [c], [d]), c)
    decreases |s|
  {
    if s != [] {
      ReplaceChar(s, c, d);
      ReplaceEliminates(s[1..], c, d);
    }
  }

  /** Swapping `c` for a character `d` that `s` lacks, then back, is the identity. */
  lemma {:induction false} ReplaceRoundTrip(s: string, c: char, d: char)
    requires Without(s, d)
    ensures Replace(Replace(s, [c], [d]), [d], [c]) == s
    decreases |s|
  {
    if s == [] {
      ReplaceEmpty([c], [d]);
      ReplaceEmpty([d], [c]);
    } else {
      var t := Replace(s[1..], [c], [d]);
      ReplaceRoundTrip(s[1..], c, d);
      ReplaceChar(s, c, d);
      var h := if s[0] == c then d else s[0];
      ReplaceChar([h] + t, d, c);
      assert ([h] + t)[0] == h && ([h] + t)[1..] == t;
      assert s == [s[0]] + s[1..];
    }
  }

  /**
   * `replace_all`: the replacements of a dictionary applied one after
   * another, in the dictionary's insertion order.
   */
  function Applied(reps: seq<(string, string)>, s: string): string
  {
    AppliedUpTo(reps, |reps|, s)
  }

  /** The first `n` replacements of `reps` applied in order. */
  function AppliedUpTo(reps: seq<(string, string)>, n: nat, s: string): string
    requires n <= |reps|
  {
    if n == 0 then s else Replace(AppliedUpTo(reps, n - 1, s), reps[n - 1].0, reps[n - 1].1)
  }

  /** `replace_all` as the source writes it: reassign the string once per entry. */
  method ReplaceAll(reps: seq<(string, string)>, s: string) returns (r: string)
    ensures r == Applied(reps, s)
  {
    r := s;
    for i := 0 to |reps|
      invariant r == AppliedUpTo(reps, i, s)
    {
      r := Replace(r, reps[i].0, reps[i].1);
    }
  }

  /** The pattern `pat` cannot match inside, or across the edges of, the surroundings `a` and `b`. */
  predicate Framed(pat: string, a: string, b: string)
  {
    Trails(pat, b) && Without(a, pat[0])
  }

  lemma ReplaceFrame(a: string, x: string, b: string, pat: string, rep: string)
    requires Framed(pat, a, b)
    ensures Replace(a + x + b, pat, rep) == a + Replace(x, pat, rep) + b
  {
    ReplacePrefix(a, x + b, pat, rep);
    ReplaceSuffix(x, b, pat, rep);
    assert a + x + b == a + (x + b);
  }

  /** Replacements whose patterns are all framed by `a` and `b` act on the middle only. */
  lemma {:induction false} AppliedFrame(reps: seq<(string, string)>, n: nat, a: string, x: string, b: string)
    requires n <= |reps|
    requires forall k :: 0 <= k < |reps| ==> Framed(reps[k].0, a, b)
    ensures AppliedUpTo(reps, n, a + x + b) == a + AppliedUpTo(reps, n, x) + b
  {
    if n > 0 {
      AppliedFrame(reps, n - 1, a, x, b);
      ReplaceFrame(a, AppliedUpTo(reps, n - 1, x), b, reps[n - 1].0, reps[n - 1].1);
    }
  }

  /** `AppliedFrame` with nothing in front. */
  lemma {:induction false} AppliedFrameRight(reps: seq<(string, string)>, n: nat, x: string, b: string)
    requires n <= |reps|
    requires forall k :: 0 <= k < |reps| ==> Trails(reps[k].0, b)
    ensures AppliedUpTo(reps, n, x + b) == AppliedUpTo(reps, n, x) + b
  {
    if n > 0 {
      AppliedFrameRight(reps, n - 1, x, b);
      ReplaceSuffix(AppliedUpTo(reps, n - 1, x), b, reps[n - 1].0, reps[n - 1].1);
    }
  }

  /** A character in neither the string nor any replacement never appears. */
  lemma {:induction false} AppliedKeepsOut(reps: seq<(string, string)>, n: nat, s: string, c: char)
    requires n <= |reps|
    requires Without(s, c)
    requires forall k :: 0 <= k < |reps| ==> Without(reps[k].1, c)
    ensures Without(AppliedUpTo(reps, n, s), c)
  {
    if n > 0 {
      AppliedKeepsOut(reps, n - 1, s, c);
      ReplaceKeepsOut(AppliedUpTo(reps, n - 1, s), reps[n - 1].0, reps[n - 1].1, c);
    }
  }

  // ---------------------------------------------------------------
  // _display_len
  // ---------------------------------------------------------------

  /**
   * Width of one character: 2 when the East Asian width class is F or W
   * (`eaw` stands for `unicodedata.east_asian_width(c) in ["F", "W"]`)
   * and for a carriage return, 1 otherwise.
   */
  function CharWidth(eaw: char -> bool, c: char): (w: nat)
    ensures w == 1 || w == 2
    ensures w == 2 <==> eaw(c) || c == '\r'
  {
    if eaw(c) then 2 else if c == '\r' then 2 else 1
  }

  /** `_display_len`: the sum of the character widths. */
  function DisplayLen(eaw: char -> bool, s: string): (r: nat)
    ensures |s| <= r <= 2 * |s|
  {
    if s == [] then 0 else DisplayLen(eaw, s[..|s| - 1]) + CharWidth(eaw, s[|s| - 1])
  }

  /** The width of a concatenation is the sum of the widths. */
  lemma {:induction false} DisplayLenAppend(eaw: char -> bool, a: string, b: string)
    ensures DisplayLen(eaw, a + b) == DisplayLen(eaw, a) + DisplayLen(eaw, b)
    decreases |b|
  {
    if b == [] {
      assert a + b == a;
    } else {
      assert (a + b)[..|a + b| - 1] == a + b[..|b| - 1];
      DisplayLenAppend(eaw, a, b[..|b| - 1]);
    }
  }

  /** A string of narrow characters is as wide as it is long. */
  lemma {:induction false} DisplayLenNarrow(eaw: char -> bool, s: string)
    requires forall j :: 0 <= j < |s| ==> !eaw(s[j]) && s[j] != '\r'
    ensures DisplayLen(eaw, s) == |s|
    decreases |s|
  {
    if s != [] {
      DisplayLenNarrow(eaw, s[..|s| - 1]);
    }
  }

  /** Replacing a character by one of the same width keeps the display length. */
  lemma {:induction false} DisplayLenReplace(eaw: char -> bool, s: string, c: char, d: char)
    requires CharWidth(eaw, c) == CharWidth(eaw, d)
    ensures DisplayLen(eaw, Replace(s, [c], [d])) == DisplayLen(eaw, s)
    decreases |s|
  {
    if s != [] {
      var t := Replace(s[1..], [c], [d]);
      DisplayLenReplace(eaw, s[1..], c, d);
      var h := if s[0] == c then d else s[0];
      ReplaceChar(s, c, d);
      DisplayLenAppend(eaw, [h], t);
      DisplayLenAppend(eaw, [s[0]], s[1..]);
      assert s == [s[0]] + s[1..];
      assert DisplayLen(eaw, [h]) == CharWidth(eaw, h);
      assert DisplayLen(eaw, [s[0]]) == CharWidth(eaw, s[0]);
    }
  }

  // ---------------------------------------------------------------
  // Colour codes
  // ---------------------------------------------------------------

  /** The keys of `color_codes`. */
  datatype Color =
    | Black | Red | Green | Yellow | Blue | Magenta | Cyan | White | NoColor
    | BlackBold | RedBold | GreenBold | YellowBold | BlueBold | MagentaBold | CyanBold | WhiteBold

  /** `color_codes`: the ANSI select-graphic-rendition sequence of each colour. */
  function Code(c: Color): string
  {
    match c
    case Black => "\U{1B}[0;30m"
    case Red => "\U{1B}[0;31m"
    case Green => "\U{1B}[0;32m"
    case Yellow => "\U{1B}[0;33m"
    case Blue => "\U{1B}[0;34m"
    case Magenta => "\U{1B}[0;35m"
    case Cyan => "\U{1B}[0;36m"
    case White => "\U{1B}[0;37m"
    case NoColor => "\U{1B}[m"
    case BlackBold => "\U{1B}[1;30m"
    case RedBold => "\U{1B}[1;31m"
    case GreenBold => "\U{1B}[1;32m"
    case YellowBold => "\U{1B}[1;33m"
    case BlueBold => "\U{1B}[1;34m"
    case MagentaBold => "\U{1B}[1;35m"
    case CyanBold => "\U{1B}[1;36m"
    case WhiteBold => "\U{1B}[1;37m"
  }

  /** The keys of `color_mapping`. */
  datatype Category = Add | Subtract | Change | Separator | Description | Permissions | Meta | LineNumbers

  /** `color_mapping`: the colour of each category. */
  function ColorOf(cat: Category): Color
  {
    match cat
    case Add => GreenBold
    case Subtract => RedBold
    case Change => YellowBold
    case Separator => Blue
    case Description => Blue
    case Permissions => Yellow
    case Meta => Magenta
    case LineNumbers => White
  }

  /** `raw_colorize`: the colour's code, the text, then the reset code. */
  function RawColorize(s: string, color: Color): (r: string)
    ensures |r| == |Code(color)| + |s| + |Code(NoColor)|
  {
    Code(color) + s + Code(NoColor)
  }

  /** `simple_colorize`: colour the text by its category. */
  function SimpleColorize(s: string, cat: Category): (r: string)
    ensures |r| == |Code(ColorOf(cat))| + |s| + |Code(NoColor)|
  {
    RawColorize(s, ColorOf(cat))
  }

  /** The coloured text starts with the colour's code, ends with the reset code and holds the text unchanged between them. */
  lemma RawColorizeParts(s: string, color: Color)
    ensures var r, c := RawColorize(s, color), Code(color);
      && r[..|c|] == c
      && r[|c|..|r| - |Code(NoColor)|] == s
      && r[|r| - |Code(NoColor)|..] == Code(NoColor)
  {
  }

  /** Colouring by category is colouring with the category's colour. */
  lemma SimpleColorizeParts(s: string, cat: Category)
    ensures var r, c := SimpleColorize(s, cat), Code(ColorOf(cat));
      && r[..|c|] == c
      && r[|c|..|r| - |Code(NoColor)|] == s
      && r[|r| - |Code(NoColor)|..] == Code(NoColor)
  {
    RawColorizeParts(s, ColorOf(cat));
  }

  /**
   * An SGR sequence: ESC, '[', parameters free of 'm', ESC and the
   * renderer's own markers, then 'm'.
   */
  predicate Sgr(code: string)
  {
    |code| >= 3 && code[0] == ESC && code[1] == '[' && code[|code| - 1] == 'm'
    && forall j :: 2 <= j < |code| - 1 ==>
         code[j] != 'm' && code[j] != ESC && code[j] != '\0' && code[j] != '\U{1}' && code[j] != '\t'
  }

  /** An SGR sequence contains none of the renderer's markers. */
  lemma SgrClean(code: string)
    requires Sgr(code)
    ensures Without(code, '\0') && Without(code, '\U{1}') && Without(code, '\t')
    ensures code[0] == ESC
  {
  }

  lemma CodeIsSgr(c: Color)
    ensures Sgr(Code(c))
  {
  }

  // ---------------------------------------------------------------
  // _real_len
  // ---------------------------------------------------------------

  /** The loop variables of `_real_len`: `s_len`, `in_esc` and `prev`. */
  datatype ScanState = ScanState(len: int, inEsc: bool, prev: char)

  const Start: ScanState := ScanState(0, false, ' ')

  /** The markers `_real_len` deletes first, and tab counted as one space. */
  const Cleanups: seq<(string, string)> :=
    [("\0+", ""), ("\0-", ""), ("\0^", ""), ("\U{1}", ""), ("\t", " ")]

  /** One turn of the `_real_len` loop on character `c`. */
  function Advance(eaw: char -> bool, st: ScanState, c: char): ScanState
  {
    if st.inEsc then ScanState(st.len, c != 'm', c)
    else if c == '[' && st.prev == ESC then ScanState(st.len - 1, true, c)
    else ScanState(st.len + CharWidth(eaw, c), false, c)
  }

  /** The state after the loop has consumed `t`, starting from `st`. */
  function ScanFrom(eaw: char -> bool, st: ScanState, t: string): ScanState
    decreases |t|
  {
    if t == [] then st else Advance(eaw, ScanFrom(eaw, st, t[..|t| - 1]), t[|t| - 1])
  }

  /**
   * The loop never drives the count negative: an ESC that a '[' later
   * discounts was itself counted.
   */
  predicate Sound(st: ScanState)
  {
    st.len >= 0 && (!st.inEsc && st.prev == ESC ==> st.len >= 1)
  }

  lemma {:induction false} ScanSound(eaw: char -> bool, st: ScanState, t: string)
    requires Sound(st)
    ensures Sound(ScanFrom(eaw, st, t))
    decreases |t|
  {
    if t != [] {
      ScanSound(eaw, st, t[..|t| - 1]);
    }
  }

  /** `_real_len`: the width of `s` on a terminal, markers and escapes excluded. */
  function RealLength(eaw: char -> bool, s: string): (r: int)
    ensures r >= 0
  {
    ScanSound(eaw, Start, Applied(Cleanups, s));
    ScanFrom(eaw, Start, Applied(Cleanups, s)).len
  }

  /** `_real_len` as the source writes it: one pass over the cleaned string. */
  method RealLen(eaw: char -> bool, s: string) returns (sLen: int)
    ensures sLen == RealLength(eaw, s)
  {
    var t := ReplaceAll(Cleanups, s);
    sLen := 0;
    var inEsc := false;
    var prev := ' ';
    for i := 0 to |t|
      invariant ScanState(sLen, inEsc, prev) == ScanFrom(eaw, Start, t[..i])
    {
      assert t[..i + 1][..i] == t[..i];
      var c := t[i];
      if inEsc {
        if c == 'm' {
          inEsc := false;
        }
      } else {
        if c == '[' && prev == ESC {
          inEsc := true;
          sLen := sLen - 1;
        } else {
          sLen := sLen + CharWidth(eaw, c);
        }
      }
      prev := c;
    }
    assert t[..|t|] == t;
  }

  /** Consuming `a + b` is consuming `a`, then `b`. */
  lemma {:induction false} ScanConcat(eaw: char -> bool, st: ScanState, a: string, b: string)
    ensures ScanFrom(eaw, st, a + b) == ScanFrom(eaw, ScanFrom(eaw, st, a), b)
    decreases |b|
  {
    if b == [] {
      assert a + b == a;
    } else {
      assert (a + b)[..|a + b| - 1] == a + b[..|b| - 1];
      ScanConcat(eaw, st, a, b[..|b| - 1]);
    }
  }

  /** The count is carried along: starting higher by `k` ends higher by `k`. */
  lemma {:induction false} ScanShift(eaw: char -> bool, st: ScanState, k: int, t: string)
    ensures ScanFrom(eaw, st.(len := st.len + k), t)
         == ScanFrom(eaw, st, t).(len := ScanFrom(eaw, st, t).len + k)
    decreases |t|
  {
    if t != [] {
      ScanShift(eaw, st, k, t[..|t| - 1]);
    }
  }

  /** Outside an escape, text without ESC is counted by its display width. */
  lemma {:induction false} ScanPlain(eaw: char -> bool, st: ScanState, t: string)
    requires !st.inEsc && Without(t, ESC)
    requires st.prev == ESC ==> Without(t, '[')
    ensures ScanFrom(eaw, st, t)
         == ScanState(st.len + DisplayLen(eaw, t), false, if t == [] then st.prev else t[|t| - 1])
    decreases |t|
  {
    if t != [] {
      ScanPlain(eaw, st, t[..|t| - 1]);
    }
  }

  /** Inside an escape, characters other than 'm' count nothing. */
  lemma {:induction false} ScanInEscape(eaw: char -> bool, st: ScanState, t: string)
    requires st.inEsc && Without(t, 'm')
    ensures ScanFrom(eaw, st, t).len == st.len && ScanFrom(eaw, st, t).inEsc
    decreases |t|
  {
    if t != [] {
      ScanInEscape(eaw, st, t[..|t| - 1]);
    }
  }

  /** An SGR sequence costs the width of ESC less one, and closes its escape. */
  lemma ScanSgr(eaw: char -> bool, st: ScanState, code: string)
    requires Sgr(code) && !st.inEsc
    ensures ScanFrom(eaw, st, code) == ScanState(st.len + CharWidth(eaw, ESC) - 1, false, 'm')
  {
    var body := code[2..|code| - 1];
    assert code == [ESC, '['] + body + ['m'];
    ScanConcat(eaw, st, [ESC, '['] + body, ['m']);
    ScanConcat(eaw, st, [ESC, '['], body);
    assert [ESC, '['][..1] == [ESC];
    assert [ESC][..0] == [];
    assert ScanFrom(eaw, st, [ESC]) == ScanState(st.len + CharWidth(eaw, ESC), false, ESC);
    var entered := ScanFrom(eaw, st, [ESC, '[']);
    assert entered == ScanState(st.len + CharWidth(eaw, ESC) - 1, true, '[');
    ScanInEscape(eaw, entered, body);
  }

  /** Surroundings free of "\0", "\1" and tab, where `b` does not start with a mark, frame every cleanup. */
  lemma CleanupsFramed(a: string, b: string)
    requires Without(a, '\0') && Without(a, '\U{1}') && Without(a, '\t')
    requires Without(b, '\0') && Without(b, '\U{1}') && Without(b, '\t')
    requires b != [] ==> b[0] != '+' && b[0] != '-' && b[0] != '^'
    ensures forall k :: 0 <= k < |Cleanups| ==> Framed(Cleanups[k].0, a, b)
  {
  }

  /** The cleanups bring in nothing but spaces. */
  lemma CleanupsKeepOut(s: string, c: char)
    requires Without(s, c) && c != ' '
    ensures Without(Applied(Cleanups, s), c)
  {
    forall k | 0 <= k < |Cleanups|
      ensures Without(Cleanups[k].1, c)
    {
      assert Cleanups[k].1 == "" || Cleanups[k].1 == " ";
    }
    AppliedKeepsOut(Cleanups, |Cleanups|, s, c);
  }

  /**
   * Colouring an ESC-free string keeps its real length, given that ESC is
   * narrow (its East Asian width class is N).
   */
  lemma ColorizeKeepsRealLength(eaw: char -> bool, s: string, color: Color)
    requires !eaw(ESC) && Without(s, ESC)
    ensures RealLength(eaw, RawColorize(s, color)) == RealLength(eaw, s)
  {
    ColorizeCleaned(s, color);
    CodeIsSgr(color);
    CodeIsSgr(NoColor);
    ScanFramed(eaw, Code(color), Applied(Cleanups, s), Code(NoColor));
  }

  /** The cleanup passes leave the colour codes alone and clean only the text between them. */
  lemma ColorizeCleaned(s: string, color: Color)
    requires Without(s, ESC)
    ensures Applied(Cleanups, RawColorize(s, color)) == Code(color) + Applied(Cleanups, s) + Code(NoColor)
    ensures Without(Applied(Cleanups, s), ESC)
  {
    var a, b := Code(color), Code(NoColor);
    CodeIsSgr(color);
    CodeIsSgr(NoColor);
    SgrClean(a);
    SgrClean(b);
    CleanupsFramed(a, b);
    AppliedFrame(Cleanups, |Cleanups|, a, s, b);
    CleanupsKeepOut(s, ESC);
  }

  /** Text without escapes between two SGR codes is measured as if the codes were not there. */
  lemma ScanFramed(eaw: char -> bool, a: string, t: string, b: string)
    requires !eaw(ESC) && Sgr(a) && Sgr(b) && Without(t, ESC)
    ensures ScanFrom(eaw, Start, a + t + b).len == ScanFrom(eaw, Start, t).len
  {
    ScanConcat(eaw, Start, a + t, b);
    ScanConcat(eaw, Start, a, t);
    ScanSgr(eaw, Start, a);
    var afterCode := ScanFrom(eaw, Start, a);
    ScanPlain(eaw, afterCode, t);
    ScanPlain(eaw, Start, t);
    ScanSgr(eaw, ScanFrom(eaw, afterCode, t), b);
  }

  /** `replace_all` with the cleanup table, written out pass by pass. */
  lemma AppliedCleanups(s: string)
    ensures Applied(Cleanups, s)
         == Replace(Replace(Replace(Replace(Replace(s, "\0+", ""), "\0-", ""), "\0^", ""), "\U{1}", ""), "\t", " ")
  {
    var c := Cleanups;
    assert AppliedUpTo(c, 1, s) == Replace(s, "\0+", "");
    assert AppliedUpTo(c, 2, s) == Replace(AppliedUpTo(c, 1, s), "\0-", "");
    assert AppliedUpTo(c, 3, s) == Replace(AppliedUpTo(c, 2, s), "\0^", "");
    assert AppliedUpTo(c, 4, s) == Replace(AppliedUpTo(c, 3, s), "\U{1}", "");
  }

  /** A string without `pat`'s first character is left alone by replacing `pat`. */
  lemma ReplaceMissing(s: string, pat: string, rep: string)
    requires pat != [] && Without(s, pat[0])
    ensures Replace(s, pat, rep) == s
  {
    NoFirstNoMatch(s, pat);
    ReplaceAbsent(s, pat, rep);
  }

  /**
   * Text free of the markers "\0" and "\1" and of ESC has its display
   * width as real length, a tab counting as one column.
   */
  lemma RealLengthPlain(eaw: char -> bool, s: string)
    requires Without(s, '\0') && Without(s, '\U{1}') && Without(s, ESC)
    requires !eaw('\t') && !eaw(' ')
    ensures RealLength(eaw, s) == DisplayLen(eaw, s)
  {
    AppliedCleanups(s);
    ReplaceMissing(s, "\0+", "");
    ReplaceMissing(s, "\0-", "");
    ReplaceMissing(s, "\0^", "");
    ReplaceMissing(s, "\U{1}", "");
    var t := Replace(s, "\t", " ");
    DisplayLenReplace(eaw, s, '\t', ' ');
    ReplaceKeepsOut(s, "\t", " ", ESC);
    ScanPlain(eaw, Start, t);
  }

  /** One marker pass over a marked span: it is removed exactly when its mark matches. */
  lemma ReplaceMarker(m: char, m': char, y: string)
    requires m != '\0' && Without(y, '\0')
    ensures Replace(['\0', m] + y, ['\0', m'], "") == if m == m' then y else ['\0', m] + y
  {
    var s := ['\0', m] + y;
    assert s[0..2] == ['\0', m];
    if m == m' {
      ReplaceMatch(s, ['\0', m'], "");
      assert s[2..] == y;
      ReplaceMissing(y, ['\0', m'], "");
    } else {
      assert !At(s, 0, ['\0', m']);
      ReplaceSkip(s, ['\0', m'], "");
      assert s[1..] == [m] + y;
      ReplaceMissing([m] + y, ['\0', m'], "");
    }
  }

  /** The three marker passes of the cleanup table remove one leading marker. */
  lemma MarkerPasses(m: char, y: string)
    requires m == '+' || m == '-' || m == '^'
    requires Without(y, '\0')
    ensures Replace(Replace(Replace(['\0', m] + y, "\0+", ""), "\0-", ""), "\0^", "") == y
  {
    var s0 := ['\0', m] + y;
    var s1 := Replace(s0, "\0+", "");
    var s2 := Replace(s1, "\0-", "");
    ReplaceMarker(m, '+', y);
    if m == '+' {
      assert s1 == y;
      ReplaceMissing(y, "\0-", "");
      ReplaceMissing(y, "\0^", "");
    } else {
      assert s1 == s0;
      ReplaceMarker(m, '-', y);
      if m == '-' {
        assert s2 == y;
        ReplaceMissing(y, "\0^", "");
      } else {
        assert s2 == s0;
        ReplaceMarker(m, '^', y);
      }
    }
  }

  /**
   * A span marked by difflib ("\0" and a mark '+', '-' or '^' before it,
   * "\1" after it) has the real length of its content.
   */
  lemma RealLengthMarked(eaw: char -> bool, m: char, x: string)
    requires m == '+' || m == '-' || m == '^'
    requires Without(x, '\0') && Without(x, '\U{1}')
    ensures RealLength(eaw, ['\0', m] + x + ['\U{1}']) == RealLength(eaw, x)
  {
    var y := x + ['\U{1}'];
    assert Without(y, '\0');
    assert ['\0', m] + x + ['\U{1}'] == ['\0', m] + y;
    MarkerPasses(m, y);
    ReplacePrefix(x, ['\U{1}'], "\U{1}", "");
    assert At(['\U{1}'], 0, "\U{1}");
    ReplaceMatch(['\U{1}'], "\U{1}", "");
    assert ['\U{1}'][1..] == [];
    ReplaceEmpty("\U{1}", "");
    assert Replace(y, "\U{1}", "") == x;
    AppliedCleanups(['\0', m] + y);
    AppliedCleanups(x);
    ReplaceMissing(x, "\0+", "");
    ReplaceMissing(x, "\0-", "");
    ReplaceMissing(x, "\0^", "");
    ReplaceMissing(x, "\U{1}", "");
  }

  // ---------------------------------------------------------------
  // _pad, _lpad, _rpad
  // ---------------------------------------------------------------

  /** `_pad`: the spaces that bring `s` up to `w` columns; none when it is already that wide. */
  function Pad(eaw: char -> bool, s: string, w: int): (r: string)
    ensures forall j :: 0 <= j < |r| ==> r[j] == ' '
    ensures RealLength(eaw, s) >= w ==> r == []
    ensures RealLength(eaw, s) < w ==> |r| == w - RealLength(eaw, s)
  {
    var k := w - RealLength(eaw, s);
    Spaces(if k > 0 then k else 0)
  }

  /** `_lpad`: `s` then its padding (left-aligned). */
  function LPad(eaw: char -> bool, s: string, w: int): (r: string)
    ensures |r| >= |s| && r[..|s|] == s
  {
    s + Pad(eaw, s, w)
  }

  /** `_rpad`: the padding then `s` (right-aligned). */
  function RPad(eaw: char -> bool, s: string, w: int): (r: string)
    ensures |r| >= |s| && r[|r| - |s|..] == s
  {
    Pad(eaw, s, w) + s
  }

  /** The scan of `s` does not end inside an unterminated ESC '[' sequence. */
  predicate EndsOutsideEscape(eaw: char -> bool, s: string)
  {
    !ScanFrom(eaw, Start, Applied(Cleanups, s)).inEsc
  }

  lemma SpacesClean(k: nat)
    ensures Without(Spaces(k), '\0') && Without(Spaces(k), '\U{1}') && Without(Spaces(k), '\t')
    ensures Without(Spaces(k), ESC) && Without(Spaces(k), '[')
    ensures Spaces(k) != [] ==> Spaces(k)[0] == ' ' && Spaces(k)[k - 1] == ' '
  {
  }

  /** Leading spaces add one column each. */
  lemma RealLengthSpacesBefore(eaw: char -> bool, k: nat, s: string)
    requires !eaw(' ')
    ensures RealLength(eaw, Spaces(k) + s) == k + RealLength(eaw, s)
  {
    var sp := Spaces(k);
    var t := Applied(Cleanups, s);
    CleanupsSpacesBefore(k, s);
    assert ScanFrom(eaw, Start, sp) == Start.(len := Start.len + k) by {
      SpacesClean(k);
      DisplayLenNarrow(eaw, sp);
      ScanPlain(eaw, Start, sp);
    }
    ScanConcat(eaw, Start, sp, t);
    ScanShift(eaw, Start, k, t);
  }

  /** The clean-ups leave leading spaces alone. */
  lemma CleanupsSpacesBefore(k: nat, s: string)
    ensures Applied(Cleanups, Spaces(k) + s) == Spaces(k) + Applied(Cleanups, s)
  {
    var sp := Spaces(k);
    var t := Applied(Cleanups, s);
    SpacesClean(k);
    CleanupsFramed(sp, []);
    AppliedFrame(Cleanups, |Cleanups|, sp, s, []);
    assert sp + s + [] == sp + s;
    assert sp + t + [] == sp + t;
  }

  /** Trailing spaces add one column each, unless an open escape swallows them. */
  lemma RealLengthSpacesAfter(eaw: char -> bool, s: string, k: nat)
    requires !eaw(' ') && EndsOutsideEscape(eaw, s)
    ensures RealLength(eaw, s + Spaces(k)) == RealLength(eaw, s) + k
  {
    var sp := Spaces(k);
    var t := Applied(Cleanups, s);
    CleanupsSpacesAfter(s, k);
    ScanConcat(eaw, Start, t, sp);
    SpacesClean(k);
    DisplayLenNarrow(eaw, sp);
    ScanPlain(eaw, ScanFrom(eaw, Start, t), sp);
  }

  /** The clean-ups leave trailing spaces alone. */
  lemma CleanupsSpacesAfter(s: string, k: nat)
    ensures Applied(Cleanups, s + Spaces(k)) == Applied(Cleanups, s) + Spaces(k)
  {
    var sp := Spaces(k);
    var t := Applied(Cleanups, s);
    SpacesClean(k);
    CleanupsFramed([], sp);
    AppliedFrameRight(Cleanups, |Cleanups|, s, sp);
  }

  /** Right alignment reaches the field width, or leaves a wider `s` as it is. */
  lemma RPadRealLength(eaw: char -> bool, s: string, w: int)
    requires !eaw(' ')
    ensures RealLength(eaw, RPad(eaw, s, w))
         == if w > RealLength(eaw, s) then w else RealLength(eaw, s)
  {
    RealLengthSpacesBefore(eaw, |Pad(eaw, s, w)|, s);
  }

  /**
   * Left alignment reaches the field width, or leaves a wider `s` as it
   * is, provided `s` does not end inside an escape sequence (the spaces
   * would be swallowed by it).
   */
  lemma LPadRealLength(eaw: char -> bool, s: string, w: int)
    requires !eaw(' ') && EndsOutsideEscape(eaw, s)
    ensures RealLength(eaw, LPad(eaw, s, w))
         == if w > RealLength(eaw, s) then w else RealLength(eaw, s)
  {
    RealLengthSpacesAfter(eaw, s, |Pad(eaw, s, w)|);
  }
}
