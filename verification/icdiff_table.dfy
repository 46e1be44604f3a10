/**
 * The table stage of the Python renderer: line-number prefixes, the
 * formatting of each side, the separator rows, and the tab expansion
 * done before differencing.
 */
module IcdiffTable {
  import opened Wrappers
  import opened Text
  import opened IcdiffText
  import opened IcdiffWrap

  /** Every ASCII character is narrow (East Asian width class Na or N). */
  predicate AsciiNarrow(eaw: char -> bool)
  {
    forall c: char :: c as int < 128 ==> !eaw(c)
  }

  /** Python's `"%d" % n`. */
  function IntToDecimal(n: int): (r: string)
    ensures |r| >= 1
    ensures forall k :: 0 <= k < |r| ==> r[k] == '-' || '0' <= r[k] <= '9'
  {
    if n < 0 then "-" + ToDecimal(-n) else ToDecimal(n)
  }

  // ---------------------------------------------------------------
  // _add_line_numbers and _format_line
  // ---------------------------------------------------------------

  /**
   * `_add_line_numbers`: a real line number, coloured and right-aligned
   * in 8 columns, then a space, before the text; "" and ">" leave the
   * text alone.
   */
  function AddLineNumbers(eaw: char -> bool, linenum: LineNum, text: string): (r: string)
    ensures !linenum.Num? ==> r == text
    ensures linenum.Num? ==> |r| > |text| && r[|r| - |text| - 1..] == " " + text
  {
    match linenum
    case Blank => text
    case Cont => text
    case Num(n) =>
      var prefix := RPad(eaw, SimpleColorize(IntToDecimal(n), LineNumbers), 8);
      assert prefix + " " + text == prefix + (" " + text);
      prefix + " " + text
  }

  /** A decimal numeral is as wide as it is long, coloured or not. */
  lemma ColoredNumberLength(eaw: char -> bool, d: string)
    requires !eaw(ESC) && !eaw(' ') && !eaw('\t')
    requires forall k :: 0 <= k < |d| ==> d[k] == '-' || '0' <= d[k] <= '9'
    requires forall k :: 0 <= k < |d| ==> !eaw(d[k])
    ensures RealLength(eaw, SimpleColorize(d, LineNumbers)) == |d|
  {
    RealLengthPlain(eaw, d);
    DisplayLenNarrow(eaw, d);
    ColorizeKeepsRealLength(eaw, d, White);
  }

  /** Regrouping a four-part concatenation. */
  lemma SeqAssoc(a: string, b: string, c: string, e: string)
    ensures a + b + c + e == a + (b + c + e)
  {
  }

  /**
   * The prefix of a numbered line: spaces up to 8 columns, the number in
   * the line-number colour, and a space; on a terminal the part before
   * the space takes the larger of 8 and the number's length.
   */
  lemma LineNumberPrefix(eaw: char -> bool, n: int, text: string)
    requires AsciiNarrow(eaw)
    ensures var d := IntToDecimal(n);
      var pad := if |d| < 8 then 8 - |d| else 0;
      AddLineNumbers(eaw, Num(n), text)
        == Spaces(pad) + Code(White) + d + Code(NoColor) + " " + text
      && RealLength(eaw, Spaces(pad) + Code(White) + d + Code(NoColor))
        == (if |d| < 8 then 8 else |d|)
  {
    var d := IntToDecimal(n);
    var colored := SimpleColorize(d, LineNumbers);
    var pad := if |d| < 8 then 8 - |d| else 0;
    assert !eaw(ESC) && !eaw(' ') && !eaw('\t');
    forall k | 0 <= k < |d|
      ensures !eaw(d[k])
    {
      assert d[k] as int < 128;
    }
    ColoredNumberLength(eaw, d);
    assert Pad(eaw, colored, 8) == Spaces(pad);
    var cw, cn, sp := Code(White), Code(NoColor), Spaces(pad);
    assert colored == cw + d + cn;
    assert RPad(eaw, colored, 8) == sp + colored;
    RPadRealLength(eaw, colored, 8);
    SeqAssoc(sp, cw, d, cn);
  }

  /** `_format_line`: strip trailing whitespace, then number the line when asked to. */
  function FormatLine(eaw: char -> bool, lineNumbers: bool, linenum: LineNum, text: string): (r: string)
    ensures |r| >= |RStrip(text)| && r[|r| - |RStrip(text)|..] == RStrip(text)
    ensures !lineNumbers || !linenum.Num? ==> r == RStrip(text)
  {
    var t := RStrip(text);
    if !lineNumbers then t else AddLineNumbers(eaw, linenum, t)
  }

  /** Formatting without a number prefix is idempotent. */
  lemma FormatLineIdempotent(eaw: char -> bool, lineNumbers: bool, linenum: LineNum, text: string)
    requires !lineNumbers || !linenum.Num?
    ensures var once := FormatLine(eaw, lineNumbers, linenum, text);
      FormatLine(eaw, lineNumbers, linenum, once) == once
  {
    var t := RStrip(text);
    assert t == [] || !IsPyWhitespace(t[|t| - 1]);
  }

  /** `_collect_lines`: each wrapped row formatted side by side, one for one. */
  function CollectLines(eaw: char -> bool, lineNumbers: bool, diffs: seq<Diff>): (r: seq<Option<(string, string)>>)
    ensures |r| == |diffs|
    ensures forall k :: 0 <= k < |diffs| ==>
      r[k] == Some((FormatLine(eaw, lineNumbers, diffs[k].0.0, diffs[k].0.1),
                    FormatLine(eaw, lineNumbers, diffs[k].1.0, diffs[k].1.1)))
  {
    seq(|diffs|, k requires 0 <= k < |diffs| =>
      Some((FormatLine(eaw, lineNumbers, diffs[k].0.0, diffs[k].0.1),
            FormatLine(eaw, lineNumbers, diffs[k].1.0, diffs[k].1.1))))
  }

  // ---------------------------------------------------------------
  // _generate_table
  // ---------------------------------------------------------------

  /** The pair of coloured "---" that stands for a separator. */
  function SeparatorRow(): (string, string)
  {
    (SimpleColorize("---", Separator), SimpleColorize("---", Separator))
  }

  /** What one entry of the table stands for: the separator row `sep`, or itself. */
  function RowOf(sep: (string, string), line: Option<(string, string)>): (string, string)
  {
    match line
    case None => sep
    case Some(l) => l
  }

  /** The rows `_generate_table` yields for entry `i`, `sep` standing for a separator. */
  function Emit(sep: (string, string), i: nat, line: Option<(string, string)>): seq<(string, string)>
  {
    match line
    case None => if i > 0 then [sep] else []
    case Some(l) => [l]
  }

  /** The rows yielded for all of `diffs`, `sep` standing for a separator. */
  function TableWith(sep: (string, string), diffs: seq<Option<(string, string)>>): seq<(string, string)>
    decreases |diffs|
  {
    if diffs == [] then []
    else TableWith(sep, diffs[..|diffs| - 1]) + Emit(sep, |diffs| - 1, diffs[|diffs| - 1])
  }

  /** `_generate_table`, the generator's rows collected into a list. */
  function GenerateTable(diffs: seq<Option<(string, string)>>): seq<(string, string)>
  {
    TableWith(SeparatorRow(), diffs)
  }

  /** How many entries at the head yield nothing: a leading separator. */
  function Dropped(diffs: seq<Option<(string, string)>>): nat
  {
    if diffs != [] && diffs[0].None? then 1 else 0
  }

  /** `t` is one row per entry of `diffs` past the dropped head, in order. */
  predicate RowsFor(sep: (string, string), diffs: seq<Option<(string, string)>>, t: seq<(string, string)>)
  {
    && |t| + Dropped(diffs) == |diffs|
    && forall k :: 0 <= k < |t| ==> t[k] == RowOf(sep, diffs[k + Dropped(diffs)])
  }

  lemma {:induction false} TableWithRows(sep: (string, string), diffs: seq<Option<(string, string)>>)
    ensures RowsFor(sep, diffs, TableWith(sep, diffs))
    decreases |diffs|
  {
    if diffs != [] {
      var front := diffs[..|diffs| - 1];
      TableWithRows(sep, front);
      TableWithStep(sep, diffs);
    }
  }

  /** One entry more: the rows for the entries before it, then its own. */
  lemma TableWithStep(sep: (string, string), diffs: seq<Option<(string, string)>>)
    requires diffs != []
    requires RowsFor(sep, diffs[..|diffs| - 1], TableWith(sep, diffs[..|diffs| - 1]))
    ensures RowsFor(sep, diffs, TableWith(sep, diffs))
  {
    var front := diffs[..|diffs| - 1];
    var f := TableWith(sep, front);
    var e := Emit(sep, |diffs| - 1, diffs[|diffs| - 1]);
    assert TableWith(sep, diffs) == f + e;
    if |diffs| == 1 {
      assert TableWith(sep, diffs) == e;
    } else {
      assert front[0] == diffs[0];
      assert e == [RowOf(sep, diffs[|diffs| - 1])];
      RowsSnoc(sep, diffs, f);
    }
  }

  /** Rows for all but the last entry, then the last entry's row, are the rows for all. */
  lemma RowsSnoc(sep: (string, string), diffs: seq<Option<(string, string)>>, f: seq<(string, string)>)
    requires |diffs| > 1 && Dropped(diffs[..|diffs| - 1]) == Dropped(diffs)
    requires RowsFor(sep, diffs[..|diffs| - 1], f)
    ensures RowsFor(sep, diffs, f + [RowOf(sep, diffs[|diffs| - 1])])
  {
    var front := diffs[..|diffs| - 1];
    var t := f + [RowOf(sep, diffs[|diffs| - 1])];
    var drop := Dropped(diffs);
    forall k | 0 <= k < |t|
      ensures t[k] == RowOf(sep, diffs[k + drop])
    {
      if k < |f| {
        assert t[k] == f[k];
        assert front[k + drop] == diffs[k + drop];
      }
    }
  }

  /**
   * A separator at the head is dropped; every other entry yields one
   * row, a separator as the coloured "---" pair, in order.
   */
  lemma GenerateTableRows(diffs: seq<Option<(string, string)>>)
    ensures var drop := if diffs != [] && diffs[0].None? then 1 else 0;
      var t := GenerateTable(diffs);
      |t| == |diffs| - drop
      && forall k :: 0 <= k < |t| ==>
        t[k] == (if diffs[k + drop].None? then SeparatorRow() else diffs[k + drop].value)
  {
    TableWithRows(SeparatorRow(), diffs);
  }

  // ---------------------------------------------------------------
  // _tab_newline_replace
  // ---------------------------------------------------------------

  /**
   * Python's `s.expandtabs(tabsize)` from column `col`: a tab becomes the
   * spaces up to the next multiple of `tabsize` (nothing when `tabsize`
   * is not positive), a newline or carriage return resets the column,
   * any other character advances it by one.
   */
  function ExpandTabs(s: string, col: nat, tabsize: int): string
    decreases |s|
  {
    if s == [] then []
    else if s[0] == '\t' then
      if tabsize > 0 then
        var incr := tabsize - col % tabsize;
        Spaces(incr) + ExpandTabs(s[1..], col + incr, tabsize)
      else ExpandTabs(s[1..], col, tabsize)
    else [s[0]] + ExpandTabs(s[1..], if s[0] == '\n' || s[0] == '\r' then 0 else col + 1, tabsize)
  }

  /** Expansion leaves no tab behind. */
  lemma {:induction false} ExpandTabsNoTab(s: string, col: nat, tabsize: int)
    ensures Without(ExpandTabs(s, col, tabsize), '\t')
    decreases |s|
  {
    if s != [] {
      if s[0] == '\t' {
        if tabsize > 0 {
          ExpandTabsNoTab(s[1..], col + (tabsize - col % tabsize), tabsize);
        } else {
          ExpandTabsNoTab(s[1..], col, tabsize);
        }
      } else {
        ExpandTabsNoTab(s[1..], if s[0] == '\n' || s[0] == '\r' then 0 else col + 1, tabsize);
      }
    }
  }

  /** A string without tabs is expanded to itself. */
  lemma {:induction false} ExpandTabsIdentity(s: string, col: nat, tabsize: int)
    requires Without(s, '\t')
    ensures ExpandTabs(s, col, tabsize) == s
    decreases |s|
  {
    if s != [] {
      ExpandTabsIdentity(s[1..], if s[0] == '\n' || s[0] == '\r' then 0 else col + 1, tabsize);
      assert s == [s[0]] + s[1..];
    }
  }

  /** Multiplying by a positive step keeps the sign and at least the step's size. */
  lemma MulSign(k: int, step: int)
    requires step > 0
    ensures k > 0 ==> k * step >= step
    ensures k < 0 ==> k * step <= -step
  {
  }

  /** Adding one step does not change the remainder. */
  lemma ModShift(x: int, step: int)
    requires step > 0
    ensures (x + step) % step == x % step
  {
    var a := x % step;
    var b := (x + step) % step;
    var q1 := x / step;
    var q2 := (x + step) / step;
    var k := q2 - q1 - 1;
    assert x == q1 * step + a;
    assert x + step == q2 * step + b;
    assert k * step == q2 * step - q1 * step - step;
    assert k * step == a - b;
    MulSign(k, step);
  }

  /** A tab from column `col` advances to a multiple of `tabsize`. */
  lemma {:induction false} NextStop(col: nat, tabsize: int)
    requires tabsize > 0
    ensures (col + (tabsize - col % tabsize)) % tabsize == 0
    decreases col
  {
    if col >= tabsize {
      NextStop(col - tabsize, tabsize);
      ModShift(col - tabsize, tabsize);
      ModShift(col - tabsize + (tabsize - col % tabsize), tabsize);
    } else {
      assert col % tabsize == col;
      assert tabsize % tabsize == 0;
    }
  }

  /** On one line, the expansion of a tab ends at a tab stop. */
  lemma {:induction false} ExpandTabsStop(s: string, col: nat, tabsize: int)
    requires tabsize > 0 && Without(s, '\n') && Without(s, '\r')
    ensures (col + |ExpandTabs(s + ['\t'], col, tabsize)|) % tabsize == 0
    decreases |s|
  {
    var t := s + ['\t'];
    var incr := tabsize - col % tabsize;
    if s == [] {
      assert t[1..] == [];
      assert |ExpandTabs(t, col, tabsize)| == incr;
      NextStop(col, tabsize);
    } else {
      assert t[0] == s[0] && t[1..] == s[1..] + ['\t'];
      assert Without(s[1..], '\n') && Without(s[1..], '\r') by {
        forall j | 0 <= j < |s[1..]|
          ensures s[1..][j] != '\n' && s[1..][j] != '\r'
        {
          assert s[1..][j] == s[j + 1];
        }
      }
      var next := if s[0] == '\t' then col + incr else col + 1;
      ExpandTabsStop(s[1..], next, tabsize);
      assert col + |ExpandTabs(t, col, tabsize)| == next + |ExpandTabs(t[1..], next, tabsize)|;
    }
  }

  /**
   * `expand_tabs` inside `_tab_newline_replace`: real spaces are hidden
   * as "\0", tabs expanded, the spaces that came from tabs turned into
   * tab characters, the real spaces restored, and trailing newlines cut.
   */
  function ExpandLine(tabsize: int, line: string): string
  {
    var hidden := Replace(line, " ", "\0");
    var expanded := ExpandTabs(hidden, 0, tabsize);
    var marked := Replace(expanded, " ", "\t");
    TrimEndChar(Replace(marked, "\0", " "), '\n')
  }

  /** A line without tabs (and without "\0") only loses its trailing newlines. */
  lemma ExpandLineWithoutTabs(tabsize: int, line: string)
    requires Without(line, '\t') && Without(line, '\0')
    ensures ExpandLine(tabsize, line) == TrimEndChar(line, '\n')
  {
    var hidden := Replace(line, " ", "\0");
    ReplaceKeepsOut(line, " ", "\0", '\t');
    ExpandTabsIdentity(hidden, 0, tabsize);
    ReplaceEliminates(line, ' ', '\0');
    ReplaceMissing(hidden, " ", "\t");
    ReplaceRoundTrip(line, ' ', '\0');
  }

  /** `s` with every `c` turned into `d`, character by character. */
  function Subst(s: string, c: char, d: char): (r: string)
    ensures |r| == |s|
    ensures forall i :: 0 <= i < |s| ==> r[i] == if s[i] == c then d else s[i]
  {
    seq(|s|, i requires 0 <= i < |s| => if s[i] == c then d else s[i])
  }

  /** Replacing a one-character pattern by one character is a substitution. */
  lemma {:induction false} ReplaceSubst(s: string, c: char, d: char)
    ensures Replace(s, [c], [d]) == Subst(s, c, d)
    decreases |s|
  {
    if s != [] {
      ReplaceChar(s, c, d);
      ReplaceSubst(s[1..], c, d);
      assert Subst(s, c, d) == [if s[0] == c then d else s[0]] + Subst(s[1..], c, d);
    }
  }

  lemma SubstAppend(a: string, b: string, c: char, d: char)
    ensures Subst(a + b, c, d) == Subst(a, c, d) + Subst(b, c, d)
  {
  }

  /**
   * Hiding the spaces as "\0" does not change where tabs expand to:
   * showing the "\0" as spaces again gives the plain expansion.
   */
  lemma {:induction false} ExpandHidden(s: string, col: nat, tabsize: int)
    requires Without(s, '\0')
    ensures Subst(ExpandTabs(Subst(s, ' ', '\0'), col, tabsize), '\0', ' ') == ExpandTabs(s, col, tabsize)
    decreases |s|
  {
    if s != [] {
      SubstTail(s, ' ', '\0');
      assert Without(s[1..], '\0') by {
        assert forall j :: 0 <= j < |s[1..]| ==> s[1..][j] == s[j + 1];
      }
      if s[0] == '\t' && tabsize > 0 {
        var incr := tabsize - col % tabsize;
        ExpandHidden(s[1..], col + incr, tabsize);
        HiddenTab(s, col, tabsize, incr);
      } else if s[0] == '\t' {
        ExpandHidden(s[1..], col, tabsize);
      } else {
        var next := if s[0] == '\n' || s[0] == '\r' then 0 else col + 1;
        ExpandHidden(s[1..], next, tabsize);
        HiddenChar(s, col, tabsize, next);
      }
    }
  }

  lemma {:induction false} SubstTail(s: string, c: char, d: char)
    requires s != []
    ensures Subst(s, c, d)[1..] == Subst(s[1..], c, d)
  {
  }

  /** The step of `ExpandHidden` at a tab. */
  lemma {:induction false} HiddenTab(s: string, col: nat, tabsize: int, incr: nat)
    requires s != [] && s[0] == '\t' && tabsize > 0 && incr == tabsize - col % tabsize
    requires Subst(ExpandTabs(Subst(s[1..], ' ', '\0'), col + incr, tabsize), '\0', ' ') == ExpandTabs(s[1..], col + incr, tabsize)
    ensures Subst(ExpandTabs(Subst(s, ' ', '\0'), col, tabsize), '\0', ' ') == ExpandTabs(s, col, tabsize)
  {
    var h := Subst(s, ' ', '\0');
    SubstTail(s, ' ', '\0');
    assert h[0] == '\t';
    var rest := ExpandTabs(h[1..], col + incr, tabsize);
    assert ExpandTabs(h, col, tabsize) == Spaces(incr) + rest;
    SubstAppend(Spaces(incr), rest, '\0', ' ');
    assert Subst(Spaces(incr), '\0', ' ') == Spaces(incr);
  }

  /** The step of `ExpandHidden` at a character other than a tab. */
  lemma {:induction false} HiddenChar(s: string, col: nat, tabsize: int, next: nat)
    requires s != [] && s[0] != '\t' && s[0] != '\0' && next == if s[0] == '\n' || s[0] == '\r' then 0 else col + 1
    requires Subst(ExpandTabs(Subst(s[1..], ' ', '\0'), next, tabsize), '\0', ' ') == ExpandTabs(s[1..], next, tabsize)
    ensures Subst(ExpandTabs(Subst(s, ' ', '\0'), col, tabsize), '\0', ' ') == ExpandTabs(s, col, tabsize)
  {
    var h := Subst(s, ' ', '\0');
    SubstTail(s, ' ', '\0');
    var rest := ExpandTabs(h[1..], next, tabsize);
    assert ExpandTabs(h, col, tabsize) == [h[0]] + rest;
    SubstAppend([h[0]], rest, '\0', ' ');
    assert Subst([h[0]], '\0', ' ') == [s[0]];
  }

  /** Spaces marked as tabs, "\0" shown as spaces, then tabs shown as spaces: every mark becomes a space. */
  lemma MarksShownAsSpaces(u: string)
    requires Without(u, '\t')
    ensures Subst(Subst(Subst(u, ' ', '\t'), '\0', ' '), '\t', ' ') == Subst(u, '\0', ' ')
  {
  }

  /** Substituting characters other than `ch` commutes with cutting trailing `ch`. */
  lemma {:induction false} TrimEndSubst(x: string, c: char, d: char, ch: char)
    requires c != ch && d != ch
    ensures Subst(TrimEndChar(x, ch), c, d) == TrimEndChar(Subst(x, c, d), ch)
    decreases |x|
  {
    if x != [] && x[|x| - 1] == ch {
      assert Subst(x, c, d)[..|x| - 1] == Subst(x[..|x| - 1], c, d);
      TrimEndSubst(x[..|x| - 1], c, d, ch);
    }
  }

  /**
   * Showing the tab characters of an expanded line as spaces again gives
   * Python's `expandtabs` of the line with its trailing newlines cut.
   */
  lemma ExpandLineUntabbed(tabsize: int, line: string)
    requires Without(line, '\0')
    ensures Replace(ExpandLine(tabsize, line), "\t", " ") == TrimEndChar(ExpandTabs(line, 0, tabsize), '\n')
  {
    var hidden := Replace(line, " ", "\0");
    var u := ExpandTabs(hidden, 0, tabsize);
    var marked := Replace(u, " ", "\t");
    var restored := Replace(marked, "\0", " ");
    ReplaceSubst(line, ' ', '\0');
    ReplaceSubst(u, ' ', '\t');
    ReplaceSubst(marked, '\0', ' ');
    ReplaceSubst(TrimEndChar(restored, '\n'), '\t', ' ');
    ExpandTabsNoTab(hidden, 0, tabsize);
    TrimEndSubst(restored, '\t', ' ', '\n');
    MarksShownAsSpaces(u);
    ExpandHidden(line, 0, tabsize);
  }

  /** `_tab_newline_replace`: both sides' lines expanded, one for one. */
  function TabNewlineReplace(tabsize: int, fromlines: seq<string>, tolines: seq<string>)
    : (r: (seq<string>, seq<string>))
    ensures |r.0| == |fromlines| && |r.1| == |tolines|
    ensures forall k :: 0 <= k < |fromlines| ==> r.0[k] == ExpandLine(tabsize, fromlines[k])
    ensures forall k :: 0 <= k < |tolines| ==> r.1[k] == ExpandLine(tabsize, tolines[k])
  {
    (seq(|fromlines|, k requires 0 <= k < |fromlines| => ExpandLine(tabsize, fromlines[k])),
     seq(|tolines|, k requires 0 <= k < |tolines| => ExpandLine(tabsize, tolines[k])))
  }
}
