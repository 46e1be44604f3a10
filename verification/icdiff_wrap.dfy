/**
 * Line wrapping of the Python renderer.  difflib marks a changed span
 * with "\0" and a mark character ('+', '-' or '^') in front and "\1"
 * after it; `_split_line` cuts a line at the wrap column without
 * breaking that markup, and `_line_wrapper` pairs the pieces of the two
 * sides row by row.
 */
module IcdiffWrap {
  import opened Wrappers
  import opened Text
  import opened IcdiffText

  /** A line number as difflib hands it over: a number, "" (blank) or ">" (continuation). */
  datatype LineNum = Num(n: int) | Blank | Cont

  /** Python truthiness of a line number: 0 and "" are false. */
  predicate Truthy(l: LineNum)
  {
    match l
    case Num(n) => n != 0
    case Blank => false
    case Cont => true
  }

  type Entry = (LineNum, string)

  /** Python's `s.count(c)` for one character. */
  function Count(s: string, c: char): (r: nat)
    ensures r <= |s|
  {
    if s == [] then 0 else Count(s[..|s| - 1], c) + (if s[|s| - 1] == c then 1 else 0)
  }

  /**
   * The early exits of `_split_line`: a falsy line number, or a text whose
   * display length less three columns per "\0" is within the wrap column.
   */
  predicate FitsAsIs(eaw: char -> bool, wrapcolumn: int, lineNum: LineNum, text: string)
  {
    !Truthy(lineNum) || DisplayLen(eaw, text) - Count(text, '\0') * 3 <= wrapcolumn
  }

  /**
   * What `_split_line` needs to finish: the line fits as it is, or its
   * markup is complete (a "\0" at the end would be read past) and the wrap
   * column is positive (otherwise every cut is empty).
   */
  predicate CanWrap(eaw: char -> bool, wrapcolumn: int, lineNum: LineNum, text: string)
  {
    FitsAsIs(eaw, wrapcolumn, lineNum, text) || (Complete(text) && wrapcolumn > 0)
  }

  // ---------------------------------------------------------------
  // The markup as a token stream
  // ---------------------------------------------------------------

  /** Every "\0" that the scan reaches has its mark character after it. */
  predicate Complete(t: string)
    decreases |t|
  {
    if t == [] then true
    else if t[0] == '\0' then |t| >= 2 && Complete(t[2..])
    else Complete(t[1..])
  }

  /** The number of characters that are text rather than markup. */
  function VisCount(t: string): nat
    decreases |t|
  {
    if t == [] then 0
    else if t[0] == '\0' then (if |t| >= 2 then VisCount(t[2..]) else 0)
    else if t[0] == '\U{1}' then VisCount(t[1..])
    else 1 + VisCount(t[1..])
  }

  /**
   * What a line shows: each text character with the mark in force at
   * it (None outside a marked span), starting with mark `m`.
   */
  function Render(t: string, m: Option<char>): seq<(Option<char>, char)>
    decreases |t|
  {
    if t == [] then []
    else if t[0] == '\0' then (if |t| >= 2 then Render(t[2..], Some(t[1])) else [])
    else if t[0] == '\U{1}' then Render(t[1..], None)
    else [(m, t[0])] + Render(t[1..], m)
  }

  /** The mark in force after `t`, starting with mark `m`. */
  function EndMark(t: string, m: Option<char>): Option<char>
    decreases |t|
  {
    if t == [] then m
    else if t[0] == '\0' then (if |t| >= 2 then EndMark(t[2..], Some(t[1])) else m)
    else if t[0] == '\U{1}' then EndMark(t[1..], None)
    else EndMark(t[1..], m)
  }

  /** The text characters of a rendering, marks dropped. */
  function Shown(r: seq<(Option<char>, char)>): (s: string)
    ensures |s| == |r| && forall k :: 0 <= k < |r| ==> s[k] == r[k].1
  {
    seq(|r|, k requires 0 <= k < |r| => r[k].1)
  }

  /** A complete prefix is read on its own, and the rest picks up its final mark. */
  lemma {:induction false} RenderConcat(a: string, b: string, m: Option<char>)
    requires Complete(a)
    ensures Render(a + b, m) == Render(a, m) + Render(b, EndMark(a, m))
    ensures EndMark(a + b, m) == EndMark(b, EndMark(a, m))
    decreases |a|
  {
    if a == [] {
      assert a + b == b;
    } else if a[0] == '\0' {
      assert (a + b)[0] == '\0' && (a + b)[1] == a[1];
      assert (a + b)[2..] == a[2..] + b;
      RenderConcat(a[2..], b, Some(a[1]));
    } else {
      assert (a + b)[0] == a[0];
      assert (a + b)[1..] == a[1..] + b;
      RenderConcat(a[1..], b, if a[0] == '\U{1}' then None else m);
    }
  }

  /** After a complete prefix, completeness and the count of text characters are those of the rest. */
  lemma {:induction false} MarkupConcat(a: string, b: string)
    requires Complete(a)
    ensures Complete(a + b) == Complete(b)
    ensures VisCount(a + b) == VisCount(a) + VisCount(b)
    decreases |a|
  {
    if a == [] {
      assert a + b == b;
    } else if a[0] == '\0' {
      assert (a + b)[0] == '\0';
      assert (a + b)[2..] == a[2..] + b;
      MarkupConcat(a[2..], b);
    } else {
      assert (a + b)[0] == a[0];
      assert (a + b)[1..] == a[1..] + b;
      MarkupConcat(a[1..], b);
    }
  }

  /** The scan's step over position `i` of a complete suffix. */
  lemma CompleteStep(text: string, i: nat)
    requires i < |text| && Complete(text[i..])
    ensures text[i] == '\0' ==> i + 1 < |text| && Complete(text[i + 2..])
    ensures text[i] != '\0' ==> Complete(text[i + 1..])
  {
    if text[i] == '\0' {
      assert text[i..][2..] == text[i + 2..];
    } else {
      assert text[i..][1..] == text[i + 1..];
    }
  }

  // ---------------------------------------------------------------
  // _split_line
  // ---------------------------------------------------------------

  /**
   * The inner scan of `_split_line` from position `i` with `n` columns
   * counted and mark `mark`: its final `(i, n, mark)`.
   */
  function ScanCut(eaw: char -> bool, wrapcolumn: int, text: string, i: nat, n: int, mark: Option<char>)
    : (r: (nat, int, Option<char>))
    requires i <= |text| && Complete(text[i..])
    ensures i <= r.0 <= |text| && Complete(text[r.0..])
    decreases |text| - i
  {
    if n < wrapcolumn && i < |text| then
      CompleteStep(text, i);
      if text[i] == '\0' then ScanCut(eaw, wrapcolumn, text, i + 2, n, Some(text[i + 1]))
      else if text[i] == '\U{1}' then ScanCut(eaw, wrapcolumn, text, i + 1, n, None)
      else ScanCut(eaw, wrapcolumn, text, i + 1, n + DisplayLen(eaw, [text[i]]), mark)
    else (i, n, mark)
  }

  /** The first line of a cut: the scanned text, closed with "\1" inside a marked span. */
  function HeadPiece(text: string, i: nat, mark: Option<char>): string
    requires i <= |text|
  {
    text[..i] + (if mark.Some? then "\U{1}" else "")
  }

  /** The rest of a cut, reopened with "\0" and the mark inside a marked span. */
  function RestPiece(text: string, i: nat, mark: Option<char>): string
    requires i <= |text|
  {
    (if mark.Some? then ['\0', mark.value] else []) + text[i..]
  }

  /** One turn of the scan, below the wrap column and before the end. */
  lemma ScanCutStep(eaw: char -> bool, wrapcolumn: int, text: string, i: nat, n: int, mark: Option<char>)
    requires i < |text| && Complete(text[i..]) && n < wrapcolumn
    ensures text[i] == '\0' ==> i + 1 < |text| && Complete(text[i + 2..])
    ensures text[i] != '\0' ==> Complete(text[i + 1..])
    ensures text[i] == '\0' ==>
      ScanCut(eaw, wrapcolumn, text, i, n, mark) == ScanCut(eaw, wrapcolumn, text, i + 2, n, Some(text[i + 1]))
    ensures text[i] == '\U{1}' ==>
      ScanCut(eaw, wrapcolumn, text, i, n, mark) == ScanCut(eaw, wrapcolumn, text, i + 1, n, None)
    ensures text[i] != '\0' && text[i] != '\U{1}' ==>
      ScanCut(eaw, wrapcolumn, text, i, n, mark)
      == ScanCut(eaw, wrapcolumn, text, i + 1, n + DisplayLen(eaw, [text[i]]), mark)
  {
    CompleteStep(text, i);
  }

  /** What still has to be wrapped: text characters, plus one while the text does not fit. */
  function Measure(eaw: char -> bool, wrapcolumn: int, lineNum: LineNum, text: string): nat
  {
    VisCount(text) + (if FitsAsIs(eaw, wrapcolumn, lineNum, text) then 0 else 1)
  }

  /** Below the wrap column, the scan stops at the end or after consuming text. */
  lemma {:induction false} ScanCutProgress(eaw: char -> bool, wrapcolumn: int, text: string,
                                           i: nat, n: int, mark: Option<char>)
    requires i <= |text| && Complete(text[i..]) && n < wrapcolumn
    ensures var r := ScanCut(eaw, wrapcolumn, text, i, n, mark);
      r.0 == |text| || VisCount(text[r.0..]) < VisCount(text[i..])
    decreases |text| - i
  {
    if i < |text| {
      CompleteStep(text, i);
      if text[i] == '\0' {
        assert text[i..][2..] == text[i + 2..];
        ScanCutProgress(eaw, wrapcolumn, text, i + 2, n, Some(text[i + 1]));
      } else if text[i] == '\U{1}' {
        assert text[i..][1..] == text[i + 1..];
        ScanCutProgress(eaw, wrapcolumn, text, i + 1, n, None);
      } else {
        assert text[i..][1..] == text[i + 1..];
        var n' := n + DisplayLen(eaw, [text[i]]);
        if n' < wrapcolumn {
          ScanCutProgress(eaw, wrapcolumn, text, i + 1, n', mark);
        }
      }
    }
  }

  /** The rest of a cut shows what follows the cut and, once the text is used up, fits. */
  lemma RestPieceShape(eaw: char -> bool, wrapcolumn: int, text: string, i: nat, mark: Option<char>)
    requires i <= |text| && Complete(text[i..]) && wrapcolumn > 0
    ensures Complete(RestPiece(text, i, mark))
    ensures VisCount(RestPiece(text, i, mark)) == VisCount(text[i..])
    ensures i == |text| ==> FitsAsIs(eaw, wrapcolumn, Cont, RestPiece(text, i, mark))
  {
    var tail := text[i..];
    if mark.Some? {
      var mk := ['\0', mark.value];
      assert RestPiece(text, i, mark) == mk + tail;
      assert mk[2..] == [] && mk[0] == '\0';
      RenderConcat(mk, tail, None);
      MarkupConcat(mk, tail);
      if i == |text| {
        assert mk + tail == mk;
        assert Count(mk, '\0') >= 1 by {
          assert mk[..1] == ['\0'];
        }
        assert DisplayLen(eaw, mk) <= 4;
      }
    } else {
      assert RestPiece(text, i, mark) == tail;
    }
  }

  /** A wrapping step hands on less work than it received. */
  lemma WrapProgress(eaw: char -> bool, wrapcolumn: int, lineNum: LineNum, text: string)
    requires Complete(text) && wrapcolumn > 0 && !FitsAsIs(eaw, wrapcolumn, lineNum, text)
    ensures var r := ScanCut(eaw, wrapcolumn, text, 0, 0, None);
      var rest := RestPiece(text, r.0, r.2);
      Complete(rest) && Measure(eaw, wrapcolumn, Cont, rest) < Measure(eaw, wrapcolumn, lineNum, text)
  {
    assert text[0..] == text;
    var r := ScanCut(eaw, wrapcolumn, text, 0, 0, None);
    ScanCutProgress(eaw, wrapcolumn, text, 0, 0, None);
    RestPieceShape(eaw, wrapcolumn, text, r.0, r.2);
  }

  /**
   * The entries `_split_line` appends for one line: the text as it is
   * when it fits, else a cut at the scan's stop and the rest wrapped
   * again under the continuation number ">".
   */
  function Wrap(eaw: char -> bool, wrapcolumn: int, lineNum: LineNum, text: string): seq<Entry>
    requires CanWrap(eaw, wrapcolumn, lineNum, text)
    decreases Measure(eaw, wrapcolumn, lineNum, text)
  {
    if FitsAsIs(eaw, wrapcolumn, lineNum, text) then [(lineNum, text)]
    else
      assert text[0..] == text;
      var r := ScanCut(eaw, wrapcolumn, text, 0, 0, None);
      WrapProgress(eaw, wrapcolumn, lineNum, text);
      [(lineNum, HeadPiece(text, r.0, r.2))] + Wrap(eaw, wrapcolumn, Cont, RestPiece(text, r.0, r.2))
  }

  lemma SeqAssoc3<T>(a: seq<T>, b: seq<T>, c: seq<T>)
    ensures (a + b) + c == a + (b + c)
  {
  }

  /** One unfolding of `Wrap` on a line that does not fit. */
  lemma WrapStep(eaw: char -> bool, wrapcolumn: int, lineNum: LineNum, text: string)
    requires Complete(text) && wrapcolumn > 0 && !FitsAsIs(eaw, wrapcolumn, lineNum, text)
    ensures text[0..] == text
    ensures var c := ScanCut(eaw, wrapcolumn, text, 0, 0, None);
      Complete(RestPiece(text, c.0, c.2))
      && Wrap(eaw, wrapcolumn, lineNum, text)
         == [(lineNum, HeadPiece(text, c.0, c.2))] + Wrap(eaw, wrapcolumn, Cont, RestPiece(text, c.0, c.2))
  {
    assert text[0..] == text;
    WrapProgress(eaw, wrapcolumn, lineNum, text);
  }

  /** The inner loop of `_split_line`: walk the text until the wrap column is reached. */
  method FindCut(eaw: char -> bool, wrapcolumn: int, text: string) returns (i: nat, n: int, mark: Option<char>)
    requires Complete(text)
    ensures text[0..] == text && (i, n, mark) == ScanCut(eaw, wrapcolumn, text, 0, 0, None)
  {
    assert text[0..] == text;
    ghost var cut := ScanCut(eaw, wrapcolumn, text, 0, 0, None);
    i, n, mark := 0, 0, None;
    while n < wrapcolumn && i < |text|
      invariant i <= |text| && Complete(text[i..])
      invariant ScanCut(eaw, wrapcolumn, text, i, n, mark) == cut
      decreases |text| - i
    {
      ScanCutStep(eaw, wrapcolumn, text, i, n, mark);
      if text[i] == '\0' {
        i := i + 1;
        mark := Some(text[i]);
        i := i + 1;
      } else if text[i] == '\U{1}' {
        i := i + 1;
        mark := None;
      } else {
        n := n + DisplayLen(eaw, [text[i]]);
        i := i + 1;
      }
    }
  }

  /**
   * `_split_line` as the source writes it: the outer loop wraps until
   * the rest fits, the inner loop finds the cut.  `data_list` is passed
   * in and the extended list returned.
   */
  method SplitLine(eaw: char -> bool, wrapcolumn: int, dataList: seq<Entry>, lineNum0: LineNum, text0: string)
    returns (out: seq<Entry>)
    requires CanWrap(eaw, wrapcolumn, lineNum0, text0)
    ensures out == dataList + Wrap(eaw, wrapcolumn, lineNum0, text0)
  {
    out := dataList;
    var lineNum, text := lineNum0, text0;
    while true
      invariant CanWrap(eaw, wrapcolumn, lineNum, text)
      invariant out + Wrap(eaw, wrapcolumn, lineNum, text) == dataList + Wrap(eaw, wrapcolumn, lineNum0, text0)
      decreases Measure(eaw, wrapcolumn, lineNum, text)
    {
      if !Truthy(lineNum) {
        out := out + [(lineNum, text)];
        return;
      }
      if DisplayLen(eaw, text) - Count(text, '\0') * 3 <= wrapcolumn {
        out := out + [(lineNum, text)];
        return;
      }
      assert text[0..] == text;
      var i, n, mark := FindCut(eaw, wrapcolumn, text);
      var line1, line2 := text[..i], text[i..];
      if mark.Some? {
        line1 := line1 + "\U{1}";
        line2 := ['\0', mark.value] + line2;
      }
      assert line1 == HeadPiece(text, i, mark) && line2 == RestPiece(text, i, mark);
      WrapProgress(eaw, wrapcolumn, lineNum, text);
      WrapStep(eaw, wrapcolumn, lineNum, text);
      SeqAssoc3(out, [(lineNum, line1)], Wrap(eaw, wrapcolumn, Cont, line2));
      out := out + [(lineNum, line1)];
      lineNum, text := Cont, line2;
    }
  }

  // ---------------------------------------------------------------
  // What the wrapped entries promise
  // ---------------------------------------------------------------

  /**
   * One entry per line that fits as it is; otherwise at least two, the
   * first under the line's own number and every later one under ">".
   */
  lemma {:induction false} WrapShape(eaw: char -> bool, wrapcolumn: int, lineNum: LineNum, text: string)
    requires CanWrap(eaw, wrapcolumn, lineNum, text)
    ensures var r := Wrap(eaw, wrapcolumn, lineNum, text);
      |r| >= 1 && r[0].0 == lineNum && (forall k :: 1 <= k < |r| ==> r[k].0 == Cont)
      && (FitsAsIs(eaw, wrapcolumn, lineNum, text) ==> r == [(lineNum, text)])
      && (!FitsAsIs(eaw, wrapcolumn, lineNum, text) ==> |r| >= 2)
    decreases Measure(eaw, wrapcolumn, lineNum, text)
  {
    if !FitsAsIs(eaw, wrapcolumn, lineNum, text) {
      assert text[0..] == text;
      var c := ScanCut(eaw, wrapcolumn, text, 0, 0, None);
      WrapProgress(eaw, wrapcolumn, lineNum, text);
      var rest := RestPiece(text, c.0, c.2);
      WrapShape(eaw, wrapcolumn, Cont, rest);
      WrapStep(eaw, wrapcolumn, lineNum, text);
      var tail := Wrap(eaw, wrapcolumn, Cont, rest);
      var r := Wrap(eaw, wrapcolumn, lineNum, text);
      forall k | 1 <= k < |r|
        ensures r[k].0 == Cont
      {
        assert r[k] == tail[k - 1];
      }
    }
  }

  /** The text a line shows, markup removed. */
  function Visible(t: string): string
  {
    Shown(Render(t, None))
  }

  /** How the scan moves over one token, seen from the prefix it has read. */
  lemma PrefixStep(text: string, i: nat)
    requires i < |text| && Complete(text[..i]) && Complete(text[i..])
    ensures var j := if text[i] == '\0' then i + 2 else i + 1;
      var m := EndMark(text[..i], None);
      j <= |text| && Complete(text[..j]) && Complete(text[j..])
      && Render(text[..j], None)
         == Render(text[..i], None) + (if text[i] == '\0' || text[i] == '\U{1}' then [] else [(m, text[i])])
      && EndMark(text[..j], None)
         == (if text[i] == '\0' then Some(text[i + 1]) else if text[i] == '\U{1}' then None else m)
  {
    CompleteStep(text, i);
    var j := if text[i] == '\0' then i + 2 else i + 1;
    var tok := text[i..j];
    assert text[..j] == text[..i] + tok;
    RenderConcat(text[..i], tok, None);
    MarkupConcat(text[..i], tok);
    if text[i] == '\0' {
      assert tok == ['\0', text[i + 1]] && tok[2..] == [];
    } else {
      assert tok == [text[i]] && tok[1..] == [];
    }
  }

  /** Shown text of a rendering extended by one character. */
  lemma ShownSnoc(r: seq<(Option<char>, char)>, e: (Option<char>, char))
    ensures Shown(r + [e]) == Shown(r) + [e.1]
  {
  }

  /** The bookkeeping of the scan, as a property of the prefix it has read. */
  predicate Tracked(eaw: char -> bool, text: string, i: nat, n: int, mark: Option<char>)
    requires i <= |text|
  {
    Complete(text[..i]) && EndMark(text[..i], None) == mark && n == DisplayLen(eaw, Visible(text[..i]))
  }

  /** One turn of the scan keeps its bookkeeping true. */
  lemma TrackedStep(eaw: char -> bool, text: string, i: nat, n: int, mark: Option<char>)
    requires i < |text| && Complete(text[i..]) && Tracked(eaw, text, i, n, mark)
    ensures text[i] == '\0' ==> i + 1 < |text| && Tracked(eaw, text, i + 2, n, Some(text[i + 1]))
    ensures text[i] == '\U{1}' ==> Tracked(eaw, text, i + 1, n, None)
    ensures text[i] != '\0' && text[i] != '\U{1}' ==>
      Tracked(eaw, text, i + 1, n + DisplayLen(eaw, [text[i]]), mark)
  {
    PrefixStep(text, i);
    if text[i] == '\0' {
      assert Render(text[..i + 2], None) == Render(text[..i], None) + [];
      assert Render(text[..i + 2], None) == Render(text[..i], None);
    } else if text[i] == '\U{1}' {
      assert Render(text[..i + 1], None) == Render(text[..i], None) + [];
      assert Render(text[..i + 1], None) == Render(text[..i], None);
    } else {
      assert [text[i]][..0] == [];
      ShownSnoc(Render(text[..i], None), (mark, text[i]));
      DisplayLenAppend(eaw, Visible(text[..i]), [text[i]]);
    }
  }

  /**
   * What the scan keeps track of, it keeps: the prefix read so far is
   * complete, `mark` is the mark in force after it, and `n` is its shown
   * width.
   */
  lemma {:induction false} ScanCutTracks(eaw: char -> bool, wrapcolumn: int, text: string,
                                         i: nat, n: int, mark: Option<char>)
    requires i <= |text| && Complete(text[i..]) && Tracked(eaw, text, i, n, mark)
    ensures var r := ScanCut(eaw, wrapcolumn, text, i, n, mark);
      Tracked(eaw, text, r.0, r.1, r.2)
    decreases |text| - i
  {
    var r := ScanCut(eaw, wrapcolumn, text, i, n, mark);
    if n < wrapcolumn && i < |text| {
      TrackedStep(eaw, text, i, n, mark);
      ScanCutStep(eaw, wrapcolumn, text, i, n, mark);
      var i', n', mark' := if text[i] == '\0' then i + 2 else i + 1,
        if text[i] == '\0' || text[i] == '\U{1}' then n else n + DisplayLen(eaw, [text[i]]),
        if text[i] == '\0' then Some(text[i + 1]) else if text[i] == '\U{1}' then None else mark;
      assert Complete(text[i'..]) && Tracked(eaw, text, i', n', mark');
      assert r == ScanCut(eaw, wrapcolumn, text, i', n', mark');
      ScanCutTracks(eaw, wrapcolumn, text, i', n', mark');
    } else {
      assert r == (i, n, mark);
    }
  }

  /** The count overshoots the wrap column by at most one column. */
  lemma {:induction false} ScanCutBound(eaw: char -> bool, wrapcolumn: int, text: string,
                                        i: nat, n: int, mark: Option<char>)
    requires i <= |text| && Complete(text[i..]) && n <= wrapcolumn + 1
    ensures ScanCut(eaw, wrapcolumn, text, i, n, mark).1 <= wrapcolumn + 1
    decreases |text| - i
  {
    if n < wrapcolumn && i < |text| {
      CompleteStep(text, i);
      if text[i] == '\0' {
        ScanCutBound(eaw, wrapcolumn, text, i + 2, n, Some(text[i + 1]));
      } else if text[i] == '\U{1}' {
        ScanCutBound(eaw, wrapcolumn, text, i + 1, n, None);
      } else {
        ScanCutBound(eaw, wrapcolumn, text, i + 1, n + DisplayLen(eaw, [text[i]]), mark);
      }
    }
  }

  /**
   * One cut loses nothing shown: head and rest together show the whole
   * text, each mark still in force where it was.
   */
  lemma CutShows(eaw: char -> bool, wrapcolumn: int, text: string)
    requires Complete(text)
    ensures var c := (assert text[0..] == text; ScanCut(eaw, wrapcolumn, text, 0, 0, None));
      Render(text, None) == Render(HeadPiece(text, c.0, c.2), None) + Render(RestPiece(text, c.0, c.2), None)
  {
    assert text[0..] == text;
    assert text[..0] == [];
    var c := ScanCut(eaw, wrapcolumn, text, 0, 0, None);
    ScanCutTracks(eaw, wrapcolumn, text, 0, 0, None);
    var i, mark := c.0, c.2;
    var head := HeadPiece(text, i, mark);
    var rest := RestPiece(text, i, mark);
    assert text == text[..i] + text[i..];
    RenderConcat(text[..i], text[i..], None);
    MarkupConcat(text[..i], text[i..]);
    var close := if mark.Some? then "\U{1}" else "";
    RenderConcat(text[..i], close, None);
    MarkupConcat(text[..i], close);
    if mark.Some? {
      assert close[1..] == [];
      assert rest[0] == '\0' && rest[1] == mark.value && rest[2..] == text[i..];
    } else {
      assert rest == text[i..];
      assert text[..i] + close == text[..i];
    }
    assert Render(head, None) == Render(text[..i], None);
  }

  /** The head of a cut shows at most one column past the wrap column. */
  lemma CutHeadWidth(eaw: char -> bool, wrapcolumn: int, text: string)
    requires Complete(text) && wrapcolumn >= -1
    ensures var c := (assert text[0..] == text; ScanCut(eaw, wrapcolumn, text, 0, 0, None));
      DisplayLen(eaw, Visible(HeadPiece(text, c.0, c.2))) <= wrapcolumn + 1
  {
    assert text[0..] == text;
    assert text[..0] == [];
    var c := ScanCut(eaw, wrapcolumn, text, 0, 0, None);
    ScanCutTracks(eaw, wrapcolumn, text, 0, 0, None);
    ScanCutBound(eaw, wrapcolumn, text, 0, 0, None);
    var i, mark := c.0, c.2;
    var close := if mark.Some? then "\U{1}" else "";
    RenderConcat(text[..i], close, None);
    MarkupConcat(text[..i], close);
    if mark.Some? {
      assert close[1..] == [];
    } else {
      assert text[..i] + close == text[..i];
    }
    assert Render(HeadPiece(text, i, mark), None) == Render(text[..i], None);
  }

  /** The renderings of a list of entries, one after another. */
  function RenderAll(es: seq<Entry>): seq<(Option<char>, char)>
    decreases |es|
  {
    if es == [] then [] else Render(es[0].1, None) + RenderAll(es[1..])
  }

  /**
   * Wrapping loses and adds nothing that is shown: the entries, each
   * rendered on its own, show the characters of the line in order, each
   * with the mark it had.
   */
  lemma {:induction false} WrapRestores(eaw: char -> bool, wrapcolumn: int, lineNum: LineNum, text: string)
    requires Complete(text) && (wrapcolumn > 0 || FitsAsIs(eaw, wrapcolumn, lineNum, text))
    ensures RenderAll(Wrap(eaw, wrapcolumn, lineNum, text)) == Render(text, None)
    decreases Measure(eaw, wrapcolumn, lineNum, text)
  {
    var r := Wrap(eaw, wrapcolumn, lineNum, text);
    if FitsAsIs(eaw, wrapcolumn, lineNum, text) {
      assert r[1..] == [];
    } else {
      assert text[0..] == text;
      var c := ScanCut(eaw, wrapcolumn, text, 0, 0, None);
      WrapProgress(eaw, wrapcolumn, lineNum, text);
      CutShows(eaw, wrapcolumn, text);
      var rest := RestPiece(text, c.0, c.2);
      WrapRestores(eaw, wrapcolumn, Cont, rest);
      WrapStep(eaw, wrapcolumn, lineNum, text);
      assert r[1..] == Wrap(eaw, wrapcolumn, Cont, rest);
    }
  }

  /**
   * Every entry but the last shows at most one column more than the
   * wrap column (a double-width character may straddle it), and the
   * last passes the source's own fit test.
   */
  predicate WidthsHold(eaw: char -> bool, wrapcolumn: int, r: seq<Entry>)
  {
    |r| >= 1
    && (forall k :: 0 <= k < |r| - 1 ==> DisplayLen(eaw, Visible(r[k].1)) <= wrapcolumn + 1)
    && FitsAsIs(eaw, wrapcolumn, r[|r| - 1].0, r[|r| - 1].1)
  }

  /** The width bounds survive putting a narrow enough entry in front. */
  lemma WidthsCons(eaw: char -> bool, wrapcolumn: int, e: Entry, tail: seq<Entry>)
    requires DisplayLen(eaw, Visible(e.1)) <= wrapcolumn + 1 && WidthsHold(eaw, wrapcolumn, tail)
    ensures WidthsHold(eaw, wrapcolumn, [e] + tail)
  {
    var r := [e] + tail;
    forall k | 1 <= k < |r| - 1
      ensures DisplayLen(eaw, Visible(r[k].1)) <= wrapcolumn + 1
    {
      assert r[k] == tail[k - 1];
    }
    assert r[|r| - 1] == tail[|tail| - 1];
  }

  /** The step of `WrapWidths` at a line that does not fit. */
  lemma WidthsStep(eaw: char -> bool, wrapcolumn: int, lineNum: LineNum, text: string)
    requires Complete(text) && wrapcolumn > 0 && !FitsAsIs(eaw, wrapcolumn, lineNum, text)
    requires text[0..] == text
    requires var c := ScanCut(eaw, wrapcolumn, text, 0, 0, None);
      Complete(RestPiece(text, c.0, c.2))
      && WidthsHold(eaw, wrapcolumn, Wrap(eaw, wrapcolumn, Cont, RestPiece(text, c.0, c.2)))
    ensures WidthsHold(eaw, wrapcolumn, Wrap(eaw, wrapcolumn, lineNum, text))
  {
    assert text[0..] == text;
    var c := ScanCut(eaw, wrapcolumn, text, 0, 0, None);
    CutHeadWidth(eaw, wrapcolumn, text);
    WrapStep(eaw, wrapcolumn, lineNum, text);
    WidthsCons(eaw, wrapcolumn, (lineNum, HeadPiece(text, c.0, c.2)), Wrap(eaw, wrapcolumn, Cont, RestPiece(text, c.0, c.2)));
  }

  /** The width bounds hold for every line `_split_line` wraps. */
  lemma {:induction false} WrapWidths(eaw: char -> bool, wrapcolumn: int, lineNum: LineNum, text: string)
    requires Complete(text) && (wrapcolumn > 0 || FitsAsIs(eaw, wrapcolumn, lineNum, text))
    ensures WidthsHold(eaw, wrapcolumn, Wrap(eaw, wrapcolumn, lineNum, text))
    decreases Measure(eaw, wrapcolumn, lineNum, text)
  {
    if !FitsAsIs(eaw, wrapcolumn, lineNum, text) {
      assert text[0..] == text;
      var c := ScanCut(eaw, wrapcolumn, text, 0, 0, None);
      WrapProgress(eaw, wrapcolumn, lineNum, text);
      WrapWidths(eaw, wrapcolumn, Cont, RestPiece(text, c.0, c.2));
      WidthsStep(eaw, wrapcolumn, lineNum, text);
    }
  }

  // ---------------------------------------------------------------
  // _line_wrapper
  // ---------------------------------------------------------------

  /** One row of difflib's side-by-side output: the two sides and the change flag (None on a separator). */
  type Diff = (Entry, Entry, Option<bool>)

  /** The blank entry that pads the shorter side. */
  const Filler: Entry := (Blank, " ")

  function Rest<T>(a: seq<T>): seq<T>
  {
    if a == [] then [] else a[1..]
  }

  /** The pop loop of `_line_wrapper`, as a recursion over the two lists. */
  function Paired(a: seq<Entry>, b: seq<Entry>, flag: bool): seq<Diff>
    decreases |a| + |b|
  {
    if a == [] && b == [] then []
    else [(if a != [] then a[0] else Filler, if b != [] then b[0] else Filler, Some(flag))]
         + Paired(Rest(a), Rest(b), flag)
  }

  /**
   * As many rows as the longer side has entries, in order, the shorter
   * side filled with ("", " "), each row carrying the flag.
   */
  lemma {:induction false} PairedRows(a: seq<Entry>, b: seq<Entry>, flag: bool)
    ensures var r := Paired(a, b, flag);
      |r| == (if |a| >= |b| then |a| else |b|)
      && forall k :: 0 <= k < |r| ==>
           r[k] == (if k < |a| then a[k] else Filler, if k < |b| then b[k] else Filler, Some(flag))
    decreases |a| + |b|
  {
    if a != [] || b != [] {
      PairedRows(Rest(a), Rest(b), flag);
      var r := Paired(a, b, flag);
      var t := Paired(Rest(a), Rest(b), flag);
      forall k | 1 <= k < |r|
        ensures r[k] == (if k < |a| then a[k] else Filler, if k < |b| then b[k] else Filler, Some(flag))
      {
        assert r[k] == t[k - 1];
        if k < |a| {
          assert Rest(a)[k - 1] == a[k];
        }
        if k < |b| {
          assert Rest(b)[k - 1] == b[k];
        }
      }
    }
  }

  /** Popping the heads of the two lists, a blank entry standing in for an empty one. */
  lemma PairedPop(a: seq<Entry>, b: seq<Entry>, flag: bool)
    requires a != [] || b != []
    ensures Paired(a, b, flag)
         == [(if a != [] then a[0] else Filler, if b != [] then b[0] else Filler, Some(flag))]
            + Paired(Rest(a), Rest(b), flag)
  {
  }

  /** The `while fromlist or tolist` loop of `_line_wrapper`. */
  method PairUp(fromlist: seq<Entry>, tolist: seq<Entry>, flag: bool) returns (rows: seq<Diff>)
    ensures rows == Paired(fromlist, tolist, flag)
  {
    rows := [];
    var fl, tl := fromlist, tolist;
    while fl != [] || tl != []
      invariant rows + Paired(fl, tl, flag) == Paired(fromlist, tolist, flag)
      decreases |fl| + |tl|
    {
      ghost var fl0, tl0 := fl, tl;
      var fromdata: Entry, todata: Entry;
      if fl != [] {
        fromdata := fl[0];
        fl := fl[1..];
      } else {
        fromdata := Filler;
      }
      if tl != [] {
        todata := tl[0];
        tl := tl[1..];
      } else {
        todata := Filler;
      }
      assert fl == Rest(fl0) && tl == Rest(tl0);
      PairedPop(fl0, tl0, flag);
      var row := (fromdata, todata, Some(flag));
      assert [row] + Paired(fl, tl, flag) == Paired(fl0, tl0, flag);
      SeqAssoc3(rows, [row], Paired(fl, tl, flag));
      rows := rows + [row];
    }
  }

  /** A side `_split_line` can wrap: its markup is complete, and wrapping can make progress. */
  predicate Wrappable(eaw: char -> bool, wrapcolumn: int, e: Entry)
  {
    CanWrap(eaw, wrapcolumn, e.0, e.1)
  }

  predicate WrappableRow(eaw: char -> bool, wrapcolumn: int, d: Diff)
  {
    d.2.None? || (Wrappable(eaw, wrapcolumn, d.0) && Wrappable(eaw, wrapcolumn, d.1))
  }

  /** Every row of `ds` can be wrapped. */
  predicate AllWrappable(eaw: char -> bool, wrapcolumn: int, ds: seq<Diff>)
  {
    forall k :: 0 <= k < |ds| ==> WrappableRow(eaw, wrapcolumn, ds[k])
  }

  lemma AllWrappableAppend(eaw: char -> bool, wrapcolumn: int, a: seq<Diff>, b: seq<Diff>)
    requires AllWrappable(eaw, wrapcolumn, a) && AllWrappable(eaw, wrapcolumn, b)
    ensures AllWrappable(eaw, wrapcolumn, a + b)
  {
    forall k | 0 <= k < |a + b|
      ensures WrappableRow(eaw, wrapcolumn, (a + b)[k])
    {
      if k < |a| {
        assert (a + b)[k] == a[k];
      } else {
        assert (a + b)[k] == b[k - |a|];
      }
    }
  }

  lemma AllWrappablePrefix(eaw: char -> bool, wrapcolumn: int, ds: seq<Diff>, i: nat)
    requires AllWrappable(eaw, wrapcolumn, ds) && i <= |ds|
    ensures AllWrappable(eaw, wrapcolumn, ds[..i])
  {
    forall k | 0 <= k < i
      ensures WrappableRow(eaw, wrapcolumn, ds[..i][k])
    {
      assert ds[..i][k] == ds[k];
    }
  }

  /** The rows one input row turns into: none for a separator, else the two wrapped sides paired. */
  function WrapRow(eaw: char -> bool, wrapcolumn: int, d: Diff): seq<Diff>
    requires WrappableRow(eaw, wrapcolumn, d)
  {
    if d.2.None? then []
    else Paired(Wrap(eaw, wrapcolumn, d.0.0, d.0.1), Wrap(eaw, wrapcolumn, d.1.0, d.1.1), d.2.value)
  }

  /** All rows `_line_wrapper` yields, in order. */
  function Wrapped(eaw: char -> bool, wrapcolumn: int, ds: seq<Diff>): seq<Diff>
    requires AllWrappable(eaw, wrapcolumn, ds)
    decreases |ds|
  {
    if ds == [] then []
    else
      AllWrappablePrefix(eaw, wrapcolumn, ds, |ds| - 1);
      Wrapped(eaw, wrapcolumn, ds[..|ds| - 1]) + WrapRow(eaw, wrapcolumn, ds[|ds| - 1])
  }

  /**
   * `_line_wrapper` as the source writes it; the generator's rows are
   * collected into a list.
   */
  method LineWrapper(eaw: char -> bool, wrapcolumn: int, diffs: seq<Diff>) returns (out: seq<Diff>)
    requires AllWrappable(eaw, wrapcolumn, diffs)
    ensures out == Wrapped(eaw, wrapcolumn, diffs)
  {
    out := [];
    for i := 0 to |diffs|
      invariant AllWrappable(eaw, wrapcolumn, diffs[..i])
      invariant out == Wrapped(eaw, wrapcolumn, diffs[..i])
    {
      AllWrappablePrefix(eaw, wrapcolumn, diffs, i + 1);
      assert diffs[..i + 1][..i] == diffs[..i];
      assert diffs[..i + 1][i] == diffs[i];
      var (fromdata, todata, flag) := diffs[i];
      assert WrappableRow(eaw, wrapcolumn, diffs[i]);
      if flag.Some? {
        var fromlist := SplitLine(eaw, wrapcolumn, [], fromdata.0, fromdata.1);
        var tolist := SplitLine(eaw, wrapcolumn, [], todata.0, todata.1);
        var rows := PairUp(fromlist, tolist, flag.value);
        assert fromlist == Wrap(eaw, wrapcolumn, fromdata.0, fromdata.1) by {
          assert [] + Wrap(eaw, wrapcolumn, fromdata.0, fromdata.1) == Wrap(eaw, wrapcolumn, fromdata.0, fromdata.1);
        }
        assert tolist == Wrap(eaw, wrapcolumn, todata.0, todata.1) by {
          assert [] + Wrap(eaw, wrapcolumn, todata.0, todata.1) == Wrap(eaw, wrapcolumn, todata.0, todata.1);
        }
        assert rows == WrapRow(eaw, wrapcolumn, (fromdata, todata, flag));
        out := out + rows;
      } else {
        assert WrapRow(eaw, wrapcolumn, diffs[i]) == [];
      }
    }
    assert diffs[..|diffs|] == diffs;
  }

  /** Wrapping a concatenation wraps each part: rows keep their input order. */
  lemma {:induction false} WrappedAppend(eaw: char -> bool, wrapcolumn: int, a: seq<Diff>, b: seq<Diff>)
    requires AllWrappable(eaw, wrapcolumn, a) && AllWrappable(eaw, wrapcolumn, b)
    ensures AllWrappable(eaw, wrapcolumn, a + b)
    ensures Wrapped(eaw, wrapcolumn, a + b) == Wrapped(eaw, wrapcolumn, a) + Wrapped(eaw, wrapcolumn, b)
    decreases |b|
  {
    AllWrappableAppend(eaw, wrapcolumn, a, b);
    if b == [] {
      assert a + b == a;
    } else {
      var b' := b[..|b| - 1];
      AllWrappablePrefix(eaw, wrapcolumn, b, |b| - 1);
      assert (a + b)[..|a + b| - 1] == a + b';
      assert (a + b)[|a + b| - 1] == b[|b| - 1];
      WrappedAppend(eaw, wrapcolumn, a, b');
    }
  }

  /**
   * A separator row yields nothing; any other row yields as many rows as
   * its longer side wraps into, the first carrying both line numbers.
   */
  lemma WrapRowShape(eaw: char -> bool, wrapcolumn: int, d: Diff)
    requires WrappableRow(eaw, wrapcolumn, d)
    ensures d.2.None? ==> WrapRow(eaw, wrapcolumn, d) == []
    ensures d.2.Some? ==>
      var l := Wrap(eaw, wrapcolumn, d.0.0, d.0.1);
      var r := Wrap(eaw, wrapcolumn, d.1.0, d.1.1);
      var rows := WrapRow(eaw, wrapcolumn, d);
      |rows| == (if |l| >= |r| then |l| else |r|) && |rows| >= 1
      && rows[0].0.0 == d.0.0 && rows[0].1.0 == d.1.0
      && forall k :: 0 <= k < |rows| ==> rows[k].2 == d.2
  {
    if d.2.Some? {
      WrapShape(eaw, wrapcolumn, d.0.0, d.0.1);
      WrapShape(eaw, wrapcolumn, d.1.0, d.1.1);
      PairedRows(Wrap(eaw, wrapcolumn, d.0.0, d.0.1), Wrap(eaw, wrapcolumn, d.1.0, d.1.1), d.2.value);
    }
  }

  /** No row `_line_wrapper` yields is a separator. */
  lemma {:induction false} WrappedFlags(eaw: char -> bool, wrapcolumn: int, ds: seq<Diff>)
    requires AllWrappable(eaw, wrapcolumn, ds)
    ensures forall k :: 0 <= k < |Wrapped(eaw, wrapcolumn, ds)| ==> Wrapped(eaw, wrapcolumn, ds)[k].2.Some?
    decreases |ds|
  {
    if ds != [] {
      var front := ds[..|ds| - 1];
      AllWrappablePrefix(eaw, wrapcolumn, ds, |ds| - 1);
      WrappedFlags(eaw, wrapcolumn, front);
      var d := ds[|ds| - 1];
      WrapRowShape(eaw, wrapcolumn, d);
      var w := Wrapped(eaw, wrapcolumn, ds);
      var f := Wrapped(eaw, wrapcolumn, front);
      var t := WrapRow(eaw, wrapcolumn, d);
      assert w == f + t;
      forall k | 0 <= k < |w|
        ensures w[k].2.Some?
      {
        if k < |f| {
          assert w[k] == f[k];
        } else {
          assert w[k] == t[k - |f|];
        }
      }
    }
  }

  // ---------------------------------------------------------------
  // Options
  // ---------------------------------------------------------------

  /**
   * `Options.__post_init__`: half the terminal width (rounded down) less
   * 2 without line numbers, less 10 with them.
   */
  function WrapColumn(cols: int, lineNumbers: bool): (r: int)
    ensures var gutter := if lineNumbers then 10 else 2;
      2 * (r + gutter) <= cols <= 2 * (r + gutter) + 1
  {
    if !lineNumbers then cols / 2 - 2 else cols / 2 - 10
  }

  /** The wrap column is positive, as wrapping needs, exactly from 22 columns (6 without line numbers). */
  lemma WrapColumnPositive(cols: int, lineNumbers: bool)
    ensures WrapColumn(cols, lineNumbers) > 0 <==> cols >= (if lineNumbers then 22 else 6)
  {
  }

  /** The renderer's settings; `wrapcolumn` is derived from the others. */
  class Options {
    var cols: int
    var lineNumbers: bool
    var tabsize: int
    var wholeFile: bool
    var unified: int
    var wrapcolumn: int

    constructor (cols: int, lineNumbers: bool, tabsize: int, wholeFile: bool, unified: int)
      ensures this.cols == cols && this.lineNumbers == lineNumbers && this.tabsize == tabsize
      ensures this.wholeFile == wholeFile && this.unified == unified
      ensures wrapcolumn == WrapColumn(cols, lineNumbers)
    {
      this.cols := cols;
      this.lineNumbers := lineNumbers;
      this.tabsize := tabsize;
      this.wholeFile := wholeFile;
      this.unified := unified;
      if !lineNumbers {
        wrapcolumn := cols / 2 - 2;
      } else {
        wrapcolumn := cols / 2 - 10;
      }
    }
  }
}
