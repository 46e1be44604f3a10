/**
 * Reflow of one side of a row into display rows of bounded width
 * (`split_parts`, `split_overflow`, `split_parts_diff` in src/lib.rs).
 * Segments are cut greedily; the whitespace at a cut is dropped and
 * nothing else is lost, reordered or re-classified.
 */
module Reflow {
  import opened Wrappers
  import opened Text
  import opened Segments
  import opened Gutter

  type Stream = seq<(Kind, char)>

  /** Every character of the stream is whitespace. */
  predicate AllWs(cs: Stream)
  {
    forall j :: 0 <= j < |cs| ==> IsRustWhitespace(cs[j].1)
  }

  /** No visible character is wider than `n` columns (wider whitespace is dropped at a cut). */
  predicate Fits(wc: char -> nat, cs: Stream, n: nat)
  {
    forall j :: 0 <= j < |cs| && !IsRustWhitespace(cs[j].1) ==> wc(cs[j].1) <= n
  }

  /** `b` is `a` with some whitespace characters deleted and nothing else changed. */
  predicate Erases(a: Stream, b: Stream)
    decreases |a|
  {
    if a == [] then b == []
    else
      || (b != [] && a[0] == b[0] && Erases(a[1..], b[1..]))
      || (IsRustWhitespace(a[0].1) && Erases(a[1..], b))
  }

  /** The characters of `cs` that are not whitespace. */
  function Visible(cs: Stream): (r: Stream)
    ensures |r| <= |cs|
    ensures forall j :: 0 <= j < |r| ==> !IsRustWhitespace(r[j].1)
  {
    if cs == [] then []
    else if IsRustWhitespace(cs[0].1) then Visible(cs[1..])
    else [cs[0]] + Visible(cs[1..])
  }

  /** Erasing whitespace keeps every visible character, in order and with its kind. */
  lemma {:induction false} ErasesKeepsVisible(a: Stream, b: Stream)
    requires Erases(a, b)
    ensures Visible(a) == Visible(b)
    ensures |b| <= |a|
    decreases |a|
  {
    if a != [] {
      if b != [] && a[0] == b[0] && Erases(a[1..], b[1..]) {
        ErasesKeepsVisible(a[1..], b[1..]);
      } else {
        ErasesKeepsVisible(a[1..], b);
      }
    }
  }

  /** Drop the segments with empty text. */
  function NonEmpty(ps: seq<Part>): (r: seq<Part>)
    ensures forall k :: 0 <= k < |r| ==> r[k].text != []
    ensures Chars(r) == Chars(ps)
  {
    if ps == [] then []
    else if ps[0].text == [] then NonEmpty(ps[1..])
    else [ps[0]] + NonEmpty(ps[1..])
  }

  lemma {:induction false} NonEmptyAppend(a: seq<Part>, b: seq<Part>)
    ensures NonEmpty(a + b) == NonEmpty(a) + NonEmpty(b)
  {
    if a == [] {
      assert a + b == b;
    } else {
      assert (a + b)[0] == a[0] && (a + b)[1..] == a[1..] + b;
      NonEmptyAppend(a[1..], b);
    }
  }

  /** The characters of all rows, one row after another. */
  function RowsChars(rows: seq<seq<Part>>): Stream
  {
    if rows == [] then [] else Chars(rows[0]) + RowsChars(rows[1..])
  }

  /** Segments with no characters have no width. */
  lemma {:induction false} NoCharsNoWidth(wc: char -> nat, ps: seq<Part>)
    requires Chars(ps) == []
    ensures PartsWidth(wc, ps) == 0
  {
    if ps != [] {
      assert |Tagged(ps[0])| == 0;
      NoCharsNoWidth(wc, ps[1..]);
    }
  }

  /** The display width of a stream: the sum of its characters' widths. */
  function StreamWidth(wc: char -> nat, cs: Stream): nat
  {
    if cs == [] then 0 else wc(cs[0].1) + StreamWidth(wc, cs[1..])
  }

  /**
   * Greedy layout inside one row of at most `n` columns: the input `a`
   * leaves the characters `r` on the row, which is `w` wide before and
   * `w1` wide after; `d` and `d1` say whether the character consumed
   * last was dropped.  A character stays on the row only if it fits;
   * a whitespace character may be dropped instead, but only if it does
   * not fit or directly follows dropped whitespace.
   */
  predicate FillsRow(wc: char -> nat, n: nat, a: Stream, r: Stream, w: nat, d: bool, w1: nat, d1: bool)
    decreases |a|
  {
    if a == [] then r == [] && w1 == w && d1 == d
    else
      || (r != [] && r[0] == a[0] && w + wc(a[0].1) <= n && FillsRow(wc, n, a[1..], r[1..], w + wc(a[0].1), false, w1, d1))
      || (IsRustWhitespace(a[0].1) && (d || w + wc(a[0].1) > n) && FillsRow(wc, n, a[1..], r, w, true, w1, d1))
  }

  /**
   * Greedy layout of `a` into the rest `cur` of the current row (`w`
   * wide so far) and then the rows `rows`: as in `FillsRow`, and besides
   * a new row starts only at a character that does not fit on the
   * current one or directly follows dropped whitespace.
   */
  predicate Flows(wc: char -> nat, n: nat, a: Stream, cur: Stream, rows: seq<seq<Part>>, w: nat, d: bool)
    decreases |a|, |rows|
  {
    if a == [] then cur == [] && rows == []
    else
      || (cur != [] && cur[0] == a[0] && w + wc(a[0].1) <= n && Flows(wc, n, a[1..], cur[1..], rows, w + wc(a[0].1), false))
      || (IsRustWhitespace(a[0].1) && (d || w + wc(a[0].1) > n) && Flows(wc, n, a[1..], cur, rows, w, true))
      || (cur == [] && rows != [] && (d || w + wc(a[0].1) > n) && Flows(wc, n, a, Chars(rows[0]), rows[1..], 0, false))
  }

  lemma {:induction false} TaggedWidth(wc: char -> nat, k: Kind, s: string)
    ensures StreamWidth(wc, Tagged(Part(k, s))) == StrWidth(wc, s)
    decreases |s|
  {
    if s != [] {
      assert Tagged(Part(k, s))[1..] == Tagged(Part(k, s[1..]));
      TaggedWidth(wc, k, s[1..]);
    }
  }

  /** Characters that fit one after another all stay on the row. */
  lemma {:induction false} FillsRowKeep(wc: char -> nat, n: nat, h: Stream, w: nat, d: bool)
    requires w + StreamWidth(wc, h) <= n
    ensures FillsRow(wc, n, h, h, w, d, w + StreamWidth(wc, h), if h == [] then d else false)
    decreases |h|
  {
    if h != [] {
      FillsRowKeep(wc, n, h[1..], w + wc(h[0].1), false);
    }
  }

  /** Whitespace starting with a character that does not fit (or after dropped whitespace) can all be dropped. */
  lemma {:induction false} FillsRowDrop(wc: char -> nat, n: nat, g: Stream, w: nat, d: bool)
    requires AllWs(g) && (g != [] ==> d || w + wc(g[0].1) > n)
    ensures FillsRow(wc, n, g, [], w, d, w, if g == [] then d else true)
    decreases |g|
  {
    if g != [] {
      assert forall j :: 0 <= j < |g[1..]| ==> g[1..][j] == g[j + 1];
      FillsRowDrop(wc, n, g[1..], w, true);
    }
  }

  lemma {:induction false} FillsRowAppend(wc: char -> nat, n: nat, a1: Stream, r1: Stream, w: nat, d: bool, w1: nat, d1: bool,
                                          a2: Stream, r2: Stream, w2: nat, d2: bool)
    requires FillsRow(wc, n, a1, r1, w, d, w1, d1) && FillsRow(wc, n, a2, r2, w1, d1, w2, d2)
    ensures FillsRow(wc, n, a1 + a2, r1 + r2, w, d, w2, d2)
    decreases |a1|
  {
    if a1 == [] {
      assert a1 + a2 == a2 && r1 + r2 == r2;
    } else {
      var c := a1[0];
      assert (a1 + a2)[0] == c && (a1 + a2)[1..] == a1[1..] + a2;
      if r1 != [] && r1[0] == c && w + wc(c.1) <= n && FillsRow(wc, n, a1[1..], r1[1..], w + wc(c.1), false, w1, d1) {
        FillsRowAppend(wc, n, a1[1..], r1[1..], w + wc(c.1), false, w1, d1, a2, r2, w2, d2);
        assert (r1 + r2)[0] == c && (r1 + r2)[1..] == r1[1..] + r2;
      } else {
        FillsRowAppend(wc, n, a1[1..], r1, w, true, w1, d1, a2, r2, w2, d2);
      }
    }
  }

  /** A filled row followed by a layout of the rest is a layout of the whole. */
  lemma {:induction false} FlowsAfterRow(wc: char -> nat, n: nat, a1: Stream, r1: Stream, w: nat, d: bool, w1: nat, d1: bool,
                                         a2: Stream, cur: Stream, rows: seq<seq<Part>>)
    requires FillsRow(wc, n, a1, r1, w, d, w1, d1) && Flows(wc, n, a2, cur, rows, w1, d1)
    ensures Flows(wc, n, a1 + a2, r1 + cur, rows, w, d)
    decreases |a1|
  {
    if a1 == [] {
      assert a1 + a2 == a2 && r1 + cur == cur;
    } else {
      var c := a1[0];
      assert (a1 + a2)[0] == c && (a1 + a2)[1..] == a1[1..] + a2;
      if r1 != [] && r1[0] == c && w + wc(c.1) <= n && FillsRow(wc, n, a1[1..], r1[1..], w + wc(c.1), false, w1, d1) {
        FlowsAfterRow(wc, n, a1[1..], r1[1..], w + wc(c.1), false, w1, d1, a2, cur, rows);
        assert (r1 + cur)[0] == c && (r1 + cur)[1..] == r1[1..] + cur;
      } else {
        FlowsAfterRow(wc, n, a1[1..], r1, w, true, w1, d1, a2, cur, rows);
      }
    }
  }

  /** A row keeps at most the characters it consumes. */
  lemma {:induction false} FillsRowLength(wc: char -> nat, n: nat, a: Stream, r: Stream, w: nat, d: bool, w1: nat, d1: bool)
    requires FillsRow(wc, n, a, r, w, d, w1, d1)
    ensures |r| <= |a|
    decreases |a|
  {
    if a != [] {
      var c := a[0];
      if r != [] && r[0] == c && w + wc(c.1) <= n && FillsRow(wc, n, a[1..], r[1..], w + wc(c.1), false, w1, d1) {
        FillsRowLength(wc, n, a[1..], r[1..], w + wc(c.1), false, w1, d1);
      } else {
        FillsRowLength(wc, n, a[1..], r, w, true, w1, d1);
      }
    }
  }

  /** A greedy layout only erases whitespace. */
  lemma {:induction false} FlowsErases(wc: char -> nat, n: nat, a: Stream, cur: Stream, rows: seq<seq<Part>>, w: nat, d: bool)
    requires Flows(wc, n, a, cur, rows, w, d)
    ensures Erases(a, cur + RowsChars(rows))
    decreases |a|, |rows|
  {
    if a == [] {
      assert cur + RowsChars(rows) == [];
    } else {
      var c := a[0];
      var b := cur + RowsChars(rows);
      if cur != [] && cur[0] == c && w + wc(c.1) <= n && Flows(wc, n, a[1..], cur[1..], rows, w + wc(c.1), false) {
        FlowsErases(wc, n, a[1..], cur[1..], rows, w + wc(c.1), false);
        assert b[0] == c && b[1..] == cur[1..] + RowsChars(rows);
      } else if IsRustWhitespace(c.1) && (d || w + wc(c.1) > n) && Flows(wc, n, a[1..], cur, rows, w, true) {
        FlowsErases(wc, n, a[1..], cur, rows, w, true);
      } else {
        FlowsErases(wc, n, a, Chars(rows[0]), rows[1..], 0, false);
        assert b == Chars(rows[0]) + RowsChars(rows[1..]);
      }
    }
  }

  /** The whitespace `Part::split` drops between head and tail. */
  function Gap(p: Part, wc: char -> nat, m: nat): Part
  {
    var r := p.Split(wc, m);
    PartSplitRestores(p, wc, m);
    Part(p.kind, p.text[|r.0.text|..|p.text| - |r.1.text|])
  }

  lemma {:induction false} PiecesTagged(p: Part, h: Part, g: Part, t: Part)
    requires h.kind == p.kind && g.kind == p.kind && t.kind == p.kind
    requires p.text == h.text + g.text + t.text
    ensures Tagged(p) == Tagged(h) + Tagged(g) + Tagged(t)
  {
    TaggedAppend(p.kind, h.text + g.text, t.text);
    TaggedAppend(p.kind, h.text, g.text);
    assert Part(p.kind, h.text) == h && Part(p.kind, t.text) == t && Part(p.kind, g.text) == g;
    assert Part(p.kind, p.text) == p;
  }

  lemma {:induction false} AllWsTagged(q: Part)
    requires forall i :: 0 <= i < |q.text| ==> IsRustWhitespace(q.text[i])
    ensures AllWs(Tagged(q))
  {
  }

  /** Cutting a segment loses only the whitespace between head and tail. */
  lemma {:induction false} SplitPiecesChars(p: Part, wc: char -> nat, m: nat)
    ensures Tagged(p) == Tagged(p.Split(wc, m).0) + Tagged(Gap(p, wc, m)) + Tagged(p.Split(wc, m).1)
    ensures AllWs(Tagged(Gap(p, wc, m)))
  {
    var h := p.Split(wc, m).0;
    var t := p.Split(wc, m).1;
    var g := Gap(p, wc, m);
    GapShape(p, wc, m);
    PiecesTagged(p, h, g, t);
    AllWsTagged(g);
  }

  /** Head, gap and tail spell the segment, all of its kind, the gap all whitespace. */
  lemma GapShape(p: Part, wc: char -> nat, m: nat)
    ensures var h, g, t := p.Split(wc, m).0, Gap(p, wc, m), p.Split(wc, m).1;
      && h.kind == p.kind && g.kind == p.kind && t.kind == p.kind
      && p.text == h.text + g.text + t.text
      && forall i :: 0 <= i < |g.text| ==> IsRustWhitespace(g.text[i])
  {
    GapSpells(p, wc, m);
    GapBlank(p, wc, m);
  }

  lemma GapSpells(p: Part, wc: char -> nat, m: nat)
    ensures p.text == p.Split(wc, m).0.text + Gap(p, wc, m).text + p.Split(wc, m).1.text
  {
    PartSplitRestores(p, wc, m);
  }

  lemma GapBlank(p: Part, wc: char -> nat, m: nat)
    ensures forall i :: 0 <= i < |Gap(p, wc, m).text| ==> IsRustWhitespace(Gap(p, wc, m).text[i])
  {
    var r := p.Split(wc, m);
    PartSplitRestores(p, wc, m);
    SliceBlank(p.text, |r.0.text|, |p.text| - |r.1.text|);
  }

  lemma {:induction false} SliceBlank(s: string, lo: nat, hi: nat)
    requires lo <= hi <= |s| && forall i :: lo <= i < hi ==> IsRustWhitespace(s[i])
    ensures forall i :: 0 <= i < |s[lo..hi]| ==> IsRustWhitespace(s[lo..hi][i])
  {
    forall i | 0 <= i < |s[lo..hi]|
      ensures IsRustWhitespace(s[lo..hi][i])
    {
      assert s[lo..hi][i] == s[lo + i];
    }
  }

  /** The head fits into `m`; a segment that fits is kept whole; a tail starts with a visible character. */
  lemma {:induction false} SplitPiecesWidth(p: Part, wc: char -> nat, m: nat)
    ensures var h, t := p.Split(wc, m).0, p.Split(wc, m).1;
      && StrWidth(wc, h.text) <= m
      && (StrWidth(wc, p.text) <= m ==> h == p && t.text == [])
      && (t.text != [] ==> StrWidth(wc, p.text) > m && !IsRustWhitespace(t.text[0]))
      && (p.text != [] && wc(p.text[0]) <= m ==> h.text != [] && h.text[0] == p.text[0])
  {
    PartSplitRestores(p, wc, m);
    SplitAtWidthHead(wc, p.text, m);
    SplitAtWidthRestores(wc, p.text, m);
  }

  /** The current row after a segment's head is added to it. */
  function Row(first: seq<Part>, h: Part): seq<Part>
  {
    if h.text != [] then first + [h] else first
  }

  predicate NoEmptyParts(ps: seq<Part>)
  {
    forall k :: 0 <= k < |ps| ==> ps[k].text != []
  }

  /**
   * What the first row built from the segments before `i` satisfies;
   * `d` says whether the last character consumed was dropped.
   */
  predicate RowInv(wc: char -> nat, parts: seq<Part>, n: nat, i: nat, first: seq<Part>, d: bool)
  {
    && i <= |parts|
    && PartsWidth(wc, first) <= n
    && NoEmptyParts(first)
    && FillsRow(wc, n, Chars(parts[..i]), Chars(first), 0, false, PartsWidth(wc, first), d)
    && (Chars(parts[..i]) == [] ==> first == [])
    && (Chars(parts[..i]) != [] && wc(Chars(parts[..i])[0].1) <= n ==> Chars(first) != [] && Chars(first)[0] == Chars(parts[..i])[0])
    && (PartsWidth(wc, parts[..i]) <= n ==> first == NonEmpty(parts[..i]))
  }

  /** The characters of the segments before and after `i`. */
  lemma {:induction false} PrefixChars(parts: seq<Part>, i: nat)
    requires i < |parts|
    ensures Chars(parts[..i + 1]) == Chars(parts[..i]) + Tagged(parts[i])
    ensures Chars(parts) == Chars(parts[..i]) + Tagged(parts[i]) + Chars(parts[i + 1..])
  {
    PrefixCharsStep(parts, i);
    assert parts == parts[..i + 1] + parts[i + 1..];
    CharsAppend(parts[..i + 1], parts[i + 1..]);
  }

  lemma {:induction false} PrefixCharsStep(parts: seq<Part>, i: nat)
    requires i < |parts|
    ensures Chars(parts[..i + 1]) == Chars(parts[..i]) + Tagged(parts[i])
  {
    assert parts[..i + 1] == parts[..i] + [parts[i]];
    CharsAppend(parts[..i], [parts[i]]);
    CharsSingle(parts[i]);
  }

  lemma {:induction false} PrefixWidth(wc: char -> nat, parts: seq<Part>, i: nat)
    requires i < |parts|
    ensures PartsWidth(wc, parts[..i + 1]) == PartsWidth(wc, parts[..i]) + StrWidth(wc, parts[i].text)
    ensures PartsWidth(wc, parts) == PartsWidth(wc, parts[..i + 1]) + PartsWidth(wc, parts[i + 1..])
  {
    assert parts[..i + 1] == parts[..i] + [parts[i]];
    assert parts == parts[..i + 1] + parts[i + 1..];
    assert [parts[i]][1..] == [];
    PartsWidthAppend(wc, parts[..i], [parts[i]]);
    PartsWidthAppend(wc, parts[..i + 1], parts[i + 1..]);
  }

  lemma {:induction false} PrefixNonEmpty(parts: seq<Part>, i: nat)
    requires i < |parts|
    ensures NonEmpty(parts[..i + 1]) == NonEmpty(parts[..i]) + NonEmpty([parts[i]])
  {
    assert parts[..i + 1] == parts[..i] + [parts[i]];
    NonEmptyAppend(parts[..i], [parts[i]]);
  }

  lemma {:induction false} RowAppend(wc: char -> nat, first: seq<Part>, h: Part)
    ensures Chars(Row(first, h)) == Chars(first) + Tagged(h)
    ensures PartsWidth(wc, Row(first, h)) == PartsWidth(wc, first) + StrWidth(wc, h.text)
  {
    assert [h][1..] == [];
    CharsAppend(first, [h]);
    PartsWidthAppend(wc, first, [h]);
    if h.text == [] {
      assert Tagged(h) == [];
      assert Chars(first) + [] == Chars(first);
    }
  }

  lemma {:induction false} NonEmptyWidth(wc: char -> nat, ps: seq<Part>)
    ensures PartsWidth(wc, NonEmpty(ps)) == PartsWidth(wc, ps)
  {
    if ps != [] {
      NonEmptyWidth(wc, ps[1..]);
      if ps[0].text != [] {
        assert ([ps[0]] + NonEmpty(ps[1..]))[1..] == NonEmpty(ps[1..]);
      }
    }
  }

  lemma {:induction false} FitsSuffix(wc: char -> nat, x: Stream, y: Stream, n: nat)
    requires Fits(wc, x + y, n)
    ensures Fits(wc, y, n)
  {
    forall j | 0 <= j < |y| && !IsRustWhitespace(y[j].1)
      ensures wc(y[j].1) <= n
    {
      assert y[j] == (x + y)[|x| + j];
    }
  }

  lemma {:induction false} CharsCons(t: Part, rest: seq<Part>)
    ensures Chars([t] + rest) == Tagged(t) + Chars(rest)
  {
    assert ([t] + rest)[1..] == rest;
  }

  lemma {:induction false} Regroup(a: Stream, p: Stream, h: Stream, g: Stream, t: Stream, r: Stream)
    requires p == h + g + t
    ensures a + p + r == a + h + (g + (t + r))
  {
  }

  /** Where a segment leaves a tail, the characters split into the row, the dropped gap and what remains. */
  lemma {:induction false} BreakChars(parts: seq<Part>, i: nat, h: Part, g: Part, t: Part)
    requires i < |parts| && Tagged(parts[i]) == Tagged(h) + Tagged(g) + Tagged(t)
    ensures Chars(parts) == Chars(parts[..i]) + Tagged(h) + (Tagged(g) + Chars([t] + parts[i + 1..]))
  {
    PrefixChars(parts, i);
    CharsCons(t, parts[i + 1..]);
    Regroup(Chars(parts[..i]), Tagged(parts[i]), Tagged(h), Tagged(g), Tagged(t), Chars(parts[i + 1..]));
  }

  /**
   * The facts about one cut that the reflow proof uses: head, dropped
   * whitespace and tail spell the segment; the head fits into `m`; a
   * segment that fits is kept whole; a tail starts with a visible
   * character; a segment whose first character fits has a non-empty head;
   * the character after the head does not fit.
   */
  predicate Cut(wc: char -> nat, p: Part, m: nat, h: Part, g: Part, t: Part)
  {
    && Tagged(p) == Tagged(h) + Tagged(g) + Tagged(t)
    && AllWs(Tagged(g))
    && |h.text| <= |p.text|
    && StrWidth(wc, h.text) <= m
    && (StrWidth(wc, p.text) <= m ==> h == p && t.text == [])
    && (t.text != [] ==> StrWidth(wc, p.text) > m && !IsRustWhitespace(t.text[0]))
    && (p.text != [] && wc(p.text[0]) <= m ==> h.text != [] && h.text[0] == p.text[0])
    && (|h.text| < |p.text| ==> StrWidth(wc, h.text) + wc(p.text[|h.text|]) > m)
  }

  lemma {:induction false} CutHolds(p: Part, wc: char -> nat, m: nat, h: Part, t: Part)
    requires (h, t) == p.Split(wc, m)
    ensures Cut(wc, p, m, h, Gap(p, wc, m), t)
  {
    SplitPiecesChars(p, wc, m);
    SplitPiecesWidth(p, wc, m);
    PartSplitRestores(p, wc, m);
    SplitOverflows(p, wc, m);
  }

  /** The head is the longest prefix that fits: the next character would overflow. */
  lemma {:induction false} SplitOverflows(p: Part, wc: char -> nat, m: nat)
    ensures var h := p.Split(wc, m).0;
      |h.text| < |p.text| ==> StrWidth(wc, h.text) + wc(p.text[|h.text|]) > m
  {
    var h := SplitAtWidth(wc, p.text, m).0;
    if |h| < |p.text| {
      HeadOverflows(wc, p.text, m, h);
    }
  }

  lemma {:induction false} HeadOverflows(wc: char -> nat, s: string, m: nat, h: string)
    requires h == SplitAtWidth(wc, s, m).0 && |h| < |s|
    ensures StrWidth(wc, h) + wc(s[|h|]) > m
  {
    var k := |h|;
    SplitAtWidthHead(wc, s, m);
    assert StrWidth(wc, s[..k + 1]) > m;
    assert s[..k + 1] == h + [s[k]];
    StrWidthAppend(wc, h, [s[k]]);
    assert [s[k]][1..] == [];
  }

  /** Whether the last character consumed was dropped, after a cut into head `h` and gap `g`. */
  function DroppedAfter(d: bool, h: Part, g: Part): bool
  {
    if g.text != [] then true else if h.text != [] then false else d
  }

  /**
   * One cut is a greedy step: the head stays on the row, the gap is
   * dropped, and a tail starts at a character that does not fit or
   * directly follows dropped whitespace.
   */
  lemma {:induction false} CutFlow(wc: char -> nat, n: nat, p: Part, w: nat, d: bool, h: Part, g: Part, t: Part)
    requires w <= n && Cut(wc, p, n - w, h, g, t)
    ensures FillsRow(wc, n, Tagged(h) + Tagged(g), Tagged(h), w, d, w + StrWidth(wc, h.text), DroppedAfter(d, h, g))
    ensures t.text != [] ==> DroppedAfter(d, h, g) || w + StrWidth(wc, h.text) + wc(t.text[0]) > n
  {
    var w1 := w + StrWidth(wc, h.text);
    assert Part(h.kind, h.text) == h;
    TaggedWidth(wc, h.kind, h.text);
    FillsRowKeep(wc, n, Tagged(h), w, d);
    var dh := if Tagged(h) == [] then d else false;
    if g.text != [] {
      assert Tagged(p)[|h.text|] == Tagged(g)[0];
    } else if t.text != [] {
      assert Tagged(p)[|h.text|] == Tagged(t)[0];
    }
    FillsRowDrop(wc, n, Tagged(g), w1, dh);
    FillsRowAppend(wc, n, Tagged(h), Tagged(h), w, d, w1, dh, Tagged(g), [], w1, DroppedAfter(d, h, g));
    assert Tagged(h) + [] == Tagged(h);
  }

  /** One segment that leaves no tail keeps the row invariant. */
  lemma {:induction false} RowStep(wc: char -> nat, parts: seq<Part>, n: nat, i: nat, first: seq<Part>, d: bool, h: Part, g: Part, t: Part)
    requires i < |parts| && RowInv(wc, parts, n, i, first, d) && Fits(wc, Chars(parts), n)
    requires Cut(wc, parts[i], n - PartsWidth(wc, first), h, g, t) && t.text == []
    ensures RowInv(wc, parts, n, i + 1, Row(first, h), DroppedAfter(d, h, g))
  {
    RowAppend(wc, first, h);
    RowStepFlow(wc, parts, n, i, first, d, h, g, t);
    RowStepFirst(wc, parts, n, i, first, d, h, g, t);
    RowStepFits(wc, parts, n, i, first, d, h, g, t);
  }

  /** The segment's head and gap extend the greedy layout of the row. */
  lemma {:induction false} RowStepFlow(wc: char -> nat, parts: seq<Part>, n: nat, i: nat, first: seq<Part>, d: bool, h: Part, g: Part, t: Part)
    requires i < |parts| && PartsWidth(wc, first) <= n
    requires FillsRow(wc, n, Chars(parts[..i]), Chars(first), 0, false, PartsWidth(wc, first), d)
    requires Cut(wc, parts[i], n - PartsWidth(wc, first), h, g, t) && t.text == []
    ensures FillsRow(wc, n, Chars(parts[..i + 1]), Chars(Row(first, h)), 0, false, PartsWidth(wc, Row(first, h)), DroppedAfter(d, h, g))
  {
    var w := PartsWidth(wc, first);
    PrefixCharsStep(parts, i);
    RowAppend(wc, first, h);
    CutFlow(wc, n, parts[i], w, d, h, g, t);
    assert Tagged(t) == [];
    assert Tagged(parts[i]) == Tagged(h) + Tagged(g);
    FillsRowAppend(wc, n, Chars(parts[..i]), Chars(first), 0, false, w, d,
                   Tagged(h) + Tagged(g), Tagged(h), w + StrWidth(wc, h.text), DroppedAfter(d, h, g));
  }

  lemma {:induction false} RowStepFirst(wc: char -> nat, parts: seq<Part>, n: nat, i: nat, first: seq<Part>, d: bool, h: Part, g: Part, t: Part)
    requires i < |parts| && RowInv(wc, parts, n, i, first, d) && Fits(wc, Chars(parts), n)
    requires Cut(wc, parts[i], n - PartsWidth(wc, first), h, g, t)
    ensures Chars(parts[..i + 1]) == [] ==> Row(first, h) == []
    ensures Chars(parts[..i + 1]) != [] && wc(Chars(parts[..i + 1])[0].1) <= n ==>
      Chars(Row(first, h)) != [] && Chars(Row(first, h))[0] == Chars(parts[..i + 1])[0]
  {
    var p := parts[i];
    PrefixChars(parts, i);
    RowAppend(wc, first, h);
    if Chars(parts[..i]) == [] {
      if p.text != [] && wc(p.text[0]) <= n {
        assert Chars(parts[..i + 1])[0] == (p.kind, p.text[0]);
        assert wc(p.text[0]) <= n - PartsWidth(wc, first);
        assert Chars(Row(first, h))[0] == (h.kind, h.text[0]);
        assert Tagged(h)[0] == Tagged(p)[0];
      } else if p.text == [] {
        assert Tagged(p) == [];
      }
    }
  }

  lemma {:induction false} RowStepFits(wc: char -> nat, parts: seq<Part>, n: nat, i: nat, first: seq<Part>, d: bool, h: Part, g: Part, t: Part)
    requires i < |parts| && RowInv(wc, parts, n, i, first, d)
    requires Cut(wc, parts[i], n - PartsWidth(wc, first), h, g, t)
    ensures PartsWidth(wc, parts[..i + 1]) <= n ==> Row(first, h) == NonEmpty(parts[..i + 1])
  {
    FitsStep(wc, parts, n, i, first, h);
  }

  lemma {:induction false} FitsStep(wc: char -> nat, parts: seq<Part>, n: nat, i: nat, first: seq<Part>, h: Part)
    requires i < |parts| && PartsWidth(wc, first) <= n
    requires PartsWidth(wc, parts[..i]) <= n ==> first == NonEmpty(parts[..i])
    requires StrWidth(wc, parts[i].text) <= n - PartsWidth(wc, first) ==> h == parts[i]
    ensures PartsWidth(wc, parts[..i + 1]) <= n ==> Row(first, h) == NonEmpty(parts[..i + 1])
  {
    var p := parts[i];
    if PartsWidth(wc, parts[..i + 1]) <= n {
      PrefixWidth(wc, parts, i);
      NonEmptyWidth(wc, parts[..i]);
      PrefixNonEmpty(parts, i);
      assert [p][1..] == [];
      assert h == p;
    }
  }

  /**
   * What `split_parts` promises about the rows `out` made from `parts`:
   * at least one row; every row at most `n` wide and free of empty
   * segments; the rows lay the input out greedily (`Flows`): every
   * character, in order and with its kind, stays on the current row
   * while it fits, and a new row starts or whitespace is dropped only at
   * a character that does not fit or right after dropped whitespace;
   * input that fits is one row of
   * its non-empty segments; the first row starts with the input's first
   * character unless that is whitespace wider than `n`; every later row
   * is non-empty and starts with a visible character.
   */
  predicate Reflowed(wc: char -> nat, parts: seq<Part>, n: nat, out: seq<seq<Part>>)
  {
    && |out| >= 1
    && (forall j :: 0 <= j < |out| ==> PartsWidth(wc, out[j]) <= n && NoEmptyParts(out[j]))
    && Flows(wc, n, Chars(parts), Chars(out[0]), out[1..], 0, false)
    && (PartsWidth(wc, parts) <= n ==> out == [NonEmpty(parts)])
    && (Chars(parts) != [] && wc(Chars(parts)[0].1) <= n ==> Chars(out[0]) != [] && Chars(out[0])[0] == Chars(parts)[0])
    && (forall j :: 1 <= j < |out| ==> Chars(out[j]) != [] && !IsRustWhitespace(Chars(out[j])[0].1))
  }

  /** The segments left after a cut are fewer characters, each still at most `n` wide. */
  lemma {:induction false} BreakPre(wc: char -> nat, parts: seq<Part>, n: nat, i: nat, first: seq<Part>, d: bool, h: Part, g: Part, t: Part)
    requires i < |parts| && RowInv(wc, parts, n, i, first, d) && Fits(wc, Chars(parts), n)
    requires Cut(wc, parts[i], n - PartsWidth(wc, first), h, g, t) && t.text != []
    ensures Fits(wc, Chars([t] + parts[i + 1..]), n)
    ensures |Chars([t] + parts[i + 1..])| < |Chars(parts)|
  {
    BreakChars(parts, i, h, g, t);
    var a := Chars(parts[..i]) + Tagged(h);
    assert Chars(parts) == a + Tagged(g) + Chars([t] + parts[i + 1..]);
    FitsSuffix(wc, a + Tagged(g), Chars([t] + parts[i + 1..]), n);
    BreakShrinks(wc, parts, n, i, first, d, h, g, t);
  }

  /** A cut that leaves a tail consumes something: the row before it, its head or its gap. */
  lemma {:induction false} BreakShrinks(wc: char -> nat, parts: seq<Part>, n: nat, i: nat, first: seq<Part>, d: bool, h: Part, g: Part, t: Part)
    requires i < |parts| && RowInv(wc, parts, n, i, first, d) && Fits(wc, Chars(parts), n)
    requires Cut(wc, parts[i], n - PartsWidth(wc, first), h, g, t) && t.text != []
    ensures |Chars(parts[..i])| + |h.text| + |g.text| > 0
  {
    if Chars(parts[..i]) == [] && h.text == [] && g.text == [] {
      TailIsPart(parts[i], h, g, t);
      FirstOfPart(parts, i);
      assert false;
    }
  }

  lemma {:induction false} TailIsPart(p: Part, h: Part, g: Part, t: Part)
    requires Tagged(p) == Tagged(h) + Tagged(g) + Tagged(t) && h.text == [] && g.text == []
    ensures p.text == t.text
  {
    EmptyPrefix(Tagged(h), Tagged(g), Tagged(t));
    SameTagged(p, t);
  }

  lemma {:induction false} EmptyPrefix(a: Stream, b: Stream, c: Stream)
    requires |a| == 0 && |b| == 0
    ensures a + b + c == c
  {
    assert a == [] && b == [];
  }

  /** Two segments with the same tagged characters have the same text. */
  lemma {:induction false} SameTagged(p: Part, q: Part)
    requires Tagged(p) == Tagged(q)
    ensures p.text == q.text
  {
    forall j | 0 <= j < |p.text|
      ensures p.text[j] == q.text[j]
    {
      assert Tagged(p)[j] == Tagged(q)[j];
    }
  }

  /** After segments with no characters, the input starts with the next segment's first character. */
  lemma {:induction false} FirstOfPart(parts: seq<Part>, i: nat)
    requires i < |parts| && Chars(parts[..i]) == [] && parts[i].text != []
    ensures Chars(parts) != [] && Chars(parts)[0] == (parts[i].kind, parts[i].text[0])
  {
    PrefixChars(parts, i);
  }

  /** The row a cut closes starts with the input's first character when that fits. */
  lemma {:induction false} BreakRowNonEmpty(wc: char -> nat, parts: seq<Part>, n: nat, i: nat, first: seq<Part>, d: bool, h: Part, g: Part, t: Part)
    requires i < |parts| && RowInv(wc, parts, n, i, first, d) && Fits(wc, Chars(parts), n)
    requires Cut(wc, parts[i], n - PartsWidth(wc, first), h, g, t) && t.text != []
    ensures Chars(parts) != []
    ensures wc(Chars(parts)[0].1) <= n ==> Chars(Row(first, h)) != [] && Chars(Row(first, h))[0] == Chars(parts)[0]
  {
    RowStepFirst(wc, parts, n, i, first, d, h, g, t);
    PrefixChars(parts, i);
    assert |Tagged(parts[i])| > 0;
    assert Chars(parts[..i + 1]) != [];
    assert Chars(parts)[0] == Chars(parts[..i + 1])[0];
  }

  /** After a cut, the rows are the closed row followed by the reflowed remainder. */
  lemma {:induction false} BreakPost(wc: char -> nat, parts: seq<Part>, n: nat, i: nat, first: seq<Part>, d: bool, h: Part, g: Part, t: Part,
                                     row: seq<Part>, rest: seq<seq<Part>>)
    requires i < |parts| && RowInv(wc, parts, n, i, first, d) && Fits(wc, Chars(parts), n)
    requires Cut(wc, parts[i], n - PartsWidth(wc, first), h, g, t) && t.text != []
    requires row == Row(first, h)
    requires Fits(wc, Chars([t] + parts[i + 1..]), n) && Reflowed(wc, [t] + parts[i + 1..], n, rest)
    ensures Reflowed(wc, parts, n, [row] + rest)
  {
    var out := [row] + rest;
    assert out[0] == row;
    RowAppend(wc, first, h);
    if PartsWidth(wc, parts) <= n {
      PrefixWidth(wc, parts, i);
      NonEmptyWidth(wc, parts[..i]);
      assert StrWidth(wc, parts[i].text) <= n - PartsWidth(wc, first);
      assert false;
    }
    assert out[1..] == rest;
    BreakFlow(wc, parts, n, i, first, d, h, g, t, rest);
    BreakRowNonEmpty(wc, parts, n, i, first, d, h, g, t);
    BreakRows(wc, n, row, t, parts[i + 1..], rest);
  }

  /** The closed row and the rows of the remainder are bounded; the remainder's rows start visibly. */
  lemma {:induction false} BreakRows(wc: char -> nat, n: nat, row: seq<Part>, t: Part, more: seq<Part>, rest: seq<seq<Part>>)
    requires PartsWidth(wc, row) <= n && NoEmptyParts(row)
    requires t.text != [] && !IsRustWhitespace(t.text[0])
    requires Fits(wc, Chars([t] + more), n) && Reflowed(wc, [t] + more, n, rest)
    ensures forall j :: 0 <= j < |[row] + rest| ==> PartsWidth(wc, ([row] + rest)[j]) <= n && NoEmptyParts(([row] + rest)[j])
    ensures forall j :: 1 <= j < |[row] + rest| ==> Chars(([row] + rest)[j]) != [] && !IsRustWhitespace(Chars(([row] + rest)[j])[0].1)
  {
    var out := [row] + rest;
    CharsCons(t, more);
    assert Chars([t] + more)[0] == Tagged(t)[0];
    forall j | 1 <= j < |out|
      ensures out[j] == rest[j - 1]
    {
    }
  }

  /** The closed row is filled greedily and the remainder starts a new row where the next character does not fit. */
  lemma {:induction false} BreakFlow(wc: char -> nat, parts: seq<Part>, n: nat, i: nat, first: seq<Part>, d: bool, h: Part, g: Part, t: Part,
                                     rest: seq<seq<Part>>)
    requires i < |parts| && PartsWidth(wc, first) <= n
    requires FillsRow(wc, n, Chars(parts[..i]), Chars(first), 0, false, PartsWidth(wc, first), d)
    requires Cut(wc, parts[i], n - PartsWidth(wc, first), h, g, t) && t.text != []
    requires rest != [] && Flows(wc, n, Chars([t] + parts[i + 1..]), Chars(rest[0]), rest[1..], 0, false)
    ensures Flows(wc, n, Chars(parts), Chars(Row(first, h)), rest, 0, false)
  {
    var w := PartsWidth(wc, first);
    var w1 := w + StrWidth(wc, h.text);
    var d1 := DroppedAfter(d, h, g);
    var more := Chars([t] + parts[i + 1..]);
    CutFlow(wc, n, parts[i], w, d, h, g, t);
    BreakStart(wc, n, t, parts[i + 1..], rest, w1, d1);
    FillsRowAppend(wc, n, Chars(parts[..i]), Chars(first), 0, false, w, d, Tagged(h) + Tagged(g), Tagged(h), w1, d1);
    FlowsAfterRow(wc, n, Chars(parts[..i]) + (Tagged(h) + Tagged(g)), Chars(first) + Tagged(h), 0, false, w1, d1, more, [], rest);
    BreakJoin(wc, parts, i, first, h, g, t);
  }

  /** The remainder after a cut starts the next row. */
  lemma {:induction false} BreakStart(wc: char -> nat, n: nat, t: Part, more: seq<Part>, rest: seq<seq<Part>>, w: nat, d: bool)
    requires t.text != [] && (d || w + wc(t.text[0]) > n)
    requires rest != [] && Flows(wc, n, Chars([t] + more), Chars(rest[0]), rest[1..], 0, false)
    ensures Flows(wc, n, Chars([t] + more), [], rest, w, d)
  {
    CharsCons(t, more);
    assert Chars([t] + more)[0] == Tagged(t)[0];
  }

  /** The characters of the input and of the closed row, regrouped around the cut. */
  lemma {:induction false} BreakJoin(wc: char -> nat, parts: seq<Part>, i: nat, first: seq<Part>, h: Part, g: Part, t: Part)
    requires i < |parts| && Tagged(parts[i]) == Tagged(h) + Tagged(g) + Tagged(t)
    ensures Chars(parts) == Chars(parts[..i]) + (Tagged(h) + Tagged(g)) + Chars([t] + parts[i + 1..])
    ensures Chars(first) + Tagged(h) + [] == Chars(Row(first, h))
  {
    BreakChars(parts, i, h, g, t);
    Reassoc(Chars(parts[..i]), Tagged(h), Tagged(g), Chars([t] + parts[i + 1..]));
    RowAppend(wc, first, h);
    NilRight(Chars(first) + Tagged(h));
  }

  lemma {:induction false} Reassoc(a: Stream, b: Stream, c: Stream, d: Stream)
    ensures a + b + (c + d) == a + (b + c) + d
  {
  }

  lemma {:induction false} NilRight(a: Stream)
    ensures a + [] == a
  {
  }

  /** When every segment is placed without a tail, the single row is the answer. */
  lemma {:induction false} ExitRow(wc: char -> nat, parts: seq<Part>, n: nat, first: seq<Part>, d: bool)
    requires RowInv(wc, parts, n, |parts|, first, d)
    ensures Reflowed(wc, parts, n, [first])
  {
    assert parts[..|parts|] == parts;
    var w := PartsWidth(wc, first);
    assert Flows(wc, n, [], [], [], w, d);
    FlowsAfterRow(wc, n, Chars(parts), Chars(first), 0, false, w, d, [], [], []);
    assert Chars(parts) + [] == Chars(parts) && Chars(first) + [] == Chars(first);
    assert [first][0] == first && [first][1..] == [];
  }

  /**
   * The loop step of `split_parts`: without a tail the row invariant
   * moves on to the next segment; with one, the recursion is on fewer
   * characters, each still at most `n` wide.
   */
  lemma {:induction false} Step(wc: char -> nat, parts: seq<Part>, n: nat, i: nat, first: seq<Part>, d: bool, head: Part, g: Part, tail: Part,
                                next: seq<Part>)
    requires i < |parts| && RowInv(wc, parts, n, i, first, d) && Fits(wc, Chars(parts), n)
    requires Cut(wc, parts[i], n - PartsWidth(wc, first), head, g, tail)
    requires next == Row(first, head)
    ensures PartsWidth(wc, next) == PartsWidth(wc, first) + StrWidth(wc, head.text)
    ensures tail.text == [] ==> RowInv(wc, parts, n, i + 1, next, DroppedAfter(d, head, g))
    ensures tail.text != [] ==> Fits(wc, Chars([tail] + parts[i + 1..]), n)
    ensures tail.text != [] ==> |Chars([tail] + parts[i + 1..])| < |Chars(parts)|
  {
    RowAppend(wc, first, head);
    if tail.text == [] {
      RowStep(wc, parts, n, i, first, d, head, g, tail);
    } else {
      BreakPre(wc, parts, n, i, first, d, head, g, tail);
    }
  }

  /** Before any segment is placed, the first row is empty. */
  lemma {:induction false} RowStart(wc: char -> nat, parts: seq<Part>, n: nat)
    ensures RowInv(wc, parts, n, 0, [], false)
  {
    assert parts[..0] == [];
    assert NonEmpty([]) == [];
  }

  /** `Part::split` at the room left on the row, with what the cut keeps and drops. */
  method SplitPart(p: Part, wc: char -> nat, m: nat) returns (head: Part, tail: Part, ghost gap: Part)
    ensures Cut(wc, p, m, head, gap, tail)
  {
    var cut := p.Split(wc, m);
    head, tail := cut.0, cut.1;
    gap := Gap(p, wc, m);
    CutHolds(p, wc, m, head, tail);
  }

  /**
   * `split_parts`: cut the segments into rows of width at most `n`. Each
   * segment is cut at the room left on the current row; the first
   * segment that leaves a tail ends the row, and the tail with the
   * segments after it is reflowed into the following rows.
   */
  method SplitParts(wc: char -> nat, parts: seq<Part>, n: nat) returns (out: seq<seq<Part>>)
    requires Fits(wc, Chars(parts), n)
    ensures Reflowed(wc, parts, n, out)
    decreases |Chars(parts)|
  {
    var first: seq<Part> := [];
    var currentWidth := 0;
    ghost var dropped := false;
    var i := 0;
    RowStart(wc, parts, n);
    while i < |parts|
      invariant RowInv(wc, parts, n, i, first, dropped)
      invariant currentWidth == PartsWidth(wc, first)
    {
      var head, tail, g := SplitPart(parts[i], wc, n - currentWidth);
      ghost var before, wasDropped := first, dropped;
      if head.text != [] {
        currentWidth := currentWidth + StrWidth(wc, head.text);
        first := first + [head];
      }
      dropped := DroppedAfter(wasDropped, head, g);
      Step(wc, parts, n, i, before, wasDropped, head, g, tail, first);
      if tail.text != [] {
        var remaining := [tail] + parts[i + 1..];
        var rest := SplitParts(wc, remaining, n);
        BreakPost(wc, parts, n, i, before, wasDropped, head, g, tail, first, rest);
        out := [first] + rest;
        return;
      }
      i := i + 1;
    }
    out := [first];
    ExitRow(wc, parts, n, first, dropped);
  }

  /** Reflowing only erases whitespace, so it loses no visible character of the input. */
  lemma {:induction false} ReflowedKeepsVisible(wc: char -> nat, parts: seq<Part>, n: nat, out: seq<seq<Part>>)
    requires Reflowed(wc, parts, n, out)
    ensures Erases(Chars(parts), RowsChars(out))
    ensures Visible(RowsChars(out)) == Visible(Chars(parts))
    ensures |RowsChars(out)| <= |Chars(parts)|
  {
    FlowsErases(wc, n, Chars(parts), Chars(out[0]), out[1..], 0, false);
    assert RowsChars(out) == Chars(out[0]) + RowsChars(out[1..]);
    ErasesKeepsVisible(Chars(parts), RowsChars(out));
  }

  /** One column for every character but U+0301 COMBINING ACUTE ACCENT, which takes none. */
  function AccentWidth(c: char): nat
  {
    if c == '\U{301}' then 0 else 1
  }

  /**
   * Whitespace can vanish inside a row: in "ab " the space does not fit
   * into two columns and is trimmed off an otherwise empty tail, so the
   * zero-width accent of the next segment still joins the same row.
   */
  lemma DropInsideRow()
    ensures Part(Equal, "ab ").Split(AccentWidth, 2) == (Part(Equal, "ab"), Part(Equal, ""))
    ensures Part(Insert, "\U{301}").Split(AccentWidth, 0) == (Part(Insert, "\U{301}"), Part(Insert, ""))
    ensures Reflowed(AccentWidth, [Part(Equal, "ab "), Part(Insert, "\U{301}")], 2, [[Part(Equal, "ab"), Part(Insert, "\U{301}")]])
    ensures Chars([Part(Equal, "ab "), Part(Insert, "\U{301}")]) == [(Equal, 'a'), (Equal, 'b'), (Equal, ' '), (Insert, '\U{301}')]
    ensures Chars([Part(Equal, "ab"), Part(Insert, "\U{301}")]) == [(Equal, 'a'), (Equal, 'b'), (Insert, '\U{301}')]
  {
    DropSplits();
    DropChars();
    DropFlows();
    DropRow();
  }

  lemma DropSplits()
    ensures Part(Equal, "ab ").Split(AccentWidth, 2) == (Part(Equal, "ab"), Part(Equal, ""))
    ensures Part(Insert, "\U{301}").Split(AccentWidth, 0) == (Part(Insert, "\U{301}"), Part(Insert, ""))
  {
    SplitAbSpace();
    SplitAccent();
  }

  lemma SplitAbSpace()
    ensures SplitAtWidth(AccentWidth, "ab ", 2) == ("ab", "")
  {
    var s := "ab ";
    assert s[1..][1..][1..] == [];
    assert StrWidth(AccentWidth, s[1..][1..]) == 1;
    assert StrWidth(AccentWidth, s) == 3;
    assert FitCount(AccentWidth, s[1..][1..], 0) == 0;
    assert FitCount(AccentWidth, s, 2) == 2;
    assert s[..2] == "ab" && s[2..] == " ";
    assert TrimStart(" ") == [];
  }

  lemma SplitAccent()
    ensures SplitAtWidth(AccentWidth, "\U{301}", 0) == ("\U{301}", "")
  {
    assert "\U{301}"[1..] == [];
    assert StrWidth(AccentWidth, "\U{301}") == 0;
  }

  lemma DropChars()
    ensures Chars([Part(Equal, "ab "), Part(Insert, "\U{301}")]) == [(Equal, 'a'), (Equal, 'b'), (Equal, ' '), (Insert, '\U{301}')]
    ensures Chars([Part(Equal, "ab"), Part(Insert, "\U{301}")]) == [(Equal, 'a'), (Equal, 'b'), (Insert, '\U{301}')]
  {
    CharsCons(Part(Equal, "ab "), [Part(Insert, "\U{301}")]);
    CharsCons(Part(Equal, "ab"), [Part(Insert, "\U{301}")]);
    CharsSingle(Part(Insert, "\U{301}"));
  }

  lemma DropFlows()
    ensures Flows(AccentWidth, 2, [(Equal, 'a'), (Equal, 'b'), (Equal, ' '), (Insert, '\U{301}')],
                  [(Equal, 'a'), (Equal, 'b'), (Insert, '\U{301}')], [], 0, false)
  {
    var a: Stream := [(Equal, 'a'), (Equal, 'b'), (Equal, ' '), (Insert, '\U{301}')];
    var r: Stream := [(Equal, 'a'), (Equal, 'b'), (Insert, '\U{301}')];
    assert Flows(AccentWidth, 2, a[4..], r[3..], [], 2, false);
    assert Flows(AccentWidth, 2, a[3..], r[2..], [], 2, true);
    assert Flows(AccentWidth, 2, a[2..], r[2..], [], 2, false);
    assert Flows(AccentWidth, 2, a[1..], r[1..], [], 1, false);
  }

  lemma DropRow()
    ensures var parts, row := [Part(Equal, "ab "), Part(Insert, "\U{301}")], [Part(Equal, "ab"), Part(Insert, "\U{301}")];
      && PartsWidth(AccentWidth, parts) == 3
      && PartsWidth(AccentWidth, row) == 2
      && NoEmptyParts(row)
      && [row][1..] == []
  {
    assert StrWidth(AccentWidth, "ab ") == 3;
    assert StrWidth(AccentWidth, "ab") == 2;
    assert StrWidth(AccentWidth, "\U{301}") == 0;
  }

  /** One column for every character. */
  function UnitWidth(c: char): nat
  {
    1
  }

  /** A space that fits is never dropped: "a b c" in three columns cannot lose the space after "a". */
  lemma KeepsFittingSpace()
    ensures !Reflowed(UnitWidth, [Part(Equal, "a b c")], 3, [[Part(Equal, "ab")], [Part(Equal, "c")]])
  {
    var a := Chars([Part(Equal, "a b c")]);
    var cur := Chars([Part(Equal, "ab")]);
    assert a == [(Equal, 'a'), (Equal, ' '), (Equal, 'b'), (Equal, ' '), (Equal, 'c')];
    assert cur == [(Equal, 'a'), (Equal, 'b')];
    assert !Flows(UnitWidth, 3, a[1..], cur[1..], [[Part(Equal, "c")]], 1, false);
  }

  /** Every character of a side fits into `n` columns (an absent side trivially). */
  predicate SideFits(wc: char -> nat, side: Option<Parts>, n: nat)
  {
    side.Some? ==> Fits(wc, Chars(side.value.parts), n)
  }

  /** The segment rows of a column of display rows (an absent row counts as empty). */
  function Bodies(rows: seq<Option<Parts>>): (r: seq<seq<Part>>)
    ensures |r| == |rows|
    ensures forall j :: 0 <= j < |rows| && rows[j].Some? ==> r[j] == rows[j].value.parts
  {
    seq(|rows|, j requires 0 <= j < |rows| => if rows[j].Some? then rows[j].value.parts else [])
  }

  /**
   * What `split_overflow` promises: an absent side stays one absent row;
   * a present side becomes present rows with its line number whose
   * segments are a reflow of its segments.
   */
  predicate SplitOf(wc: char -> nat, side: Option<Parts>, n: nat, rows: seq<Option<Parts>>)
  {
    match side
    case None => rows == [None]
    case Some(p) =>
      && (forall j :: 0 <= j < |rows| ==> rows[j].Some? && rows[j].value.lineno == p.lineno)
      && Reflowed(wc, p.parts, n, Bodies(rows))
  }

  /** `split_overflow`: reflow one side of a row, keeping its line number on every piece. */
  method SplitOverflow(wc: char -> nat, overflow: Option<Parts>, n: nat) returns (out: seq<Option<Parts>>)
    requires SideFits(wc, overflow, n)
    ensures SplitOf(wc, overflow, n, out)
    ensures |out| >= 1
  {
    match overflow {
      case None =>
        out := [None];
      case Some(Parts(lineno, parts)) =>
        var rows := SplitParts(wc, parts, n);
        out := seq(|rows|, j requires 0 <= j < |rows| => Some(Parts(lineno, rows[j])));
        assert Bodies(out) == rows;
    }
  }

  /** `resize_with(k, || None)`: pad with absent rows up to length `k`. */
  function Pad(rows: seq<Option<Parts>>, k: nat): (r: seq<Option<Parts>>)
    requires |rows| <= k
    ensures |r| == k && r[..|rows|] == rows
    ensures forall j :: |rows| <= j < k ==> r[j] == None
  {
    rows + seq(k - |rows|, _ => None)
  }

  /** The display rows one input row becomes: both columns padded to the longer one, then paired. */
  function Block(left: seq<Option<Parts>>, right: seq<Option<Parts>>): (r: seq<PartsDiff>)
    ensures |r| == if |left| >= |right| then |left| else |right|
    ensures forall j :: 0 <= j < |r| ==>
      && r[j].left == (if j < |left| then left[j] else None)
      && r[j].right == (if j < |right| then right[j] else None)
  {
    var k := if |left| >= |right| then |left| else |right|;
    var l := Pad(left, k);
    var rr := Pad(right, k);
    assert forall j :: 0 <= j < |left| ==> l[j] == l[..|left|][j];
    assert forall j :: 0 <= j < |right| ==> rr[j] == rr[..|right|][j];
    seq(k, j requires 0 <= j < k => PartsDiff(l[j], rr[j]))
  }

  /** The blocks of all input rows, in order. */
  function Assemble(lefts: seq<seq<Option<Parts>>>, rights: seq<seq<Option<Parts>>>): seq<PartsDiff>
    requires |lefts| == |rights|
  {
    if lefts == [] then []
    else Assemble(lefts[..|lefts| - 1], rights[..|rights| - 1]) + Block(lefts[|lefts| - 1], rights[|rights| - 1])
  }

  /**
   * The inner loop of `split_parts_diff`: pad both columns to the longer
   * one with absent rows and push the pairs onto `out`.
   */
  method PushBlock(out: seq<PartsDiff>, splitLeft: seq<Option<Parts>>, splitRight: seq<Option<Parts>>)
    returns (r: seq<PartsDiff>)
    ensures r == out + Block(splitLeft, splitRight)
  {
    var nLines := if |splitLeft| >= |splitRight| then |splitLeft| else |splitRight|;
    var paddedLeft := Pad(splitLeft, nLines);
    var paddedRight := Pad(splitRight, nLines);
    r := out;
    for j := 0 to nLines
      invariant |r| == |out| + j
      invariant r[..|out|] == out
      invariant forall k :: 0 <= k < j ==> r[|out| + k] == Block(splitLeft, splitRight)[k]
    {
      assert paddedLeft[..|splitLeft|] == splitLeft && paddedRight[..|splitRight|] == splitRight;
      r := r + [PartsDiff(paddedLeft[j], paddedRight[j])];
    }
    assert r == out + Block(splitLeft, splitRight);
  }

  /** The reflow width `n` that `split_parts_diff` derives from the total width. */
  function Budget(diff: seq<PartsDiff>, maxTotalWidth: nat): nat
    requires maxTotalWidth / 2 >= FindMaxLinenoWidth(diff) + LINENO_PADDING * 2
  {
    maxTotalWidth / 2 - FindMaxLinenoWidth(diff) - LINENO_PADDING * 2
  }

  /**
   * `split_parts_diff`: reflow both sides of every row to the budget and
   * pair the pieces, padding the shorter side with absent rows.
   */
  method SplitPartsDiff(wc: char -> nat, diff: seq<PartsDiff>, maxTotalWidth: nat)
    returns (out: seq<PartsDiff>, ghost lefts: seq<seq<Option<Parts>>>, ghost rights: seq<seq<Option<Parts>>>)
    requires maxTotalWidth / 2 >= FindMaxLinenoWidth(diff) + LINENO_PADDING * 2
    requires forall i :: 0 <= i < |diff| ==>
      SideFits(wc, diff[i].left, Budget(diff, maxTotalWidth)) && SideFits(wc, diff[i].right, Budget(diff, maxTotalWidth))
    ensures |lefts| == |diff| && |rights| == |diff|
    ensures forall i :: 0 <= i < |diff| ==>
      SplitOf(wc, diff[i].left, Budget(diff, maxTotalWidth), lefts[i])
      && SplitOf(wc, diff[i].right, Budget(diff, maxTotalWidth), rights[i])
    ensures out == Assemble(lefts, rights)
    ensures AllWithin(wc, out, Budget(diff, maxTotalWidth))
  {
    var maxLinenoWidth := FindMaxLinenoWidth(diff);
    var n := maxTotalWidth / 2 - maxLinenoWidth - LINENO_PADDING * 2;
    assert n == Budget(diff, maxTotalWidth);
    out, lefts, rights := [], [], [];
    for i := 0 to |diff|
      invariant |lefts| == i
      invariant SplitsOf(wc, diff, n, lefts, rights)
      invariant out == Assemble(lefts, rights)
    {
      var splitLeft := SplitOverflow(wc, diff[i].left, n);
      var splitRight := SplitOverflow(wc, diff[i].right, n);
      out := PushBlock(out, splitLeft, splitRight);
      AssembleSnoc(lefts, rights, splitLeft, splitRight);
      SplitsOfSnoc(wc, diff, n, lefts, rights, splitLeft, splitRight);
      lefts, rights := lefts + [splitLeft], rights + [splitRight];
    }
    AssembleWithin(wc, diff, n, lefts, rights);
  }

  /** The first `|lefts|` rows of `diff` reflow to `lefts` and `rights`. */
  predicate SplitsOf(wc: char -> nat, diff: seq<PartsDiff>, n: nat,
                     lefts: seq<seq<Option<Parts>>>, rights: seq<seq<Option<Parts>>>)
  {
    && |lefts| == |rights| <= |diff|
    && forall k :: 0 <= k < |lefts| ==>
      SplitOf(wc, diff[k].left, n, lefts[k]) && SplitOf(wc, diff[k].right, n, rights[k])
  }

  lemma SplitsOfSnoc(wc: char -> nat, diff: seq<PartsDiff>, n: nat,
                     lefts: seq<seq<Option<Parts>>>, rights: seq<seq<Option<Parts>>>,
                     l: seq<Option<Parts>>, r: seq<Option<Parts>>)
    requires SplitsOf(wc, diff, n, lefts, rights) && |lefts| < |diff|
    requires SplitOf(wc, diff[|lefts|].left, n, l) && SplitOf(wc, diff[|lefts|].right, n, r)
    ensures SplitsOf(wc, diff, n, lefts + [l], rights + [r])
  {
    var ls, rs := lefts + [l], rights + [r];
    forall k | 0 <= k < |ls|
      ensures SplitOf(wc, diff[k].left, n, ls[k]) && SplitOf(wc, diff[k].right, n, rs[k])
    {
      if k < |lefts| {
        assert ls[k] == lefts[k] && rs[k] == rights[k];
      } else {
        assert ls[k] == l && rs[k] == r;
      }
    }
  }

  lemma AssembleSnoc(lefts: seq<seq<Option<Parts>>>, rights: seq<seq<Option<Parts>>>,
                     l: seq<Option<Parts>>, r: seq<Option<Parts>>)
    requires |lefts| == |rights|
    ensures Assemble(lefts + [l], rights + [r]) == Assemble(lefts, rights) + Block(l, r)
  {
    assert (lefts + [l])[..|lefts|] == lefts && (rights + [r])[..|rights|] == rights;
  }

  /** A present side is at most `n` columns wide. */
  predicate SideWithin(wc: char -> nat, side: Option<Parts>, n: nat)
  {
    side.Some? ==> side.value.Width(wc) <= n
  }

  /** A reflowed side yields only rows within the budget. */
  lemma {:induction false} SplitOfWithin(wc: char -> nat, side: Option<Parts>, n: nat, rows: seq<Option<Parts>>)
    requires SplitOf(wc, side, n, rows)
    ensures forall j :: 0 <= j < |rows| ==> SideWithin(wc, rows[j], n)
  {
    if side.Some? {
      forall j | 0 <= j < |rows|
        ensures SideWithin(wc, rows[j], n)
      {
        assert Bodies(rows)[j] == rows[j].value.parts;
      }
    }
  }

  /** Both sides of every display row are within the budget. */
  predicate AllWithin(wc: char -> nat, ds: seq<PartsDiff>, n: nat)
  {
    forall j :: 0 <= j < |ds| ==> SideWithin(wc, ds[j].left, n) && SideWithin(wc, ds[j].right, n)
  }

  lemma AllWithinAppend(wc: char -> nat, a: seq<PartsDiff>, b: seq<PartsDiff>, n: nat)
    requires AllWithin(wc, a, n) && AllWithin(wc, b, n)
    ensures AllWithin(wc, a + b, n)
  {
    forall j | 0 <= j < |a + b|
      ensures SideWithin(wc, (a + b)[j].left, n) && SideWithin(wc, (a + b)[j].right, n)
    {
      if j >= |a| {
        assert (a + b)[j] == b[j - |a|];
      } else {
        assert (a + b)[j] == a[j];
      }
    }
  }

  lemma BlockWithin(wc: char -> nat, left: seq<Option<Parts>>, right: seq<Option<Parts>>, n: nat)
    requires forall j :: 0 <= j < |left| ==> SideWithin(wc, left[j], n)
    requires forall j :: 0 <= j < |right| ==> SideWithin(wc, right[j], n)
    ensures AllWithin(wc, Block(left, right), n)
  {
  }

  /** Every display row `split_parts_diff` produces fits the budget on both sides. */
  lemma {:induction false} AssembleWithin(wc: char -> nat, diff: seq<PartsDiff>, n: nat,
                                          lefts: seq<seq<Option<Parts>>>, rights: seq<seq<Option<Parts>>>)
    requires |lefts| == |diff| && |rights| == |diff|
    requires forall i :: 0 <= i < |diff| ==> SplitOf(wc, diff[i].left, n, lefts[i]) && SplitOf(wc, diff[i].right, n, rights[i])
    ensures AllWithin(wc, Assemble(lefts, rights), n)
    decreases |diff|
  {
    if diff != [] {
      var k := |diff| - 1;
      AssembleWithin(wc, diff[..k], n, lefts[..k], rights[..k]);
      assert lefts[..|lefts| - 1] == lefts[..k] && rights[..|rights| - 1] == rights[..k];
      SplitOfWithin(wc, diff[k].left, n, lefts[k]);
      SplitOfWithin(wc, diff[k].right, n, rights[k]);
      BlockWithin(wc, lefts[k], rights[k], n);
      AllWithinAppend(wc, Assemble(lefts[..k], rights[..k]), Block(lefts[k], rights[k]), n);
    }
  }

  /** A side that already fits is kept as it is, less its empty segments. */
  function DropEmpty(side: Option<Parts>): Option<Parts>
  {
    match side
    case None => None
    case Some(p) => Some(Parts(p.lineno, NonEmpty(p.parts)))
  }

  /** Rows that already fit the budget come out one for one, only their empty segments dropped. */
  lemma {:induction false} AssembleFitting(wc: char -> nat, diff: seq<PartsDiff>, n: nat,
                                           lefts: seq<seq<Option<Parts>>>, rights: seq<seq<Option<Parts>>>)
    requires |lefts| == |diff| && |rights| == |diff|
    requires forall i :: 0 <= i < |diff| ==> SplitOf(wc, diff[i].left, n, lefts[i]) && SplitOf(wc, diff[i].right, n, rights[i])
    requires forall i :: 0 <= i < |diff| ==> SideWithin(wc, diff[i].left, n) && SideWithin(wc, diff[i].right, n)
    ensures |Assemble(lefts, rights)| == |diff|
    ensures forall i :: 0 <= i < |diff| ==>
      Assemble(lefts, rights)[i] == PartsDiff(DropEmpty(diff[i].left), DropEmpty(diff[i].right))
  {
    forall i | 0 <= i < |diff|
      ensures lefts[i] == [DropEmpty(diff[i].left)] && rights[i] == [DropEmpty(diff[i].right)]
    {
      SplitOfFitting(wc, diff[i].left, n, lefts[i]);
      SplitOfFitting(wc, diff[i].right, n, rights[i]);
    }
    AssembleSingles(diff, lefts, rights);
  }

  lemma {:induction false} AssembleSingles(diff: seq<PartsDiff>, lefts: seq<seq<Option<Parts>>>, rights: seq<seq<Option<Parts>>>)
    requires |lefts| == |diff| && |rights| == |diff|
    requires forall i :: 0 <= i < |diff| ==> lefts[i] == [DropEmpty(diff[i].left)] && rights[i] == [DropEmpty(diff[i].right)]
    ensures |Assemble(lefts, rights)| == |diff|
    ensures forall i :: 0 <= i < |diff| ==>
      Assemble(lefts, rights)[i] == PartsDiff(DropEmpty(diff[i].left), DropEmpty(diff[i].right))
    decreases |diff|
  {
    if diff != [] {
      var k := |diff| - 1;
      var d, ls, rs := diff[..k], lefts[..k], rights[..k];
      AssembleSingles(d, ls, rs);
      var front: seq<PartsDiff> := Assemble(ls, rs);
      var block: seq<PartsDiff> := Block(lefts[k], rights[k]);
      assert Assemble(lefts, rights) == front + block;
      assert |block| == 1 && block[0] == PartsDiff(DropEmpty(diff[k].left), DropEmpty(diff[k].right));
      forall i | 0 <= i < |diff|
        ensures Assemble(lefts, rights)[i] == PartsDiff(DropEmpty(diff[i].left), DropEmpty(diff[i].right))
      {
        if i < k {
          assert Assemble(lefts, rights)[i] == front[i];
          assert d[i] == diff[i];
        }
      }
    }
  }

  lemma {:induction false} SplitOfFitting(wc: char -> nat, side: Option<Parts>, n: nat, rows: seq<Option<Parts>>)
    requires SplitOf(wc, side, n, rows) && SideWithin(wc, side, n)
    ensures rows == [DropEmpty(side)]
  {
    if side.Some? {
      assert |Bodies(rows)| == 1;
      assert rows[0].value.parts == Bodies(rows)[0];
    }
  }
}
