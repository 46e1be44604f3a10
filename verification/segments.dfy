/**
 * The segment model of the Rust engine (src/lib.rs): a `Part` is a span of
 * text classified Equal, Delete or Insert, and `Parts` is one side of one
 * display row.  Display width is measured with a per-character width
 * function `wc` (the `unicode_width` tables, which are not part of this
 * model): 0 for zero-width marks, 1 for most characters, 2 for wide ones.
 */
module Segments {
  import opened Wrappers
  import opened Text

  /** The change classification of a segment, and the tag of an edit-script operation. */
  datatype Kind = Equal | Delete | Insert

  /** A span of text with its classification; Rust's `Part::str` is the `text` field. */
  datatype Part = Part(kind: Kind, text: string)
  {
    /** `Part::split`: cut the text at display width `n`; both halves keep the kind. */
    function Split(wc: char -> nat, n: nat): (r: (Part, Part))
      ensures r.0.kind == kind && r.1.kind == kind
    {
      var cut := SplitAtWidth(wc, text, n);
      (Part(kind, cut.0), Part(kind, cut.1))
    }
  }

  /** One side of one row: the originating line number and its segments. */
  datatype Parts = Parts(lineno: nat, parts: seq<Part>)
  {
    /** `Parts::width`: the sum of the segments' display widths. */
    function Width(wc: char -> nat): nat
    {
      PartsWidth(wc, parts)
    }
  }

  /** A display row: each side may be absent. */
  datatype PartsDiff = PartsDiff(left: Option<Parts>, right: Option<Parts>)

  /** The display width of a string: the sum of its characters' widths. */
  function StrWidth(wc: char -> nat, s: string): nat
  {
    if s == [] then 0 else wc(s[0]) + StrWidth(wc, s[1..])
  }

  function PartsWidth(wc: char -> nat, ps: seq<Part>): nat
  {
    if ps == [] then 0 else StrWidth(wc, ps[0].text) + PartsWidth(wc, ps[1..])
  }

  lemma {:induction false} StrWidthAppend(wc: char -> nat, a: string, b: string)
    ensures StrWidth(wc, a + b) == StrWidth(wc, a) + StrWidth(wc, b)
  {
    if a != [] {
      assert (a + b)[1..] == a[1..] + b;
      StrWidthAppend(wc, a[1..], b);
    } else {
      assert a + b == b;
    }
  }

  lemma {:induction false} PartsWidthAppend(wc: char -> nat, a: seq<Part>, b: seq<Part>)
    ensures PartsWidth(wc, a + b) == PartsWidth(wc, a) + PartsWidth(wc, b)
  {
    if a != [] {
      assert (a + b)[1..] == a[1..] + b;
      PartsWidthAppend(wc, a[1..], b);
    } else {
      assert a + b == b;
    }
  }

  /** No two adjacent segments share a kind. */
  predicate Coalesced(ps: seq<Part>)
  {
    forall i :: 0 < i < |ps| ==> ps[i - 1].kind != ps[i].kind
  }

  /** The characters of a segment, each tagged with the segment's kind. */
  function Tagged(p: Part): (r: seq<(Kind, char)>)
    ensures |r| == |p.text|
    ensures forall i :: 0 <= i < |r| ==> r[i] == (p.kind, p.text[i])
  {
    seq(|p.text|, i requires 0 <= i < |p.text| => (p.kind, p.text[i]))
  }

  /** The tagged character stream of a segment sequence: its text together with every character's kind. */
  function Chars(ps: seq<Part>): seq<(Kind, char)>
  {
    if ps == [] then [] else Tagged(ps[0]) + Chars(ps[1..])
  }

  lemma {:induction false} CharsAppend(a: seq<Part>, b: seq<Part>)
    ensures Chars(a + b) == Chars(a) + Chars(b)
  {
    if a != [] {
      assert (a + b)[1..] == a[1..] + b;
      CharsAppend(a[1..], b);
    } else {
      assert a + b == b;
    }
  }

  lemma TaggedAppend(k: Kind, x: string, y: string)
    ensures Tagged(Part(k, x + y)) == Tagged(Part(k, x)) + Tagged(Part(k, y))
  {
  }

  /**
   * Append-or-merge: `p` joins the last segment when that has the same
   * kind, and becomes a new last segment otherwise.
   */
  function Push(ps: seq<Part>, p: Part): seq<Part>
  {
    if |ps| > 0 && ps[|ps| - 1].kind == p.kind
    then ps[..|ps| - 1] + [Part(p.kind, ps[|ps| - 1].text + p.text)]
    else ps + [p]
  }

  /**
   * What a push does: earlier segments are untouched, the last one merges
   * exactly when kinds agree, the tagged stream grows by exactly `p`, and
   * the coalescing invariant is kept.
   */
  lemma PushAppendOrMerge(ps: seq<Part>, p: Part)
    ensures var r := Push(ps, p);
      && |r| >= 1 && r[|r| - 1].kind == p.kind
      && (forall i :: 0 <= i < |ps| - 1 ==> r[i] == ps[i])
      && (if |ps| > 0 && ps[|ps| - 1].kind == p.kind
          then |r| == |ps| && r[|r| - 1].text == ps[|ps| - 1].text + p.text
          else r == ps + [p])
      && Chars(r) == Chars(ps) + Tagged(p)
      && (Coalesced(ps) ==> Coalesced(r))
  {
    if |ps| > 0 && ps[|ps| - 1].kind == p.kind {
      PushMerges(ps, p);
    } else {
      PushAppends(ps, p);
    }
  }

  lemma PushMerges(ps: seq<Part>, p: Part)
    requires |ps| > 0 && ps[|ps| - 1].kind == p.kind
    ensures Push(ps, p) == ps[..|ps| - 1] + [Part(p.kind, ps[|ps| - 1].text + p.text)]
    ensures Chars(Push(ps, p)) == Chars(ps) + Tagged(p)
    ensures Coalesced(ps) ==> Coalesced(Push(ps, p))
  {
    var merged := Part(p.kind, ps[|ps| - 1].text + p.text);
    MergeLastChars(ps, p);
    if Coalesced(ps) {
      CoalescedReplaceLast(ps, merged);
    }
  }

  lemma MergeLastChars(ps: seq<Part>, p: Part)
    requires |ps| > 0 && ps[|ps| - 1].kind == p.kind
    ensures Chars(ps[..|ps| - 1] + [Part(p.kind, ps[|ps| - 1].text + p.text)]) == Chars(ps) + Tagged(p)
  {
    CharsLast(ps);
    MergeChars(ps[..|ps| - 1], ps[|ps| - 1], p);
  }

  lemma CharsLast(ps: seq<Part>)
    requires |ps| > 0
    ensures Chars(ps) == Chars(ps[..|ps| - 1] + [ps[|ps| - 1]])
  {
    SeqLast(ps);
  }

  lemma SeqLast<T>(s: seq<T>)
    requires |s| > 0
    ensures s == s[..|s| - 1] + [s[|s| - 1]]
  {
  }

  lemma MergeChars(init: seq<Part>, last: Part, p: Part)
    requires last.kind == p.kind
    ensures Chars(init + [Part(p.kind, last.text + p.text)]) == Chars(init + [last]) + Tagged(p)
  {
    var merged := Part(p.kind, last.text + p.text);
    CharsSnoc(init, last);
    CharsSnoc(init, merged);
    TaggedAppend(p.kind, last.text, p.text);
    assert Tagged(merged) == Tagged(last) + Tagged(p);
    assert Chars(init) + (Tagged(last) + Tagged(p)) == (Chars(init) + Tagged(last)) + Tagged(p);
  }

  lemma PushAppends(ps: seq<Part>, p: Part)
    requires !(|ps| > 0 && ps[|ps| - 1].kind == p.kind)
    ensures Push(ps, p) == ps + [p]
    ensures Chars(Push(ps, p)) == Chars(ps) + Tagged(p)
    ensures Coalesced(ps) ==> Coalesced(Push(ps, p))
  {
    CharsSnoc(ps, p);
    if Coalesced(ps) {
      CoalescedSnoc(ps, p);
    }
  }

  lemma CharsSingle(p: Part)
    ensures Chars([p]) == Tagged(p)
  {
    assert [p][1..] == [];
    assert Tagged(p) + [] == Tagged(p);
  }

  lemma CharsSnoc(ps: seq<Part>, p: Part)
    ensures Chars(ps + [p]) == Chars(ps) + Tagged(p)
  {
    CharsAppend(ps, [p]);
    CharsSingle(p);
  }

  lemma CoalescedSnoc(ps: seq<Part>, p: Part)
    requires Coalesced(ps) && (|ps| > 0 ==> ps[|ps| - 1].kind != p.kind)
    ensures Coalesced(ps + [p])
  {
    var r := ps + [p];
    forall i | 0 < i < |r|
      ensures r[i - 1].kind != r[i].kind
    {
      if i < |ps| {
        assert r[i - 1] == ps[i - 1] && r[i] == ps[i];
      } else {
        assert r[i - 1] == ps[i - 1] && r[i] == p;
      }
    }
  }

  lemma CoalescedReplaceLast(ps: seq<Part>, q: Part)
    requires |ps| > 0 && Coalesced(ps) && q.kind == ps[|ps| - 1].kind
    ensures Coalesced(ps[..|ps| - 1] + [q])
  {
    var init := ps[..|ps| - 1];
    assert Coalesced(init) by {
      forall i | 0 < i < |init|
        ensures init[i - 1].kind != init[i].kind
      {
        assert init[i - 1] == ps[i - 1] && init[i] == ps[i];
      }
    }
    CoalescedSnoc(init, q);
  }

  /**
   * Rust's `Parts` while `diff_lines` builds it: the push operations mutate
   * the segment list in place.  Once built, it is read as a `Parts` value.
   */
  class PartsBuilder {
    var lineno: nat
    var parts: seq<Part>

    constructor (lineno: nat)
      ensures this.lineno == lineno && parts == []
    {
      this.lineno := lineno;
      parts := [];
    }

    function Value(): Parts
      reads this
    {
      Parts(lineno, parts)
    }

    method PushPart(p: Part)
      modifies this
      ensures parts == Push(old(parts), p) && lineno == old(lineno)
    {
      if |parts| > 0 && parts[|parts| - 1].kind == p.kind {
        parts := parts[..|parts| - 1] + [Part(p.kind, parts[|parts| - 1].text + p.text)];
      } else {
        parts := parts + [p];
      }
    }

    /** `Parts::push_equal` */
    method PushEqual(value: string)
      modifies this
      ensures parts == Push(old(parts), Part(Equal, value)) && lineno == old(lineno)
    {
      PushPart(Part(Equal, value));
    }

    /** `Parts::push_delete` */
    method PushDelete(value: string)
      modifies this
      ensures parts == Push(old(parts), Part(Delete, value)) && lineno == old(lineno)
    {
      PushPart(Part(Delete, value));
    }

    /** `Parts::push_insert` */
    method PushInsert(value: string)
      modifies this
      ensures parts == Push(old(parts), Part(Insert, value)) && lineno == old(lineno)
    {
      PushPart(Part(Insert, value));
    }
  }

  /** How many leading characters fit, one after another, into width `n`. */
  function FitCount(wc: char -> nat, s: string, n: nat): (k: nat)
    ensures k <= |s|
  {
    if s == [] || wc(s[0]) > n then 0 else 1 + FitCount(wc, s[1..], n - wc(s[0]))
  }

  /**
   * `split_string_at_width`: the whole string when it fits, otherwise the
   * longest prefix that fits and the rest with its leading whitespace trimmed.
   */
  function SplitAtWidth(wc: char -> nat, s: string, n: nat): (string, string)
  {
    if StrWidth(wc, s) <= n then (s, [])
    else
      var k := FitCount(wc, s, n);
      (s[..k], TrimStart(s[k..]))
  }

  lemma {:induction false} FitCountLongest(wc: char -> nat, s: string, n: nat)
    ensures StrWidth(wc, s[..FitCount(wc, s, n)]) <= n
    ensures forall j :: FitCount(wc, s, n) < j <= |s| ==> StrWidth(wc, s[..j]) > n
  {
    if s != [] && wc(s[0]) <= n {
      var k := FitCount(wc, s, n);
      FitCountLongest(wc, s[1..], n - wc(s[0]));
      assert s[..k][1..] == s[1..][..k - 1];
      forall j | k < j <= |s|
        ensures StrWidth(wc, s[..j]) > n
      {
        assert s[..j][1..] == s[1..][..j - 1];
      }
    } else if s != [] {
      forall j | 0 < j <= |s|
        ensures StrWidth(wc, s[..j]) > n
      {
        assert s[..j][0] == s[0];
      }
    }
  }

  /**
   * The split of a string at width `n`: the whole string and "" when it
   * fits; otherwise the head is the longest prefix of width at most `n`.
   */
  lemma SplitAtWidthHead(wc: char -> nat, s: string, n: nat)
    ensures StrWidth(wc, s) <= n ==> SplitAtWidth(wc, s, n) == (s, [])
    ensures StrWidth(wc, s) > n ==>
      var h := SplitAtWidth(wc, s, n).0;
      && h == s[..|h|]
      && StrWidth(wc, h) <= n
      && forall j :: |h| < j <= |s| ==> StrWidth(wc, s[..j]) > n
  {
    if StrWidth(wc, s) > n {
      FitCountLongest(wc, s, n);
    }
  }

  /**
   * Head, the trimmed whitespace and tail put back together give `s`; when
   * the first character is at most `n` wide the head of a non-empty string
   * is not empty.
   */
  lemma SplitAtWidthRestores(wc: char -> nat, s: string, n: nat)
    ensures var h := SplitAtWidth(wc, s, n).0;
      var t := SplitAtWidth(wc, s, n).1;
      && |h| + |t| <= |s|
      && s == h + s[|h|..|s| - |t|] + t
      && (forall i :: |h| <= i < |s| - |t| ==> IsRustWhitespace(s[i]))
      && (s != [] && wc(s[0]) <= n ==> |h| >= 1)
  {
    if StrWidth(wc, s) > n {
      var k := FitCount(wc, s, n);
      CutRestores(s, k);
      assert SplitAtWidth(wc, s, n) == (s[..k], TrimStart(s[k..]));
    } else {
      assert SplitAtWidth(wc, s, n) == (s, []);
      assert s[|s|..|s|] == [];
      assert s == s + [] + [];
    }
  }

  /** Cutting at `k` and trimming the leading whitespace of the rest loses only that whitespace. */
  lemma CutRestores(s: string, k: nat)
    requires k <= |s|
    ensures var t := TrimStart(s[k..]);
      && k + |t| <= |s|
      && s == s[..k] + s[k..|s| - |t|] + t
      && (forall i :: k <= i < |s| - |t| ==> IsRustWhitespace(s[i]))
  {
    CutJoin(s, k);
    CutGap(s, k);
  }

  lemma CutJoin(s: string, k: nat)
    requires k <= |s|
    ensures var t := TrimStart(s[k..]);
      && k + |t| <= |s|
      && s == s[..k] + s[k..|s| - |t|] + t
  {
    JoinAt(s, k, TrimStart(s[k..]));
  }

  /** A string is its prefix, a middle and any suffix of the rest. */
  lemma JoinAt(s: string, k: nat, t: string)
    requires k <= |s| && |t| <= |s| - k
    requires t == s[k..][|s| - k - |t|..]
    ensures s == s[..k] + s[k..|s| - |t|] + t
  {
    var m := |s| - |t|;
    var r := s[..k] + s[k..m] + t;
    assert |r| == |s|;
    forall i | 0 <= i < |s|
      ensures r[i] == s[i]
    {
      if i >= m {
        assert r[i] == t[i - m] == s[k..][i - k];
      }
    }
  }

  lemma CutGap(s: string, k: nat)
    requires k <= |s|
    ensures forall i :: k <= i < |s| - |TrimStart(s[k..])| ==> IsRustWhitespace(s[i])
  {
    var u := s[k..];
    forall i | k <= i < |s| - |TrimStart(u)|
      ensures IsRustWhitespace(s[i])
    {
      assert s[i] == u[i - k];
    }
  }

  /** `split_string_at_width` as the source writes it: a scan that stops at the first character that would overflow. */
  method SplitStringAtWidth(wc: char -> nat, input: string, n: nat) returns (first: string, second: string)
    ensures (first, second) == SplitAtWidth(wc, input, n)
  {
    if StrWidth(wc, input) <= n {
      return input, [];
    }
    var currentWidth := 0;
    var splitI := 0;
    var i := 0;
    while i < |input|
      invariant 0 <= i <= |input| && splitI == i
      invariant currentWidth <= n
      invariant FitCount(wc, input, n) == i + FitCount(wc, input[i..], n - currentWidth)
    {
      var width := wc(input[i]);
      if currentWidth + width > n {
        break;
      }
      assert input[i..][1..] == input[i + 1..];
      currentWidth := currentWidth + width;
      splitI := i + 1;
      i := i + 1;
    }
    first, second := input[..splitI], TrimStart(input[splitI..]);
  }

  /** `Part::split` keeps the kind on both halves and loses only whitespace between them. */
  lemma PartSplitRestores(p: Part, wc: char -> nat, n: nat)
    ensures var h, t := p.Split(wc, n).0, p.Split(wc, n).1;
      && h.kind == p.kind && t.kind == p.kind
      && |h.text| + |t.text| <= |p.text|
      && p.text == h.text + p.text[|h.text|..|p.text| - |t.text|] + t.text
      && (forall i :: |h.text| <= i < |p.text| - |t.text| ==> IsRustWhitespace(p.text[i]))
  {
    SplitAtWidthRestores(wc, p.text, n);
  }
}
