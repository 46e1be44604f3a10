/**
 * Gutter bookkeeping of the Rust renderers (src/lib.rs): the width of the
 * line-number column, the widest left side, and the per-row line-number
 * labels, where a continuation row shows an ellipsis instead of repeating
 * the number shown last on that side.
 */
module Gutter {
  import opened Wrappers
  import opened Text
  import opened Segments

  /** `LINENO_PADDING`: blanks on each side of a line number. */
  const LINENO_PADDING: nat := 1

  /** The line number of a row's side, when that side is present. */
  function SideLineno(pd: PartsDiff, left: bool): Option<nat>
  {
    var side := if left then pd.left else pd.right;
    match side
    case Some(p) => Some(p.lineno)
    case None => None
  }

  /** The line number of the last row whose side is present; 0 when there is none. */
  function LastLineno(diff: seq<PartsDiff>, left: bool): nat
  {
    if diff == [] then 0
    else match SideLineno(diff[|diff| - 1], left)
      case Some(n) => n
      case None => LastLineno(diff[..|diff| - 1], left)
  }

  /** With no row present on that side, `LastLineno` is 0. */
  lemma {:induction false} LastLinenoNone(diff: seq<PartsDiff>, left: bool)
    requires forall i :: 0 <= i < |diff| ==> SideLineno(diff[i], left).None?
    ensures LastLineno(diff, left) == 0
  {
    if diff != [] {
      var init := diff[..|diff| - 1];
      assert forall k :: 0 <= k < |init| ==> init[k] == diff[k];
      LastLinenoNone(init, left);
    }
  }

  /** `LastLineno` is the number of the last row whose side is present. */
  lemma {:induction false} LastLinenoSome(diff: seq<PartsDiff>, left: bool, i: nat)
    requires i < |diff| && SideLineno(diff[i], left).Some?
    requires forall k :: i < k < |diff| ==> SideLineno(diff[k], left).None?
    ensures LastLineno(diff, left) == SideLineno(diff[i], left).value
    decreases |diff|
  {
    if i < |diff| - 1 {
      var init := diff[..|diff| - 1];
      assert forall k :: 0 <= k < |init| ==> init[k] == diff[k];
      LastLinenoSome(init, left, i);
    }
  }

  function Max(a: nat, b: nat): (r: nat)
    ensures r >= a && r >= b && (r == a || r == b)
  {
    if a >= b then a else b
  }

  /**
   * `find_max_lineno_width`: the number of decimal digits of the larger of
   * the two last line numbers, so 1 when there are no rows.
   */
  function FindMaxLinenoWidth(diff: seq<PartsDiff>): (r: nat)
    ensures r >= 1
    ensures Max(LastLineno(diff, true), LastLineno(diff, false)) == 0 ==> r == 1
    ensures Max(LastLineno(diff, true), LastLineno(diff, false)) > 0 ==>
              Pow10(r - 1) <= Max(LastLineno(diff, true), LastLineno(diff, false)) < Pow10(r)
  {
    var m := Max(LastLineno(diff, true), LastLineno(diff, false));
    DecimalLength(m);
    |ToDecimal(m)|
  }

  function LeftWidth(wc: char -> nat, pd: PartsDiff): nat
  {
    match pd.left
    case Some(p) => p.Width(wc)
    case None => 0
  }

  /** `find_widest_line_left`: the largest left-side width, 0 for no rows. */
  function FindWidestLineLeft(wc: char -> nat, diff: seq<PartsDiff>): (r: nat)
    ensures forall i :: 0 <= i < |diff| ==> LeftWidth(wc, diff[i]) <= r
    ensures diff == [] ==> r == 0
    ensures diff != [] ==> exists i :: 0 <= i < |diff| && r == LeftWidth(wc, diff[i])
  {
    if diff == [] then 0
    else
      var rest := FindWidestLineLeft(wc, diff[1..]);
      var here := LeftWidth(wc, diff[0]);
      if here >= rest then here else rest
  }

  /**
   * Rust's centred format `{:^width$}`: the padding is split with the
   * smaller half in front; a string at least `width` long is unchanged.
   */
  function Center(s: string, width: nat): (r: string)
    ensures |r| == if |s| >= width then |s| else width
    ensures exists pre: nat, post: nat ::
      && r == Spaces(pre) + s + Spaces(post)
      && pre <= post <= pre + 1
      && (|s| >= width ==> pre == 0 && post == 0)
  {
    var pad: nat := if |s| >= width then 0 else width - |s|;
    var pre := pad / 2;
    var post := pad - pre;
    assert Spaces(pre) + s + Spaces(post) == Spaces(pre) + s + Spaces(post);
    Spaces(pre) + s + Spaces(post)
  }

  /**
   * `generate_lineno_str`: blank for an absent side, an ellipsis when the
   * number equals the one shown last on that side, the number otherwise,
   * centred in the gutter.
   */
  function GenerateLinenoStr(prevLineno: nat, newLineno: Option<nat>, maxLinenoWidth: nat): (r: string)
    ensures newLineno.None? ==> r == Spaces(maxLinenoWidth + 2 * LINENO_PADDING)
    ensures newLineno == Some(prevLineno) ==> r == Center("…", maxLinenoWidth + 2 * LINENO_PADDING)
    ensures newLineno.Some? && newLineno.value != prevLineno ==>
              r == Center(ToDecimal(newLineno.value), maxLinenoWidth + 2 * LINENO_PADDING)
  {
    var linenoStr := match newLineno
      case None => ""
      case Some(n) => if prevLineno == n then "…" else ToDecimal(n);
    Center(linenoStr, maxLinenoWidth + LINENO_PADDING * 2)
  }

  /**
   * The line-number labels the renderers put in front of each row: the
   * last number shown is tracked per side, starts at 0 and changes only on
   * rows where that side is present.
   */
  method LinenoLabels(diff: seq<PartsDiff>) returns (lefts: seq<string>, rights: seq<string>)
    ensures |lefts| == |diff| && |rights| == |diff|
    ensures forall i :: 0 <= i < |diff| ==> lefts[i] == Label(diff, i, true, FindMaxLinenoWidth(diff))
    ensures forall i :: 0 <= i < |diff| ==> rights[i] == Label(diff, i, false, FindMaxLinenoWidth(diff))
  {
    var maxLinenoWidth := FindMaxLinenoWidth(diff);
    var prevLinenoLeft := 0;
    var prevLinenoRight := 0;
    lefts, rights := [], [];
    var i := 0;
    while i < |diff|
      invariant 0 <= i <= |diff| && |lefts| == i && |rights| == i
      invariant prevLinenoLeft == LastLineno(diff[..i], true)
      invariant prevLinenoRight == LastLineno(diff[..i], false)
      invariant forall k :: 0 <= k < i ==> lefts[k] == Label(diff, k, true, maxLinenoWidth)
      invariant forall k :: 0 <= k < i ==> rights[k] == Label(diff, k, false, maxLinenoWidth)
    {
      var newLinenoLeft := SideLineno(diff[i], true);
      var newLinenoRight := SideLineno(diff[i], false);
      var leftLabel := GenerateLinenoStr(prevLinenoLeft, newLinenoLeft, maxLinenoWidth);
      var rightLabel := GenerateLinenoStr(prevLinenoRight, newLinenoRight, maxLinenoWidth);
      assert leftLabel == Label(diff, i, true, maxLinenoWidth);
      assert rightLabel == Label(diff, i, false, maxLinenoWidth);
      ghost var oldLefts, oldRights := lefts, rights;
      lefts := lefts + [leftLabel];
      rights := rights + [rightLabel];
      forall k | 0 <= k < i + 1
        ensures lefts[k] == Label(diff, k, true, maxLinenoWidth)
        ensures rights[k] == Label(diff, k, false, maxLinenoWidth)
      {
        if k < i {
          assert lefts[k] == oldLefts[k] && rights[k] == oldRights[k];
        }
      }
      LastLinenoStep(diff, i, true);
      LastLinenoStep(diff, i, false);
      prevLinenoLeft := if newLinenoLeft.Some? then newLinenoLeft.value else prevLinenoLeft;
      prevLinenoRight := if newLinenoRight.Some? then newLinenoRight.value else prevLinenoRight;
      i := i + 1;
    }
  }

  /** The label of row `i` on one side, given everything before it. */
  function Label(diff: seq<PartsDiff>, i: nat, left: bool, maxLinenoWidth: nat): string
    requires i < |diff|
  {
    GenerateLinenoStr(LastLineno(diff[..i], left), SideLineno(diff[i], left), maxLinenoWidth)
  }

  lemma {:induction false} LastLinenoStep(diff: seq<PartsDiff>, i: nat, left: bool)
    requires i < |diff|
    ensures LastLineno(diff[..i + 1], left) ==
      match SideLineno(diff[i], left) case Some(n) => n case None => LastLineno(diff[..i], left)
  {
    assert diff[..i + 1][..i] == diff[..i];
  }

  /**
   * A row whose side repeats the number of the last row shown on that side
   * (a reflow continuation) is labelled with the ellipsis; a positive
   * number is never taken for a continuation of nothing.
   */
  lemma {:induction false} ContinuationLabel(diff: seq<PartsDiff>, i: nat, left: bool, w: nat)
    requires i < |diff| && SideLineno(diff[i], left).Some?
    requires i > 0 && SideLineno(diff[i - 1], left) == SideLineno(diff[i], left)
    ensures GenerateLinenoStr(LastLineno(diff[..i], left), SideLineno(diff[i], left), w)
            == Center("…", w + 2 * LINENO_PADDING)
  {
    var pre := diff[..i];
    assert pre[|pre| - 1] == diff[i - 1];
  }

  lemma {:induction false} FirstShownLabel(diff: seq<PartsDiff>, i: nat, left: bool, w: nat)
    requires i < |diff| && SideLineno(diff[i], left).Some? && SideLineno(diff[i], left).value >= 1
    requires forall k :: 0 <= k < i ==> SideLineno(diff[k], left).None?
    ensures GenerateLinenoStr(LastLineno(diff[..i], left), SideLineno(diff[i], left), w)
            == Center(ToDecimal(SideLineno(diff[i], left).value), w + 2 * LINENO_PADDING)
  {
    var pre := diff[..i];
    assert forall k :: 0 <= k < |pre| ==> pre[k] == diff[k];
    LastLinenoNone(pre, left);
  }
}
