/**
 * Per-row conversion (`diff_lines`, `convert_diff` in src/lib.rs): a
 * two-sided row is cut into Equal/Delete/Insert segments by walking the
 * character-level edit script of its two texts; a one-sided row becomes a
 * single Delete or Insert segment.
 */
module SubDiff {
  import opened Wrappers
  import opened Segments
  import opened EditScript
  import opened Alignment

  /**
   * The (tag, side) pairs `diff_lines` handles; any other pair reaches the
   * source's `unreachable!`.
   */
  predicate Handled(c: Change)
  {
    HasIndex(c) &&
    match (c.tag, SideOf(c))
    case (Equal, Both(_, _)) => true
    case (Delete, LeftOnly(_)) => true
    case (Delete, RightOnly(_)) => true
    case (Insert, LeftOnly(_)) => true
    case (Insert, RightOnly(_)) => true
    case _ => false
  }

  predicate AllHandled(script: seq<Change>)
  {
    forall i :: 0 <= i < |script| ==> Handled(script[i])
  }

  /** The segment an operation contributes to the left side, if any. */
  function LeftPiece(c: Change): Option<Part>
    requires Handled(c)
  {
    match (c.tag, SideOf(c))
    case (Equal, Both(_, _)) => Some(Part(Equal, c.value))
    case (Delete, LeftOnly(_)) => Some(Part(Delete, c.value))
    case (Insert, LeftOnly(_)) => Some(Part(Insert, c.value))
    case _ => None
  }

  /** The segment an operation contributes to the right side, if any. */
  function RightPiece(c: Change): Option<Part>
    requires Handled(c)
  {
    match (c.tag, SideOf(c))
    case (Equal, Both(_, _)) => Some(Part(Equal, c.value))
    case (Delete, RightOnly(_)) => Some(Part(Delete, c.value))
    case (Insert, RightOnly(_)) => Some(Part(Insert, c.value))
    case _ => None
  }

  function PushOpt(ps: seq<Part>, p: Option<Part>): seq<Part>
  {
    match p
    case Some(q) => Push(ps, q)
    case None => ps
  }

  /** The left segments after pushing the whole script. */
  function LeftParts(script: seq<Change>): seq<Part>
    requires AllHandled(script)
  {
    if script == [] then []
    else PushOpt(LeftParts(script[..|script| - 1]), LeftPiece(script[|script| - 1]))
  }

  /** The right segments after pushing the whole script. */
  function RightParts(script: seq<Change>): seq<Part>
    requires AllHandled(script)
  {
    if script == [] then []
    else PushOpt(RightParts(script[..|script| - 1]), RightPiece(script[|script| - 1]))
  }

  function TaggedOpt(p: Option<Part>): seq<(Kind, char)>
  {
    match p
    case Some(q) => Tagged(q)
    case None => []
  }

  /** The tagged characters the script sends to the left, in order. */
  function LeftStream(script: seq<Change>): seq<(Kind, char)>
    requires AllHandled(script)
  {
    if script == [] then []
    else LeftStream(script[..|script| - 1]) + TaggedOpt(LeftPiece(script[|script| - 1]))
  }

  /** The tagged characters the script sends to the right, in order. */
  function RightStream(script: seq<Change>): seq<(Kind, char)>
    requires AllHandled(script)
  {
    if script == [] then []
    else RightStream(script[..|script| - 1]) + TaggedOpt(RightPiece(script[|script| - 1]))
  }

  /**
   * Building a side by pushes keeps it coalesced, and its tagged stream is
   * exactly the script's: every character once, in order, with the tag of
   * the operation that carried it.
   */
  lemma {:induction false} SidePartsFaithful(script: seq<Change>)
    requires AllHandled(script)
    ensures Coalesced(LeftParts(script)) && Coalesced(RightParts(script))
    ensures Chars(LeftParts(script)) == LeftStream(script)
    ensures Chars(RightParts(script)) == RightStream(script)
    decreases |script|
  {
    if script != [] {
      var init := script[..|script| - 1];
      var c := script[|script| - 1];
      SidePartsFaithful(init);
      if LeftPiece(c).Some? {
        PushAppendOrMerge(LeftParts(init), LeftPiece(c).value);
      }
      if RightPiece(c).Some? {
        PushAppendOrMerge(RightParts(init), RightPiece(c).value);
      }
    }
  }

  /**
   * The producer's usual shape: Delete operations carry only an old index
   * and Insert operations only a new one.
   */
  predicate Proper(c: Change)
  {
    HasIndex(c) &&
    match c.tag
    case Equal => c.oldIndex.Some? && c.newIndex.Some?
    case Delete => c.oldIndex.Some? && c.newIndex.None?
    case Insert => c.oldIndex.None? && c.newIndex.Some?
  }

  /** The old text a script spells out: its Equal and Delete values. */
  function OldText(script: seq<Change>): string
  {
    if script == [] then []
    else OldText(script[..|script| - 1])
         + (var c := script[|script| - 1]; if c.tag == Insert then [] else c.value)
  }

  /** The new text a script spells out: its Equal and Insert values. */
  function NewText(script: seq<Change>): string
  {
    if script == [] then []
    else NewText(script[..|script| - 1])
         + (var c := script[|script| - 1]; if c.tag == Delete then [] else c.value)
  }

  /** The characters of a tagged stream. */
  function Untag(t: seq<(Kind, char)>): (r: string)
    ensures |r| == |t|
    ensures forall i :: 0 <= i < |t| ==> r[i] == t[i].1
  {
    seq(|t|, i requires 0 <= i < |t| => t[i].1)
  }

  /** What one proper operation contributes to each side. */
  lemma ProperPieces(c: Change)
    requires Proper(c)
    ensures Handled(c)
    ensures Untag(TaggedOpt(LeftPiece(c))) == (if c.tag == Insert then [] else c.value)
    ensures Untag(TaggedOpt(RightPiece(c))) == (if c.tag == Delete then [] else c.value)
    ensures LeftPiece(c).Some? ==> LeftPiece(c).value.kind != Insert
    ensures RightPiece(c).Some? ==> RightPiece(c).value.kind != Delete
  {
  }

  lemma {:induction false} ProperHandled(script: seq<Change>)
    requires forall i :: 0 <= i < |script| ==> Proper(script[i])
    ensures AllHandled(script)
  {
    forall i | 0 <= i < |script|
      ensures Handled(script[i])
    {
      ProperPieces(script[i]);
    }
  }

  lemma UntagAppend(a: seq<(Kind, char)>, b: seq<(Kind, char)>)
    ensures Untag(a + b) == Untag(a) + Untag(b)
  {
  }

  /** For a proper script the left side spells the old text from Equal and Delete characters only. */
  lemma {:induction false} ProperLeftStream(script: seq<Change>)
    requires forall i :: 0 <= i < |script| ==> Proper(script[i])
    ensures AllHandled(script)
    ensures Untag(LeftStream(script)) == OldText(script)
    ensures forall i :: 0 <= i < |LeftStream(script)| ==> LeftStream(script)[i].0 != Insert
    decreases |script|
  {
    ProperHandled(script);
    if script != [] {
      var init := script[..|script| - 1];
      var c := script[|script| - 1];
      assert forall i :: 0 <= i < |init| ==> init[i] == script[i];
      ProperLeftStream(init);
      ProperPieces(c);
      var l := TaggedOpt(LeftPiece(c));
      assert forall i :: 0 <= i < |l| ==> l[i].0 != Insert;
      UntagAppend(LeftStream(init), l);
    }
  }

  /** For a proper script the right side spells the new text from Equal and Insert characters only. */
  lemma {:induction false} ProperRightStream(script: seq<Change>)
    requires forall i :: 0 <= i < |script| ==> Proper(script[i])
    ensures AllHandled(script)
    ensures Untag(RightStream(script)) == NewText(script)
    ensures forall i :: 0 <= i < |RightStream(script)| ==> RightStream(script)[i].0 != Delete
    decreases |script|
  {
    ProperHandled(script);
    if script != [] {
      var init := script[..|script| - 1];
      var c := script[|script| - 1];
      assert forall i :: 0 <= i < |init| ==> init[i] == script[i];
      ProperRightStream(init);
      ProperPieces(c);
      var r := TaggedOpt(RightPiece(c));
      assert forall i :: 0 <= i < |r| ==> r[i].0 != Delete;
      UntagAppend(RightStream(init), r);
    }
  }

  /** Pushing one more operation extends both sides by that operation's pieces. */
  lemma {:induction false} PartsStep(script: seq<Change>, i: nat)
    requires AllHandled(script) && i < |script|
    ensures AllHandled(script[..i]) && AllHandled(script[..i + 1])
    ensures LeftParts(script[..i + 1]) == PushOpt(LeftParts(script[..i]), LeftPiece(script[i]))
    ensures RightParts(script[..i + 1]) == PushOpt(RightParts(script[..i]), RightPiece(script[i]))
  {
    assert script[..i + 1][..i] == script[..i];
  }

  /** `diff_lines`: push every operation's text onto the side(s) it belongs to. */
  method DiffLines(a: Line, b: Line, script: seq<Change>) returns (x: Option<Parts>, y: Option<Parts>)
    requires AllHandled(script)
    ensures x == Some(Parts(a.lineno, LeftParts(script)))
    ensures y == Some(Parts(b.lineno, RightParts(script)))
  {
    var xb := new PartsBuilder(a.lineno);
    var yb := new PartsBuilder(b.lineno);
    var i := 0;
    while i < |script|
      invariant 0 <= i <= |script|
      invariant xb != yb
      invariant xb.lineno == a.lineno && yb.lineno == b.lineno
      invariant xb.parts == LeftParts(script[..i]) && yb.parts == RightParts(script[..i])
    {
      var change := script[i];
      var value := change.value;
      PartsStep(script, i);
      match (change.tag, SideOf(change)) {
        case (Equal, Both(_, _)) =>
          xb.PushEqual(value);
          yb.PushEqual(value);
        case (Delete, LeftOnly(_)) => xb.PushDelete(value);
        case (Delete, RightOnly(_)) => yb.PushDelete(value);
        case (Insert, LeftOnly(_)) => xb.PushInsert(value);
        case (Insert, RightOnly(_)) => yb.PushInsert(value);
      }
      i := i + 1;
    }
    assert script[..|script|] == script;
    x, y := Some(xb.Value()), Some(yb.Value());
  }

  /**
   * `convert_diff`: a left-only row becomes one Delete segment, a
   * right-only row one Insert segment, each with the whole text and line
   * number; a two-sided row is sub-diffed with `script`, the character
   * script of its two texts.
   */
  method ConvertDiff(diff: LineDiff, script: seq<Change>) returns (pd: PartsDiff)
    requires HasSide(diff)
    requires diff.left.Some? && diff.right.Some? ==> AllHandled(script)
    ensures diff.left.None? ==>
      pd == PartsDiff(None, Some(Parts(diff.right.value.lineno, [Part(Insert, diff.right.value.value)])))
    ensures diff.right.None? ==>
      pd == PartsDiff(Some(Parts(diff.left.value.lineno, [Part(Delete, diff.left.value.value)])), None)
    ensures diff.left.Some? && diff.right.Some? ==>
      pd == PartsDiff(Some(Parts(diff.left.value.lineno, LeftParts(script))),
                      Some(Parts(diff.right.value.lineno, RightParts(script))))
  {
    match (diff.left, diff.right) {
      case (None, Some(right)) =>
        pd := PartsDiff(None, Some(Parts(right.lineno, [Part(Insert, right.value)])));
      case (Some(left), None) =>
        pd := PartsDiff(Some(Parts(left.lineno, [Part(Delete, left.value)])), None);
      case (Some(left), Some(right)) =>
        var x, y := DiffLines(left, right, script);
        pd := PartsDiff(x, y);
    }
  }

  /**
   * With a proper script of the row's two texts, the converted left side
   * spells the left text from Equal and Delete segments, and the right
   * side the right text from Equal and Insert segments; both are coalesced.
   */
  lemma TwoSidedRowTexts(l: Line, r: Line, script: seq<Change>)
    requires forall i :: 0 <= i < |script| ==> Proper(script[i])
    requires OldText(script) == l.value && NewText(script) == r.value
    ensures AllHandled(script)
    ensures Coalesced(LeftParts(script)) && Coalesced(RightParts(script))
    ensures Untag(Chars(LeftParts(script))) == l.value
    ensures Untag(Chars(RightParts(script))) == r.value
    ensures forall i :: 0 <= i < |LeftParts(script)| && LeftParts(script)[i].text != [] ==>
                          LeftParts(script)[i].kind != Insert
    ensures forall i :: 0 <= i < |RightParts(script)| && RightParts(script)[i].text != [] ==>
                          RightParts(script)[i].kind != Delete
  {
    ProperLeftStream(script);
    ProperRightStream(script);
    SidePartsFaithful(script);
    KindsFromChars(LeftParts(script), Insert);
    KindsFromChars(RightParts(script), Delete);
  }

  /** A kind absent from the tagged stream is absent from every non-empty segment. */
  lemma {:induction false} KindsFromChars(ps: seq<Part>, k: Kind)
    requires forall i :: 0 <= i < |Chars(ps)| ==> Chars(ps)[i].0 != k
    ensures forall i :: 0 <= i < |ps| && ps[i].text != [] ==> ps[i].kind != k
  {
    if ps != [] {
      if ps[0].text != [] {
        assert Chars(ps)[0] == Tagged(ps[0])[0];
      }
      var rest := Chars(ps[1..]);
      assert forall i :: 0 <= i < |rest| ==> rest[i] == Chars(ps)[|Tagged(ps[0])| + i];
      KindsFromChars(ps[1..], k);
    }
  }
}
