/**
 * Row alignment (`find_hole`, `diff_a_and_b` in src/lib.rs): the
 * line-level edit script becomes a sequence of rows, each with an
 * optional left and right line.  A one-sided operation first looks for a
 * "hole", a recent row whose side it would take is still absent and whose
 * other side is similar, and fills it in place.
 */
module Alignment {
  import opened Wrappers
  import opened EditScript
  import opened Similarity

  /** Rust's `LineDiff`: one aligned row before sub-diffing. */
  datatype LineDiff = LineDiff(left: Option<Line>, right: Option<Line>)

  /** The row invariant: at least one side is present. */
  predicate HasSide(d: LineDiff)
  {
    d.left.Some? || d.right.Some?
  }

  predicate AllHaveSide(diffs: seq<LineDiff>)
  {
    forall i :: 0 <= i < |diffs| ==> HasSide(diffs[i])
  }

  /** The side being sought (left when `left`, right otherwise) is absent. */
  predicate Lacks(d: LineDiff, left: bool)
  {
    if left then d.left.None? else d.right.None?
  }

  /** The text of the side opposite the one sought. */
  function OppositeText(d: LineDiff, left: bool): string
  {
    var other := if left then d.right else d.left;
    match other
    case Some(line) => line.value
    case None => []
  }

  /**
   * Where the trailing run of rows lacking the sought side begins: the
   * length of the sequence when the last row has that side.
   */
  function RunStart(diffs: seq<LineDiff>, left: bool): (j: nat)
    ensures j <= |diffs|
    ensures forall i :: j <= i < |diffs| ==> Lacks(diffs[i], left)
    ensures j == 0 || !Lacks(diffs[j - 1], left)
  {
    if diffs != [] && Lacks(diffs[|diffs| - 1], left) then RunStart(diffs[..|diffs| - 1], left)
    else |diffs|
  }

  /** The forward scan of `find_hole`, from row `i` on. */
  function FindFrom(diffs: seq<LineDiff>, left: bool, value: string, i: nat): (r: Option<nat>)
    requires i <= |diffs|
    ensures r.Some? ==> i <= r.value < |diffs| && Lacks(diffs[r.value], left)
                        && Similar(OppositeText(diffs[r.value], left), value)
    ensures r.None? ==> forall k :: i <= k < |diffs| && (forall m :: i <= m <= k ==> Lacks(diffs[m], left))
                                    ==> !Similar(OppositeText(diffs[k], left), value)
    ensures r.Some? ==> forall k :: i <= k < r.value ==> !Similar(OppositeText(diffs[k], left), value)
    decreases |diffs| - i
  {
    if i == |diffs| then None
    else if !Lacks(diffs[i], left) then None
    else if Similar(OppositeText(diffs[i], left), value) then Some(i)
    else FindFrom(diffs, left, value, i + 1)
  }

  /**
   * `find_hole`: the first row of the trailing run lacking the sought side
   * whose other side is similar to `value`, if any.  Every row must have a
   * side; the source panics on a row with none.
   */
  function FindHole(diffs: seq<LineDiff>, left: bool, value: string): (r: Option<nat>)
    requires AllHaveSide(diffs)
    ensures r.Some? ==> RunStart(diffs, left) <= r.value < |diffs| && Lacks(diffs[r.value], left)
    ensures r.Some? ==> Similar(OppositeText(diffs[r.value], left), value)
    ensures forall k :: RunStart(diffs, left) <= k < (if r.Some? then r.value else |diffs|)
                        ==> !Similar(OppositeText(diffs[k], left), value)
    ensures RunStart(diffs, left) == |diffs| ==> r.None?
  {
    FindFrom(diffs, left, value, RunStart(diffs, left))
  }

  /** One operation of `diff_a_and_b`. */
  function Step(diffs: seq<LineDiff>, c: Change): (r: seq<LineDiff>)
    requires AllHaveSide(diffs) && HasIndex(c)
    ensures AllHaveSide(r)
  {
    match SideOf(c)
    case Both(l, r) => diffs + [LineDiff(Some(l), Some(r))]
    case LeftOnly(l) =>
      (match FindHole(diffs, true, l.value)
       case Some(h) => diffs[h := diffs[h].(left := Some(l))]
       case None => diffs + [LineDiff(Some(l), None)])
    case RightOnly(r) =>
      (match FindHole(diffs, false, r.value)
       case Some(h) => diffs[h := diffs[h].(right := Some(r))]
       case None => diffs + [LineDiff(None, Some(r))])
  }

  predicate AllHaveIndex(changes: seq<Change>)
  {
    forall i :: 0 <= i < |changes| ==> HasIndex(changes[i])
  }

  /** The rows `diff_a_and_b` builds from a script, operation by operation. */
  function Align(changes: seq<Change>): (r: seq<LineDiff>)
    requires AllHaveIndex(changes)
    ensures AllHaveSide(r)
    ensures |r| <= |changes|
  {
    if changes == [] then []
    else Step(Align(changes[..|changes| - 1]), changes[|changes| - 1])
  }

  /** `diff_a_and_b`, with the script of the line diff as input. */
  method DiffAAndB(changes: seq<Change>) returns (diffs: seq<LineDiff>)
    requires AllHaveIndex(changes)
    ensures diffs == Align(changes)
    ensures AllHaveSide(diffs)
  {
    diffs := [];
    var i := 0;
    while i < |changes|
      invariant 0 <= i <= |changes|
      invariant diffs == Align(changes[..i])
    {
      AlignSnoc(changes, i);
      ghost var before := diffs;
      match SideOf(changes[i]) {
      case Both(lineL, lineR) =>
        diffs := diffs + [LineDiff(Some(lineL), Some(lineR))];
      case LeftOnly(line) =>
        var hole := FindHole(diffs, true, line.value);
        if hole.Some? {
          diffs := diffs[hole.value := diffs[hole.value].(left := Some(line))];
        } else {
          diffs := diffs + [LineDiff(Some(line), None)];
        }
      case RightOnly(line) =>
        var hole := FindHole(diffs, false, line.value);
        if hole.Some? {
          diffs := diffs[hole.value := diffs[hole.value].(right := Some(line))];
        } else {
          diffs := diffs + [LineDiff(None, Some(line))];
        }
      }
      assert diffs == Step(before, changes[i]);
      i := i + 1;
    }
    assert changes[..|changes|] == changes;
  }

  lemma AlignSnoc(changes: seq<Change>, i: nat)
    requires i < |changes| && AllHaveIndex(changes)
    ensures AllHaveIndex(changes[..i]) && AllHaveIndex(changes[..i + 1])
    ensures Align(changes[..i + 1]) == Step(Align(changes[..i]), changes[i])
  {
    assert changes[..i + 1][..i] == changes[..i];
  }

  /** `later` keeps every row of `earlier` and every side already filled there. */
  predicate Extends(earlier: seq<LineDiff>, later: seq<LineDiff>)
  {
    && |earlier| <= |later|
    && forall i :: 0 <= i < |earlier| ==>
         (earlier[i].left.Some? ==> later[i].left == earlier[i].left)
         && (earlier[i].right.Some? ==> later[i].right == earlier[i].right)
  }

  /**
   * One step: a two-sided operation appends a two-sided row; a one-sided
   * operation either fills the absent side of one row in place, leaving
   * the length and every other row unchanged, or appends one row.
   */
  lemma StepShape(diffs: seq<LineDiff>, c: Change)
    requires AllHaveSide(diffs) && HasIndex(c)
    ensures var r := Step(diffs, c);
      && Extends(diffs, r)
      && (SideOf(c).Both? ==> r == diffs + [LineDiff(Some(SideOf(c).left), Some(SideOf(c).right))])
      && (SideOf(c).LeftOnly? ==>
            r == diffs + [LineDiff(Some(SideOf(c).left), None)]
            || (|r| == |diffs|
                && exists h :: 0 <= h < |diffs| && diffs[h].left.None?
                             && r[h] == diffs[h].(left := Some(SideOf(c).left))
                             && (forall k :: 0 <= k < |diffs| && k != h ==> r[k] == diffs[k])))
      && (SideOf(c).RightOnly? ==>
            r == diffs + [LineDiff(None, Some(SideOf(c).right))]
            || (|r| == |diffs|
                && exists h :: 0 <= h < |diffs| && diffs[h].right.None?
                             && r[h] == diffs[h].(right := Some(SideOf(c).right))
                             && (forall k :: 0 <= k < |diffs| && k != h ==> r[k] == diffs[k])))
  {
  }

  /** A filled side is never overwritten: every prefix's rows survive into the whole alignment. */
  lemma {:induction false} AlignExtends(changes: seq<Change>, k: nat)
    requires AllHaveIndex(changes) && k <= |changes|
    ensures Extends(Align(changes[..k]), Align(changes))
    decreases |changes| - k
  {
    if k == |changes| {
      assert changes[..k] == changes;
    } else {
      var init := changes[..|changes| - 1];
      assert init[..k] == changes[..k];
      AlignExtends(init, k);
      StepShape(Align(init), changes[|changes| - 1]);
    }
  }

  /** The present left lines, top to bottom. */
  function Lefts(diffs: seq<LineDiff>): seq<Line>
  {
    if diffs == [] then []
    else Lefts(diffs[..|diffs| - 1]) + (match diffs[|diffs| - 1].left case Some(l) => [l] case None => [])
  }

  /** The present right lines, top to bottom. */
  function Rights(diffs: seq<LineDiff>): seq<Line>
  {
    if diffs == [] then []
    else Rights(diffs[..|diffs| - 1]) + (match diffs[|diffs| - 1].right case Some(r) => [r] case None => [])
  }

  /** The lines a script puts on the left, in script order. */
  function LeftLines(changes: seq<Change>): seq<Line>
    requires AllHaveIndex(changes)
  {
    if changes == [] then []
    else LeftLines(changes[..|changes| - 1])
         + (var s := SideOf(changes[|changes| - 1]); if s.RightOnly? then [] else [s.left])
  }

  /** The lines a script puts on the right, in script order. */
  function RightLines(changes: seq<Change>): seq<Line>
    requires AllHaveIndex(changes)
  {
    if changes == [] then []
    else RightLines(changes[..|changes| - 1])
         + (var s := SideOf(changes[|changes| - 1]); if s.LeftOnly? then [] else [s.right])
  }

  lemma {:induction false} LeftsAppend(a: seq<LineDiff>, b: seq<LineDiff>)
    ensures Lefts(a + b) == Lefts(a) + Lefts(b)
    ensures Rights(a + b) == Rights(a) + Rights(b)
    decreases |b|
  {
    if b == [] {
      assert a + b == a;
    } else {
      assert (a + b)[..|a + b| - 1] == a + b[..|b| - 1];
      LeftsAppend(a, b[..|b| - 1]);
    }
  }

  lemma {:induction false} LeftsOfLacking(b: seq<LineDiff>, left: bool)
    requires forall i :: 0 <= i < |b| ==> Lacks(b[i], left)
    ensures left ==> Lefts(b) == []
    ensures !left ==> Rights(b) == []
    decreases |b|
  {
    if b != [] {
      LeftsOfLacking(b[..|b| - 1], left);
    }
  }

  lemma Lefts3(a: seq<LineDiff>, x: seq<LineDiff>, b: seq<LineDiff>)
    ensures Lefts(a + x + b) == Lefts(a) + Lefts(x) + Lefts(b)
    ensures Rights(a + x + b) == Rights(a) + Rights(x) + Rights(b)
  {
    LeftsAppend(a + x, b);
    LeftsAppend(a, x);
  }

  lemma SplitAround(diffs: seq<LineDiff>, h: nat)
    requires h < |diffs|
    ensures diffs == diffs[..h] + [diffs[h]] + diffs[h + 1..]
  {
    assert diffs == diffs[..h] + diffs[h..];
    assert diffs[h..] == [diffs[h]] + diffs[h + 1..];
  }

  /** Reading a row sequence split around one row. */
  lemma LeftsAround(diffs: seq<LineDiff>, h: nat)
    requires h < |diffs|
    ensures Lefts(diffs) == Lefts(diffs[..h]) + Lefts([diffs[h]]) + Lefts(diffs[h + 1..])
    ensures Rights(diffs) == Rights(diffs[..h]) + Rights([diffs[h]]) + Rights(diffs[h + 1..])
  {
    SplitAround(diffs, h);
    Lefts3(diffs[..h], [diffs[h]], diffs[h + 1..]);
  }

  /** Filling a left hole in the trailing run adds the line at the end of the left reading order. */
  lemma FillLeftHoleOrder(diffs: seq<LineDiff>, h: nat, line: Line)
    requires RunStart(diffs, true) <= h < |diffs|
    ensures Lefts(diffs[h := diffs[h].(left := Some(line))]) == Lefts(diffs) + [line]
    ensures Rights(diffs[h := diffs[h].(left := Some(line))]) == Rights(diffs)
  {
    var d' := diffs[h := diffs[h].(left := Some(line))];
    LeftsAround(diffs, h);
    LeftsAround(d', h);
    assert d'[..h] == diffs[..h] && d'[h + 1..] == diffs[h + 1..];
    LeftsOfLacking(diffs[h + 1..], true);
    assert [diffs[h]][..0] == [] && [d'[h]][..0] == [];
  }

  /** Filling a right hole in the trailing run adds the line at the end of the right reading order. */
  lemma FillRightHoleOrder(diffs: seq<LineDiff>, h: nat, line: Line)
    requires RunStart(diffs, false) <= h < |diffs|
    ensures Rights(diffs[h := diffs[h].(right := Some(line))]) == Rights(diffs) + [line]
    ensures Lefts(diffs[h := diffs[h].(right := Some(line))]) == Lefts(diffs)
  {
    var d' := diffs[h := diffs[h].(right := Some(line))];
    LeftsAround(diffs, h);
    LeftsAround(d', h);
    assert d'[..h] == diffs[..h] && d'[h + 1..] == diffs[h + 1..];
    LeftsOfLacking(diffs[h + 1..], false);
    assert [diffs[h]][..0] == [] && [d'[h]][..0] == [];
  }

  /**
   * Alignment loses, duplicates and reorders no line: reading the present
   * left (right) sides top to bottom gives exactly the script's left
   * (right) lines in script order.
   */
  lemma {:induction false} AlignPreservesLines(changes: seq<Change>)
    requires AllHaveIndex(changes)
    ensures Lefts(Align(changes)) == LeftLines(changes)
    ensures Rights(Align(changes)) == RightLines(changes)
    decreases |changes|
  {
    if changes != [] {
      var init := changes[..|changes| - 1];
      var c := changes[|changes| - 1];
      var d := Align(init);
      AlignPreservesLines(init);
      match SideOf(c)
      case Both(l, r) =>
        LeftsAppend(d, [LineDiff(Some(l), Some(r))]);
      case LeftOnly(l) => {
        match FindHole(d, true, l.value)
        case Some(h) =>
          FillLeftHoleOrder(d, h, l);
        case None =>
          LeftsAppend(d, [LineDiff(Some(l), None)]);
      }
      case RightOnly(r) => {
        match FindHole(d, false, r.value)
        case Some(h) =>
          FillRightHoleOrder(d, h, r);
        case None =>
          LeftsAppend(d, [LineDiff(None, Some(r))]);
      }
    }
  }
}
