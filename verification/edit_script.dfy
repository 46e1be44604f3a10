/**
 * The edit scripts the engine consumes.  Computing them (the `similar`
 * crate's line- and character-level diffs) is not part of this model: a
 * script is an input, a sequence of operations each carrying its tag, the
 * 0-based index on the old and/or the new side, and its text.
 */
module EditScript {
  import opened Wrappers
  import opened Text
  import opened Segments

  /** One source line: its 1-based number and its text. */
  datatype Line = Line(lineno: nat, value: string)

  /** One operation of an edit script; the tag uses the segment kinds. */
  datatype Change = Change(tag: Kind, oldIndex: Option<nat>, newIndex: Option<nat>, value: string)

  /** Which side(s) an operation touches, with the line it contributes there. */
  datatype Side = Both(left: Line, right: Line) | LeftOnly(left: Line) | RightOnly(right: Line)

  /** The producer's promise: every operation names at least one side. */
  predicate HasIndex(c: Change)
  {
    c.oldIndex.Some? || c.newIndex.Some?
  }

  /**
   * `side`: classify an operation by the indices it carries; line numbers
   * are the indices plus one and the text loses its trailing newlines.
   */
  function SideOf(c: Change): (s: Side)
    requires HasIndex(c)
    ensures s.Both? <==> c.oldIndex.Some? && c.newIndex.Some?
    ensures s.LeftOnly? <==> c.oldIndex.Some? && c.newIndex.None?
    ensures s.RightOnly? <==> c.oldIndex.None? && c.newIndex.Some?
    ensures !s.RightOnly? ==> s.left.lineno == c.oldIndex.value + 1 && s.left.lineno >= 1
    ensures !s.LeftOnly? ==> s.right.lineno == c.newIndex.value + 1 && s.right.lineno >= 1
    ensures !s.RightOnly? ==> s.left.value == TrimEndChar(c.value, '\n')
    ensures !s.LeftOnly? ==> s.right.value == TrimEndChar(c.value, '\n')
  {
    var value := TrimEndChar(c.value, '\n');
    match (c.oldIndex, c.newIndex)
    case (Some(l), Some(r)) => Both(Line(l + 1, value), Line(r + 1, value))
    case (Some(l), None) => LeftOnly(Line(l + 1, value))
    case (None, Some(r)) => RightOnly(Line(r + 1, value))
  }
}
