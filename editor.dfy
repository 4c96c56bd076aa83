/**
 * The key handler of the editor's textarea: Tab replaces the selection with two
 * spaces and collapses the caret after them; every other key is left to the
 * textarea's own change path.
 */
module Editor {
  import opened JsString
  import opened Insert

  /** Two spaces, the indentation Tab inserts. */
  const Indent: string := "  "

  /** What `handleKeyDown` does with a key: nothing, or a new value and the caret to set. */
  datatype KeyOutcome = PassThrough | Indented(value: string, caret: int)

  /** `handleKeyDown` for a key pressed with the selection `[start, end)` of `value`. */
  function KeyDown(key: string, value: string, start: int, end: int): (r: KeyOutcome)
    ensures r.Indented? <==> key == "Tab"
  {
    if key == "Tab" then Indented(Splice(value, start, end, Indent), start + 2)
    else PassThrough
  }

  /**
   * Within range, Tab keeps the text before `start` and from `end` on, puts two
   * spaces in between, and collapses the caret right after them.
   */
  lemma TabIndents(value: string, start: int, end: int)
    requires 0 <= start <= end <= |value|
    ensures var r := KeyDown("Tab", value, start, end);
      && r.Indented?
      && |r.value| == |value| - (end - start) + 2
      && r.value[..start] == value[..start]
      && r.value[start..start + 2] == Indent
      && r.value[start + 2..] == value[end..]
      && r.caret == start + 2
      && r.value[..r.caret] == value[..start] + Indent
  {
    SpliceInRange(value, start, end, Indent);
    var r := KeyDown("Tab", value, start, end);
    assert r.value[..start + 2] == r.value[..start] + r.value[start..start + 2];
  }

  /** Tab is `handleInsert` of two spaces: a text without markers, so the same buffer and caret. */
  lemma TabIsInsert(value: string, start: int, end: int)
    ensures var r := KeyDown("Tab", value, start, end);
      && HandleInsert(value, Indent, Some(Selection(start, end))) == InsertResult(r.value, Some(r.caret))
  {
    assert Indent[0] == ' ' && Indent[1] == ' ';
    assert !Includes(Indent, "**") && !Includes(Indent, "*") && !Includes(Indent, "~~") && !Includes(Indent, "[") by {
      assert Indent[1..][1..] == [];
    }
  }

  /** Putting the selection back in place of the two spaces gives back the original value. */
  lemma TabUndo(value: string, start: int, end: int)
    requires 0 <= start <= end <= |value|
    ensures Splice(KeyDown("Tab", value, start, end).value, start, start + 2, value[start..end]) == value
  {
    SpliceUndo(value, start, end, Indent);
  }
}
