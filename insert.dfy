/**
 * `handleInsert` of the application: the text to insert replaces the textarea's
 * selection in the buffer (with `substring` clamping), and the caret is then
 * put back by a small rule that depends on whether there was a selection and
 * on the markers the inserted text contains.
 */
module Insert {
  import opened JsString

  /** `selectionStart` and `selectionEnd` of the textarea when the insertion is asked for. */
  datatype Selection = Selection(start: int, end: int)

  /** The buffer after the insertion, and where the caret is collapsed, if it is set at all. */
  datatype InsertResult = InsertResult(buffer: string, caret: Option<int>)

  /** `prev.substring(0, start) + text + prev.substring(end)`. */
  function Splice(prev: string, start: int, end: int, text: string): string {
    Substring(prev, 0, start) + text + SubstringFrom(prev, end)
  }

  /** The "wrapping" test: the text contains `**`, `*`, `~~` or `[`. */
  predicate IsWrapping(text: string) {
    Includes(text, "**") || Includes(text, "*") || Includes(text, "~~") || Includes(text, "[")
  }

  /** The marker width the caret rule assumes: two for `**` and `~~`, one otherwise. */
  function WrapLength(text: string): nat {
    if StartsWith(text, "**") then 2
    else if StartsWith(text, "~~") then 2
    else if StartsWith(text, "[") then 1
    else 1
  }

  /**
   * The caret position set after the insertion: with a selection and a wrapping
   * text, `start + wrapLength + contentLength` where the content length is the
   * text's length minus two markers; otherwise just after the inserted text.
   */
  function CaretAfter(start: int, end: int, text: string): int {
    var hasSelection := start != end;
    if hasSelection && IsWrapping(text) then
      var w := WrapLength(text);
      var contentLength := |text| - w * 2;
      start + w + contentLength
    else start + |text|
  }

  /** `handleInsert(text)`: without a textarea the text is appended and no caret is set. */
  function HandleInsert(prev: string, text: string, textarea: Option<Selection>): (r: InsertResult)
    ensures r.caret.None? <==> textarea.None?
  {
    match textarea
    case None => InsertResult(prev + text, None)
    case Some(sel) => InsertResult(Splice(prev, sel.start, sel.end, text), Some(CaretAfter(sel.start, sel.end, text)))
  }

  /** The splice keeps the clamped prefix and suffix of `prev` around the text, whatever the indices. */
  lemma SpliceAnyIndices(prev: string, start: int, end: int, text: string)
    ensures Splice(prev, start, end, text) == prev[..Clamp(start, |prev|)] + text + prev[Clamp(end, |prev|)..]
    ensures |Splice(prev, start, end, text)| == Clamp(start, |prev|) + |text| + |prev| - Clamp(end, |prev|)
  {
  }

  /**
   * Within range, the text before `start` and from `end` on is kept, the text sits
   * in between, and the length changes by the text's length minus the selection's.
   */
  lemma SpliceInRange(prev: string, start: int, end: int, text: string)
    requires 0 <= start <= end <= |prev|
    ensures var r := Splice(prev, start, end, text);
      && |r| == |prev| - (end - start) + |text|
      && r[..start] == prev[..start]
      && r[start..start + |text|] == text
      && r[start + |text|..] == prev[end..]
  {
    var r := Splice(prev, start, end, text);
    assert r == prev[..start] + text + prev[end..];
    assert r[start..start + |text|] == text;
    assert r[start + |text|..] == prev[end..];
  }

  /** Splicing the removed text back over the inserted text undoes the insertion. */
  lemma SpliceUndo(prev: string, start: int, end: int, text: string)
    requires 0 <= start <= end <= |prev|
    ensures Splice(Splice(prev, start, end, text), start, start + |text|, prev[start..end]) == prev
  {
    var r := Splice(prev, start, end, text);
    SpliceInRange(prev, start, end, text);
    assert Splice(r, start, start + |text|, prev[start..end]) == prev[..start] + prev[start..end] + prev[end..];
    assert prev[..start] + prev[start..end] + prev[end..] == prev;
  }

  /** Without a textarea the insertion is the splice at the end of the buffer, and no caret is set. */
  lemma NoTextareaAppends(prev: string, text: string)
    ensures HandleInsert(prev, text, None).buffer == Splice(prev, |prev|, |prev|, text)
    ensures HandleInsert(prev, text, None).caret.None?
  {
    assert prev[|prev|..] == [];
  }

  /** A text that includes `**` includes `*`: the first test of the four adds nothing. */
  lemma WrappingByMarkers(text: string)
    ensures IsWrapping(text) <==> Includes(text, "*") || Includes(text, "~~") || Includes(text, "[")
  {
    if Includes(text, "**") {
      IncludesAt(text, "**");
      var i :| OccursAt(text, "**", i);
      assert OccursAt(text, "*", i) by {
        assert text[i..i + 1] == text[i..i + 2][..1];
      }
      IncludesAt(text, "*");
    }
  }

  /** The marker width is at most the text's length whenever the text is wrapping. */
  lemma WrapLengthFits(text: string)
    requires IsWrapping(text)
    ensures 1 <= WrapLength(text) <= |text|
    ensures WrapLength(text) == 2 <==> StartsWith(text, "**") || StartsWith(text, "~~")
  {
    if !StartsWith(text, "**") && !StartsWith(text, "~~") {
      if Includes(text, "**") {
        IncludesLength(text, "**");
      } else if Includes(text, "*") {
        IncludesLength(text, "*");
      } else if Includes(text, "~~") {
        IncludesLength(text, "~~");
      } else {
        IncludesLength(text, "[");
      }
    }
  }

  /** Whatever the branch, the caret lies between the start of the inserted text and its end. */
  lemma CaretInInsertion(start: int, end: int, text: string)
    ensures start <= CaretAfter(start, end, text) <= start + |text|
  {
    if start != end && IsWrapping(text) {
      WrapLengthFits(text);
    }
  }

  /** The caret lands after the whole inserted text exactly when there was no selection or the text is not wrapping. */
  lemma CaretAtEndIff(start: int, end: int, text: string)
    ensures CaretAfter(start, end, text) == start + |text| <==> start == end || !IsWrapping(text)
  {
    if start != end && IsWrapping(text) {
      WrapLengthFits(text);
    }
  }

  /** With a selection and a wrapping text, the caret stops one marker width before the end of the insertion. */
  lemma CaretBeforeClosingMarker(start: int, end: int, text: string)
    requires start != end && IsWrapping(text)
    ensures CaretAfter(start, end, text) == start + |text| - WrapLength(text)
    ensures CaretAfter(start, end, text) == start + |text| - 2 <==> StartsWith(text, "**") || StartsWith(text, "~~")
    ensures CaretAfter(start, end, text) == start + |text| - 1 <==> !(StartsWith(text, "**") || StartsWith(text, "~~"))
  {
    WrapLengthFits(text);
  }

  /** The insertion from a textarea keeps the prefix and the suffix and puts the caret inside the inserted text. */
  lemma HandleInsertInRange(prev: string, text: string, sel: Selection)
    requires 0 <= sel.start <= sel.end <= |prev|
    ensures var r := HandleInsert(prev, text, Some(sel));
      && r.buffer[..sel.start] == prev[..sel.start]
      && r.buffer[sel.start + |text|..] == prev[sel.end..]
      && r.caret.Some? && sel.start <= r.caret.value <= sel.start + |text| <= |r.buffer|
  {
    SpliceInRange(prev, sel.start, sel.end, text);
    CaretInInsertion(sel.start, sel.end, text);
  }

  /** `**bold**` typed into an empty buffer leaves the caret after the eight characters. */
  lemma BoldIntoEmpty(text: string)
    requires text == "**bold**"
    ensures HandleInsert("", text, Some(Selection(0, 0))) == InsertResult(text, Some(8))
  {
  }

  /** `**bold**` typed with the caret at the start of the sample heading document goes in front, with the caret after it. */
  lemma BoldIntoTitleDocument(prev: string, text: string)
    requires prev == "# Title\n\ntext\n## Sub\n" && text == "**bold**"
    ensures HandleInsert(prev, text, Some(Selection(0, 0))) == InsertResult(text + prev, Some(8))
  {
    SpliceInRange(prev, 0, 0, text);
  }
}
