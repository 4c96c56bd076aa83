/**
 * The toolbar: the text each button hands to `handleInsert`, the wrapping
 * helper `handleSmartInsert`, and the strings the image-URL and paste actions
 * put together. The answers of `prompt` and the clipboard are inputs.
 */
module Toolbar {
  import opened JsString
  import opened Insert

  /** What `handleSmartInsert` reads of the textarea: its value and its selection. */
  datatype TextareaView = TextareaView(value: string, start: int, end: int)

  /** `value.substring(selectionStart, selectionEnd)`. */
  function SelectedText(ta: TextareaView): string {
    Substring(ta.value, ta.start, ta.end)
  }

  /**
   * `handleSmartInsert(type, prefix, suffix, defaultText)`: the selection wrapped in
   * the markers when there is a non-empty one, the placeholder otherwise.
   */
  function SmartInsertText(prefix: string, suffix: string, defaultText: string, textarea: Option<TextareaView>): string {
    match textarea
    case None => prefix + defaultText + suffix
    case Some(ta) =>
      var selectedText := SelectedText(ta);
      if selectedText != [] then prefix + selectedText + suffix
      else prefix + defaultText + suffix
  }

  /** The insertion buttons, in toolbar order. */
  datatype Button =
    | H1 | H2 | H3 | Bold | Italic | Strike | Link | CodeBlock | Quote
    | BulletList | OrderedList | TaskList | Table | Rule | Formula | Mermaid | Toc

  /** The four buttons that go through `handleSmartInsert`. */
  predicate IsWrapButton(b: Button) {
    b.Bold? || b.Italic? || b.Strike? || b.Link?
  }

  /** The text a button hands to `handleInsert`. */
  function ButtonText(b: Button, textarea: Option<TextareaView>): string {
    match b
    case H1 => "# "
    case H2 => "## "
    case H3 => "### "
    case Bold => SmartInsertText("**", "**", "粗体文字", textarea)
    case Italic => SmartInsertText("*", "*", "斜体文字", textarea)
    case Strike => SmartInsertText("~~", "~~", "删除文字", textarea)
    case Link => SmartInsertText("[", "](https://example.com)", "链接文字", textarea)
    case CodeBlock => "```javascript\n// 代码\n```\n"
    case Quote => "> "
    case BulletList => "- "
    case OrderedList => "1. "
    case TaskList => "- [ ] "
    case Table => "| 列1 | 列2 |\n|------|------|\n| 内容 | 内容 |\n"
    case Rule => "\n---\n"
    case Formula => "$$\n\\frac{1}{2}\n$$\n"
    case Mermaid => "```mermaid\ngraph TD\n  A[开始] --> B[结束]\n```\n"
    case Toc => "[TOC]\n\n"
  }

  /** A non-empty selection is wrapped verbatim: cutting the markers off gives the selection back. */
  lemma SelectionWrapped(prefix: string, suffix: string, defaultText: string, ta: TextareaView)
    requires SelectedText(ta) != []
    ensures var t := SmartInsertText(prefix, suffix, defaultText, Some(ta));
      && t == prefix + SelectedText(ta) + suffix
      && t[|prefix|..|t| - |suffix|] == SelectedText(ta)
  {
    var t := SmartInsertText(prefix, suffix, defaultText, Some(ta));
    assert t[|prefix|..|t| - |suffix|] == SelectedText(ta);
  }

  /** Without a textarea, or with an empty selection, the placeholder is wrapped instead. */
  lemma PlaceholderUsed(prefix: string, suffix: string, defaultText: string, textarea: Option<TextareaView>)
    requires textarea.None? || SelectedText(textarea.value) == []
    ensures SmartInsertText(prefix, suffix, defaultText, textarea) == prefix + defaultText + suffix
  {
  }

  /**
   * The selected text follows `substring`: within range it is the slice, it is
   * empty exactly when the clamped indices meet, and reversed indices select the same text.
   */
  lemma SelectedTextIsSlice(ta: TextareaView)
    ensures 0 <= ta.start <= ta.end <= |ta.value| ==> SelectedText(ta) == ta.value[ta.start..ta.end]
    ensures SelectedText(ta) == [] <==> Clamp(ta.start, |ta.value|) == Clamp(ta.end, |ta.value|)
    ensures SelectedText(ta) == SelectedText(TextareaView(ta.value, ta.end, ta.start))
  {
    SubstringIsSlice(ta.value, ta.start, ta.end);
  }

  /** A button other than the four wrapping ones inserts the same text whatever the selection. */
  lemma FixedButtonIgnoresSelection(b: Button, t1: Option<TextareaView>, t2: Option<TextareaView>)
    requires !IsWrapButton(b)
    ensures ButtonText(b, t1) == ButtonText(b, t2)
  {
  }

  /** Each of the four wrapping buttons does depend on the selection. */
  lemma WrapButtonUsesSelection(b: Button)
    requires IsWrapButton(b)
    ensures ButtonText(b, None) != ButtonText(b, Some(TextareaView("x", 0, 1)))
  {
    var ta := TextareaView("x", 0, 1);
    assert SelectedText(ta) == "x";
    assert |ButtonText(b, None)| != |ButtonText(b, Some(ta))|;
  }

  /** `handleImageUrl`: nothing for a cancelled or empty URL; a cancelled description prints as `null`. */
  function ImageUrlText(url: Option<string>, alt: Option<string>): Option<string> {
    if url.None? || url.value == [] then None
    else
      var altText := if alt.None? then "null" else alt.value;
      Some("![" + altText + "](" + url.value + ")\n")
  }

  /** The image line is inserted exactly for a non-empty URL, and it holds the description and the URL in their places. */
  lemma ImageUrlShape(url: Option<string>, alt: Option<string>)
    ensures ImageUrlText(url, alt).Some? <==> url.Some? && url.value != []
    ensures ImageUrlText(url, alt).Some? ==>
      var t := ImageUrlText(url, alt).value;
      var a := if alt.None? then "null" else alt.value;
      && |t| == |a| + |url.value| + 6
      && t[..2] == "![" && t[2..2 + |a|] == a
      && t[2 + |a|..4 + |a|] == "]("
      && t[4 + |a|..4 + |a| + |url.value|] == url.value
      && t[4 + |a| + |url.value|..] == ")\n"
  {
    if url.Some? && url.value != [] {
      var t := ImageUrlText(url, alt).value;
      var a := if alt.None? then "null" else alt.value;
      var u := url.value;
      assert t == "![" + a + "](" + u + ")\n";
      assert t[..2] == "![";
      assert t[2..2 + |a|] == a;
      assert t[2 + |a|..4 + |a|] == "](";
      assert t[4 + |a|..4 + |a| + |u|] == u;
      assert t[4 + |a| + |u|..] == ")\n";
    }
  }

  /** `handlePaste`: the clipboard text is inserted when it could be read and is not empty. */
  function PasteText(clipboard: Option<string>): Option<string> {
    if clipboard.Some? && clipboard.value != [] then Some(clipboard.value) else None
  }

  lemma PasteInsertsClipboard(clipboard: Option<string>)
    ensures PasteText(clipboard).Some? <==> clipboard.Some? && clipboard.value != []
    ensures PasteText(clipboard).Some? ==> PasteText(clipboard).value == clipboard.value
  {
  }
  /** A button pressed while the textarea shows `prev` with the selection `[start, end)`: its text goes through `handleInsert`. */
  function Press(b: Button, prev: string, start: int, end: int): InsertResult {
    HandleInsert(prev, ButtonText(b, Some(TextareaView(prev, start, end))), Some(Selection(start, end)))
  }

  /** A string none of whose characters is the first one of `t` does not include `t`. */
  lemma {:induction false} FirstCharAbsent(s: string, t: string)
    requires |t| >= 1 && t[0] !in s
    ensures !Includes(s, t)
    decreases |s|
  {
    if s != [] {
      assert s[0] != t[0];
      assert t[0] !in s[1..];
      FirstCharAbsent(s[1..], t);
    }
  }

  /** The insertion of a wrapping text over a selection, once the marker width is known. */
  lemma WrappedInsert(prev: string, start: int, end: int, text: string, w: nat)
    requires 0 <= start < end <= |prev|
    requires IsWrapping(text) && WrapLength(text) == w
    ensures HandleInsert(prev, text, Some(Selection(start, end))) == InsertResult(prev[..start] + text + prev[end..], Some(start + |text| - w))
  {
    SpliceInRange(prev, start, end, text);
  }

  /**
   * Bold and strike around a selection S: the buffer holds S between the two
   * markers, and the caret is left right after S.
   */
  lemma BoldStrikeWrapSelection(b: Button, prev: string, start: int, end: int)
    requires b.Bold? || b.Strike?
    requires 0 <= start < end <= |prev|
    ensures var m := if b.Bold? then "**" else "~~";
      var sel := prev[start..end];
      var r := Press(b, prev, start, end);
      && r.buffer == prev[..start] + m + sel + m + prev[end..]
      && r.caret == Some(start + 2 + |sel|)
      && r.buffer[start + 2..start + 2 + |sel|] == sel
  {
    var m := if b.Bold? then "**" else "~~";
    var sel := prev[start..end];
    var ta := TextareaView(prev, start, end);
    SubstringIsSlice(prev, start, end);
    assert SelectedText(ta) == sel;
    var text := m + sel + m;
    assert ButtonText(b, Some(ta)) == text;
    assert text[..2] == m;
    assert IsWrapping(text) && WrapLength(text) == 2 by {
      if b.Strike? {
        assert text[0] == '~';
      }
    }
    WrappedInsert(prev, start, end, text, 2);
    assert prev[..start] + text + prev[end..] == prev[..start] + m + sel + m + prev[end..];
    assert (prev[..start] + m + sel + m + prev[end..])[start + 2..start + 2 + |sel|] == sel;
  }

  /**
   * Italic around a selection S: the caret is left right after S, except when S
   * itself starts with `*`, when the text starts with `**` and the caret stops one
   * character before the end of S.
   */
  lemma ItalicWrapSelection(prev: string, start: int, end: int)
    requires 0 <= start < end <= |prev|
    ensures var sel := prev[start..end];
      var r := Press(Italic, prev, start, end);
      && r.buffer == prev[..start] + "*" + sel + "*" + prev[end..]
      && r.caret == Some(if sel[0] == '*' then start + |sel| else start + 1 + |sel|)
  {
    var sel := prev[start..end];
    var ta := TextareaView(prev, start, end);
    SubstringIsSlice(prev, start, end);
    assert SelectedText(ta) == sel;
    var text := ButtonText(Italic, Some(ta));
    assert text == "*" + sel + "*";
    assert StartsWith(text, "*");
    assert IsWrapping(text);
    assert text[1] == sel[0];
    assert WrapLength(text) == (if sel[0] == '*' then 2 else 1) by {
      assert text[0] == '*';
      assert sel[0] == '*' <==> text[..2] == "**";
    }
    SpliceInRange(prev, start, end, text);
  }

  /**
   * A link around a selection S: S sits after `[`, and the caret is left just
   * before the final `)` of the inserted text rather than after S.
   */
  lemma LinkWrapSelection(prev: string, start: int, end: int)
    requires 0 <= start < end <= |prev|
    ensures var sel := prev[start..end];
      var text := "[" + sel + "](https://example.com)";
      var r := Press(Link, prev, start, end);
      && r.buffer == prev[..start] + text + prev[end..]
      && r.caret == Some(start + |text| - 1)
      && r.buffer[start + |text| - 1] == ')'
      && r.caret != Some(start + 1 + |sel|)
  {
    var sel := prev[start..end];
    var ta := TextareaView(prev, start, end);
    SubstringIsSlice(prev, start, end);
    assert SelectedText(ta) == sel;
    var text := ButtonText(Link, Some(ta));
    assert text == "[" + sel + "](https://example.com)";
    assert StartsWith(text, "[");
    assert IsWrapping(text);
    assert WrapLength(text) == 1 by {
      assert text[0] == '[';
    }
    SpliceInRange(prev, start, end, text);
    assert text[|text| - 1] == ')';
    var r := Press(Link, prev, start, end);
    assert r.buffer[start + |text| - 1] == r.buffer[start..start + |text|][|text| - 1];
  }

  /** With no selection, every button leaves the caret right after what it inserted, and the placeholder is used. */
  lemma NoSelectionCaretAtEnd(b: Button, prev: string, start: int)
    requires 0 <= start <= |prev|
    ensures var text := ButtonText(b, None);
      var r := Press(b, prev, start, start);
      && r.buffer == prev[..start] + text + prev[start..]
      && r.caret == Some(start + |text|)
  {
    var ta := TextareaView(prev, start, start);
    SubstringIsSlice(prev, start, start);
    EmptySelectionUsesPlaceholder(b, ta);
    SpliceInRange(prev, start, start, ButtonText(b, None));
  }

  /** With an empty selection every button inserts what it inserts without a textarea. */
  lemma EmptySelectionUsesPlaceholder(b: Button, ta: TextareaView)
    requires SelectedText(ta) == []
    ensures ButtonText(b, Some(ta)) == ButtonText(b, None)
  {
  }

  /** The heading, quote and list prefixes hold no marker: with a selection, the caret still goes after the prefix. */
  lemma PrefixButtonReplacesSelection(b: Button, prev: string, start: int, end: int)
    requires b.H1? || b.H2? || b.H3? || b.Quote? || b.BulletList? || b.OrderedList?
    requires 0 <= start < end <= |prev|
    ensures var text := ButtonText(b, None);
      var r := Press(b, prev, start, end);
      && r.buffer == prev[..start] + text + prev[end..]
      && r.caret == Some(start + |text|)
  {
    var text := ButtonText(b, None);
    assert ButtonText(b, Some(TextareaView(prev, start, end))) == text;
    assert '*' !in text && '~' !in text && '[' !in text;
    FirstCharAbsent(text, "**");
    FirstCharAbsent(text, "*");
    FirstCharAbsent(text, "~~");
    FirstCharAbsent(text, "[");
    SpliceInRange(prev, start, end, text);
  }

  /** The code-block, table, rule and formula texts contain none of `**`, `*`, `~~` and `[`. */
  lemma NotWrapping(b: Button)
    requires b.CodeBlock? || b.Table? || b.Rule? || b.Formula?
    ensures !IsWrapping(ButtonText(b, None))
  {
    var text := ButtonText(b, None);
    forall i | 0 <= i < |text|
      ensures text[i] != '*' && text[i] != '~' && text[i] != '['
    {
    }
    FirstCharAbsent(text, "**");
    FirstCharAbsent(text, "*");
    FirstCharAbsent(text, "~~");
    FirstCharAbsent(text, "[");
  }

  /** The block texts are not wrapping: with a selection they replace it and the caret goes after them. */
  lemma BlockButtonCaret(b: Button, prev: string, start: int, end: int)
    requires b.CodeBlock? || b.Table? || b.Rule? || b.Formula?
    requires 0 <= start < end <= |prev|
    ensures var text := ButtonText(b, None);
      Press(b, prev, start, end) == InsertResult(prev[..start] + text + prev[end..], Some(start + |text|))
  {
    var text := ButtonText(b, None);
    assert ButtonText(b, Some(TextareaView(prev, start, end))) == text;
    NotWrapping(b);
    SpliceInRange(prev, start, end, text);
  }

  /**
   * The task-list, Mermaid and table-of-contents texts contain `[`, so with a selection the
   * caret rule treats them as wrapping and leaves the caret one character before
   * the end of the inserted text.
   */
  lemma BracketButtonCaret(b: Button, prev: string, start: int, end: int)
    requires b.TaskList? || b.Mermaid? || b.Toc?
    requires 0 <= start < end <= |prev|
    ensures var text := ButtonText(b, None);
      var r := Press(b, prev, start, end);
      && r.buffer == prev[..start] + text + prev[end..]
      && r.caret == Some(start + |text| - 1)
  {
    var text := ButtonText(b, None);
    assert ButtonText(b, Some(TextareaView(prev, start, end))) == text;
    BracketText(text, if b.TaskList? then 2 else if b.Mermaid? then 23 else 0);
    WrappedInsert(prev, start, end, text, 1);
  }

  /** A text with a `[` that starts with neither `**` nor `~~` is wrapping with marker width one. */
  lemma BracketText(text: string, i: int)
    requires 0 <= i < |text| && text[i] == '[' && text[0] != '*' && text[0] != '~'
    ensures IsWrapping(text) && WrapLength(text) == 1
  {
    assert OccursAt(text, "[", i);
    IncludesAt(text, "[");
  }
}
