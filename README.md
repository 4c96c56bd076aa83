# Markdown editor core in Dafny

A model of the editing logic of a browser Markdown editor. It has a textarea on the left and a rendered preview on the right. The model covers four pieces of that logic:

- **Text insertion** (`insert.dfy`, `toolbar.dfy`, `editor.dfy`).
  - `handleInsert` replaces the textarea's selection with a text, using JavaScript `substring` clamping. It then collapses the caret by a small rule that depends on whether there was a selection and on the markers in the text.
  - The toolbar builds the text for each button. The four wrapping buttons (bold, italic, strike, link) wrap a non-empty selection or a placeholder.
  - The image-URL and paste actions put their strings together.
  - Tab in the editor replaces the selection with two spaces.
- **The outline** (`preview.dfy`, `slug.dfy`).
  - `extractHeadings` splits the buffer on `\n` and matches each line against `/^(#{1,6})\s+(.+)$/`.
  - It records level, trimmed text and an id. The id is made by lower-casing, deleting what `[^\w\s一-龥-]` matches, and turning whitespace runs into `-`.
  - The `[TOC]` marker is detected and removed from the content.
  - The table of contents is shown only when there is a marker and a heading.
  - The h1–h6 renderers give headings the same ids.
- **Scroll synchronisation** (`scroll_sync.dfy`). Two "is scrolling" flags and one shared reset-timer slot stop the preview's echo of a synchronised scroll from scrolling the editor back, and the other way round.
- **Load, autosave and clear** (`autosave.dfy`).
  - The document is loaded from a storage slot, with a fallback to the sample document.
  - Every change of the buffer or of the loaded flag cancels the pending save and schedules a new one (debouncing).
  - Unmounting cancels the pending save.
  - Clearing empties buffer and slot once confirmed.

`jsstring.dfy` states the JavaScript string built-ins these rely on over `seq<char>`: `substring`, `startsWith`, `includes`, `trim`, `split('\n')`, and the `\s` class.

Timers, the DOM and storage are inputs and outputs:

- A timer firing is an event: `ResetFires`, `SaveFires`.
- The answers of `prompt`, `confirm` and the clipboard are parameters.
- The pane extents are `Option<Extent>` values, `None` when the element is not mounted.
- The storage slot is an `Option<string>` field of the session state.
- The sample document is the `sample` parameter.

The scroll protocol and the autosave session are written twice: as a function `Step` over a state datatype, which the lemmas are about, and as a class whose methods update fields in place and are proved to compute `Step`. `ExtractHeadings` keeps the source's loop and is proved equal to the recursive `Outline`.

Where the code does something other than what its comments or the obvious intent suggest, the model follows the code. The cases are:

- **Load schedules a save.** The load itself schedules a save of the loaded text. The comment at `src/App.jsx:175` says the first load is not saved, but the autosave effect also depends on `isLoaded` (`src/App.jsx:190`), so it re-runs once the load has set the flag.
- **One timer slot.** The two scroll handlers share one reset-timer slot rather than keeping a timer per pane. The invariant shows that at most one timer is pending and that it always belongs to the pane whose flag is set.
- **No zero-extent guard.** The scroll fraction is divided out with no guard for an extent of zero. Here it is a parameter.
- **The caret is collapsed.** After a wrap the caret is collapsed, not left as a selection.
  - For a link it lands just before the final `)`, not after the selection.
  - Texts that are not wraps but contain `[` (the task list, the Mermaid block, `[TOC]`) are treated as wrapping when there is a selection. For them the caret stops one character before the end.
- **Empty heading text.** After trimming, a heading text can be empty (`"#  "`).

## Model

| member | source | states |
|---|---|---|
| JsString.Clamp | src/App.jsx:249-250 | A `substring` index is clamped into [0, n] and is unchanged when already in range |
| JsString.Substring | src/components/Toolbar.jsx:76 | `str.substring(a, b)`: both indices clamped into [0, \|str\|] and swapped when reversed; its meaning as a slice is `SubstringIsSlice` |
| JsString.SubstringFrom | src/App.jsx:250 | `prev.substring(end)`: the suffix from the clamped index; `SpliceAnyIndices` states the buffer it builds |
| JsString.StartsWith | src/App.jsx:268-270 | `text.startsWith(t)`; `WrapLengthFits` states the marker width it selects |
| JsString.SubstringIsSlice | src/components/Toolbar.jsx:76 | `substring` is the slice within range, is symmetric in its indices, and is empty exactly when the clamped indices meet |
| JsString.Includes | src/App.jsx:262-263 | `str.includes(t)`; `IncludesAt` proves it is an occurrence of `t` at some position |
| JsString.IncludesAt | src/components/Preview.jsx:116 | `includes` holds exactly when the needle occurs at some position |
| JsString.IncludesLength | src/App.jsx:262-263 | Only a string at least as long as the needle includes it |
| JsString.IsSpace | src/components/Preview.jsx:24-27 | The `\s` class of JavaScript, shared by `trim` and the heading expression; `LineTerminatorIsSpace` and `TrimAllSpace` state what it includes |
| JsString.LineTerminatorIsSpace | src/components/Preview.jsx:24 | Every line terminator is also `\s` |
| JsString.TrimStartSpec | src/components/Preview.jsx:27 | `trimStart` removes a whitespace prefix, all of it |
| JsString.TrimEndSpec | src/components/Preview.jsx:27 | `trimEnd` removes a whitespace suffix, all of it |
| JsString.Trim | src/components/Preview.jsx:27 | `str.trim()`, leading then trailing `\s` removed; its meaning is `TrimSlice` and `TrimEnds` |
| JsString.TrimSlice | src/components/Preview.jsx:27 | `trim` is a slice of its input with only whitespace around it |
| JsString.TrimEnds | src/components/Preview.jsx:27 | What `trim` returns is empty or neither starts nor ends with whitespace |
| JsString.TrimFixes | src/components/Preview.jsx:27 | A text without whitespace at its ends is its own trim |
| JsString.TrimAllSpace | src/components/Preview.jsx:27 | A text of whitespace only trims to the empty text |
| JsString.SplitLines | src/components/Preview.jsx:21 | `split('\n')` gives at least one piece |
| JsString.SplitLinesNoNewline | src/components/Preview.jsx:21 | No piece of `split('\n')` contains a newline |
| JsString.JoinSplitLines | src/components/Preview.jsx:21 | Joining the pieces with `\n` gives the text back |
| JsString.SplitLinesSingle | src/components/Preview.jsx:21 | A text without newline splits into itself |
| JsString.SplitLinesCons | src/components/Preview.jsx:21 | A newline-free prefix ended by a newline becomes the first piece |
| JsString.SplitJoinLines | src/components/Preview.jsx:21 | Splitting newline-free pieces joined by `\n` gives the pieces back |
| Insert.Splice | src/App.jsx:247-252 | `prev.substring(0, start) + text + prev.substring(end)`; `SpliceAnyIndices`, `SpliceInRange` and `SpliceUndo` state what it keeps |
| Insert.IsWrapping | src/App.jsx:262-263 | The four-way `includes` test; `WrappingByMarkers` reduces it to `*`, `~~` or `[` |
| Insert.WrapLength | src/App.jsx:268-270 | The marker width, 2 after a leading `**` or `~~` and 1 otherwise; bounded by `WrapLengthFits` |
| Insert.CaretAfter | src/App.jsx:259-283 | The caret set in the deferred callback, `start + wrapLength + contentLength` or `start + text.length`; placed by `CaretInInsertion`, `CaretAtEndIff` and `CaretBeforeClosingMarker` |
| Insert.SpliceAnyIndices | src/App.jsx:247-252 | For any indices, the new buffer is the clamped prefix, the text and the clamped suffix, and its length follows |
| Insert.SpliceInRange | src/App.jsx:247-252 | When 0 ≤ start ≤ end ≤ \|prev\|, the new length is \|prev\| − (end − start) + \|text\|, and prefix and suffix are kept around the text |
| Insert.SpliceUndo | src/App.jsx:247-252 | Splicing the removed selection back over the inserted text restores the buffer |
| Insert.NoTextareaAppends | src/App.jsx:236-240 | Without a textarea the text is appended at the end, and no caret is set |
| Insert.WrappingByMarkers | src/App.jsx:262-263 | The wrapping test holds exactly when the text contains `*`, `~~` or `[` |
| Insert.WrapLengthFits | src/App.jsx:268-270 | For a wrapping text the marker width lies in 1..\|text\|, and is 2 exactly for a leading `**` or `~~` |
| Insert.CaretInInsertion | src/App.jsx:259-283 | In every branch the caret lies in [start, start + \|text\|] |
| Insert.CaretAtEndIff | src/App.jsx:259-283 | The caret is start + \|text\| exactly when there was no selection or the text is not wrapping |
| Insert.CaretBeforeClosingMarker | src/App.jsx:265-273 | With a selection and a wrapping text the caret is start + \|text\| − w, two back for `**`/`~~`, one back otherwise |
| Insert.HandleInsertInRange | src/App.jsx:235-287 | With a textarea and in-range indices, prefix and suffix are kept and the caret is set inside the inserted text |
| Insert.HandleInsert | src/App.jsx:235-287 | Without a textarea no caret is set; with one the caret is set |
| Insert.BoldIntoEmpty | src/App.jsx:279-283 | `**bold**` typed into an empty buffer with no selection leaves the caret after the eight characters |
| Insert.BoldIntoTitleDocument | src/App.jsx:247-283 | `**bold**` inserted at offset 0 of `# Title\n\ntext\n## Sub\n` with no selection goes in front, and the caret lands at 8 |
| Toolbar.SmartInsertText | src/components/Toolbar.jsx:67-85 | `handleSmartInsert`: the selection between prefix and suffix when non-empty, else the placeholder; `SelectionWrapped` and `PlaceholderUsed` state both cases |
| Toolbar.ButtonText | src/components/Toolbar.jsx:87-104 | The text each of the seventeen buttons hands to `onInsert`; `FixedButtonIgnoresSelection` and `WrapButtonUsesSelection` say which depend on the selection |
| Toolbar.ImageUrlText | src/components/Toolbar.jsx:35-41 | `handleImageUrl`'s inserted line; its layout is `ImageUrlShape` |
| Toolbar.PasteText | src/components/Toolbar.jsx:55-64 | `handlePaste`'s inserted text; `PasteInsertsClipboard` says when and what |
| Toolbar.Press | src/components/Toolbar.jsx:87-104 | A button's text sent through `handleInsert` with the textarea's selection; with a selection, the `...WrapSelection`, `PrefixButtonReplacesSelection`, `BlockButtonCaret` and `BracketButtonCaret` lemmas give its buffer and caret for all seventeen buttons, and without one `NoSelectionCaretAtEnd` does |
| Toolbar.SelectionWrapped | src/components/Toolbar.jsx:76-80 | A non-empty selection is wrapped verbatim between prefix and suffix |
| Toolbar.PlaceholderUsed | src/components/Toolbar.jsx:67-70 | Without a textarea, or with an empty selection, the placeholder is wrapped |
| Toolbar.SelectedText | src/components/Toolbar.jsx:76 | `textarea.value.substring(start, end)`; stated by `SelectedTextIsSlice` |
| Toolbar.SelectedTextIsSlice | src/components/Toolbar.jsx:73-76 | The selected text follows `substring`: the slice in range, symmetric in the indices, empty exactly when the clamped indices meet |
| Toolbar.FixedButtonIgnoresSelection | src/components/Toolbar.jsx:87-104 | Every button other than bold, italic, strike and link inserts the same text whatever the selection |
| Toolbar.WrapButtonUsesSelection | src/components/Toolbar.jsx:91-94 | Each of the four wrapping buttons depends on the selection |
| Toolbar.EmptySelectionUsesPlaceholder | src/components/Toolbar.jsx:82-83 | With an empty selection every button inserts its text for no textarea |
| Toolbar.ImageUrlShape | src/components/Toolbar.jsx:35-41 | An image line is inserted exactly for a non-empty URL, as `![alt](url)` and a newline, with `null` for a cancelled description |
| Toolbar.PasteInsertsClipboard | src/components/Toolbar.jsx:55-64 | The clipboard text is inserted exactly when it was read and is non-empty |
| Toolbar.WrappedInsert | src/App.jsx:262-273 | A wrapping text over a selection splices and leaves the caret one marker width before the end |
| Toolbar.BoldStrikeWrapSelection | src/components/Toolbar.jsx:91-93 | Bold or strike around selection S gives prefix, marker, S, marker, suffix, and the caret right after S |
| Toolbar.ItalicWrapSelection | src/components/Toolbar.jsx:92 | Italic around S puts the caret right after S, or one before the end of S when S starts with `*` |
| Toolbar.LinkWrapSelection | src/components/Toolbar.jsx:94 | A link around S puts the caret just before the final `)`, not after S |
| Toolbar.NoSelectionCaretAtEnd | src/components/Toolbar.jsx:82-104 | With no selection every button inserts its placeholder text and the caret goes after it |
| Toolbar.PrefixButtonReplacesSelection | src/components/Toolbar.jsx:88-98 | Heading, quote and list prefixes replace a selection and leave the caret after the prefix |
| Toolbar.NotWrapping | src/App.jsx:262-263 | The code-block, table, rule and formula texts fail the wrapping test |
| Toolbar.BlockButtonCaret | src/components/Toolbar.jsx:95-102 | The code-block, table, rule and formula texts replace a selection and leave the caret right after what they inserted |
| Toolbar.BracketButtonCaret | src/components/Toolbar.jsx:99-104 | The task-list, Mermaid and `[TOC]` texts over a selection leave the caret one before the end of the insertion |
| Toolbar.BracketText | src/App.jsx:262-270 | A text containing `[` that starts with neither `*` nor `~` is wrapping, with marker width one |
| Toolbar.FirstCharAbsent | src/App.jsx:262-263 | A text that lacks the needle's first character does not include the needle |
| Editor.KeyDown | src/components/Editor.jsx:3-19 | Only Tab is handled; every other key passes through |
| Editor.TabIndents | src/components/Editor.jsx:7-15 | Tab gives prefix, two spaces and suffix, with length \|value\| − (end − start) + 2, and the caret at start + 2 |
| Editor.TabIsInsert | src/components/Editor.jsx:9-15 | Tab computes what `handleInsert` of two spaces computes, buffer and caret |
| Editor.TabUndo | src/components/Editor.jsx:9 | Replacing the two spaces by the old selection restores the value |
| SlugGenerator.Slug | src/components/Preview.jsx:29-32 | The id expression, lower-case, strip, collapse; `SlugChars` and `SlugIdempotent` state what an id is |
| SlugGenerator.StripDisallowed | src/components/Preview.jsx:31 | `replace(/[^\w\s一-龥-]/g, '')`: never longer than its input; `StripKept`, `StripKeepsKept` and `StripFrom` say which characters survive |
| SlugGenerator.CollapseSpaces | src/components/Preview.jsx:32 | `replace(/\s+/g, '-')`; `CollapseNoSpace`, `CollapseFrom` and `CollapseRun` state its effect |
| SlugGenerator.LowerChar | src/components/Preview.jsx:30 | Lower-casing leaves no upper-case ASCII letter and changes nothing else |
| SlugGenerator.ToLower | src/components/Preview.jsx:30 | `toLowerCase` (ASCII) keeps the length, leaves no upper-case letter, moves each upper-case letter to its lower-case partner and keeps every other character |
| SlugGenerator.IsKept | src/components/Preview.jsx:31 | The class `[\w\s一-龥-]`; `StripKept` and `StripKeepsKept` state that exactly its characters survive |
| SlugGenerator.StripKept | src/components/Preview.jsx:31 | Only characters of `[\w\s一-龥-]` survive the removal |
| SlugGenerator.StripKeepsKept | src/components/Preview.jsx:31 | Those characters are all kept |
| SlugGenerator.StripFrom | src/components/Preview.jsx:31 | The removal only removes characters |
| SlugGenerator.StripAppend | src/components/Preview.jsx:31 | The removal works character by character over concatenation |
| SlugGenerator.StripDropsOne | src/components/Preview.jsx:31 | A character outside the class is removed |
| SlugGenerator.CollapseNoSpace | src/components/Preview.jsx:32 | No whitespace is left after `replace(/\s+/g, '-')` |
| SlugGenerator.CollapseFrom | src/components/Preview.jsx:32 | That replacement only adds `-` |
| SlugGenerator.CollapseRun | src/components/Preview.jsx:32 | A whitespace run becomes exactly one `-` |
| SlugGenerator.CollapseAfterWord | src/components/Preview.jsx:32 | The text before the first whitespace run is kept and the run becomes one `-` |
| SlugGenerator.SlugChars | src/components/Preview.jsx:29-32 | An id has no whitespace and only lower-case ASCII letters, digits, `_`, U+4E00–U+9FA5 and `-` |
| SlugGenerator.ToLowerFixes | src/components/Preview.jsx:30 | Lower-casing fixes id characters |
| SlugGenerator.ToLowerNoUpper | src/components/Preview.jsx:30 | Lower-casing fixes a text without upper-case ASCII |
| SlugGenerator.StripFixes | src/components/Preview.jsx:31 | The removal fixes id characters |
| SlugGenerator.CollapseFixes | src/components/Preview.jsx:32 | The replacement fixes a text without whitespace |
| SlugGenerator.SlugFixesSlugs | src/components/Preview.jsx:29-32 | A text of id characters is its own id |
| SlugGenerator.SlugIdempotent | src/components/Preview.jsx:29-32 | Taking the id of an id changes nothing |
| SlugGenerator.SlugLowerWord | src/components/Preview.jsx:29-32 | The id of an ASCII word is its lower-case form |
| SlugGenerator.SlugDropsPunctuation | src/components/Preview.jsx:29-32 | Punctuation after two id words is dropped and the space between them becomes `-` |
| Preview.MatchHeading | src/components/Preview.jsx:24 | `line.match(/^(#{1,6})\s+(.+)$/)`: group 1's length and group 2; `MatchIsParse` and `ParseIsMatch` prove it equal to the expression's language |
| Preview.HeadingOf | src/components/Preview.jsx:24-33 | The entry pushed for a matching line, level, trimmed text and id; `HeadingWellFormed` and `HeadingLevel` state its shape |
| Preview.Outline | src/components/Preview.jsx:19-38 | The entries of the heading lines in order; `OutlineCount` and `OutlineAt` state count and order |
| Preview.HasToc | src/components/Preview.jsx:116 | `content.includes('[TOC]')` |
| Preview.StripMarkers | src/components/Preview.jsx:118 | `replace(/\[TOC\]/g, '')` as one left-to-right pass; `StripMarkersLength` and `StripMarkersUnchanged` state its effect |
| Preview.LinkOf | src/components/Preview.jsx:49-56 | One TOC anchor, `href` `#id`, padding level − 1 em, the entry's text; stated by `TocShown` and `TocHrefMatchesAnchor` |
| Preview.TableOfContents | src/components/Preview.jsx:41-61 | Nothing for no headings, otherwise one link per entry; stated by `TocShown` |
| Preview.TocBlock | src/components/Preview.jsx:124 | `hasTOC && <TableOfContents …/>`; stated by `TocShown` |
| Preview.HeadingAnchorId | src/components/Preview.jsx:131-178 | The id the h1–h6 renderers give `String(children)`; `TocHrefMatchesAnchor` ties it to the outline |
| Preview.LeadingHashesSpec | src/components/Preview.jsx:24 | The count of leading `#` covers the whole run |
| Preview.LeadingSpacesSpec | src/components/Preview.jsx:24 | The count of leading whitespace covers the whole run |
| Preview.LeadingHashesOf | src/components/Preview.jsx:24 | k `#` followed by a non-`#` count as k |
| Preview.LeadingSpacesOf | src/components/Preview.jsx:24 | A whitespace run followed by a non-space counts as its length |
| Preview.LeadingSpacesAtLeast | src/components/Preview.jsx:24 | A whitespace prefix is counted |
| Preview.HashesPrefix | src/components/Preview.jsx:24 | A line is its leading `#` run followed by the rest |
| Preview.SpacesPrefix | src/components/Preview.jsx:24 | Every prefix of the leading whitespace run is whitespace |
| Preview.ParseOfParts | src/components/Preview.jsx:24 | `#`-run, whitespace and terminator-free text put together are in the regular language |
| Preview.MatchIsParse | src/components/Preview.jsx:24 | What the matcher accepts is in the language of `/^(#{1,6})\s+(.+)$/`, with group 1 of the matched length |
| Preview.ParseIsMatch | src/components/Preview.jsx:24 | Every reading of a line as that expression is found, with the same `#` count and a group 2 no longer than the reading's |
| Preview.MatchOf | src/components/Preview.jsx:24-33 | A line of 1–6 `#`, whitespace and trimmed text is matched with that text and gets its id |
| Preview.HeadingsOfLine | src/components/Preview.jsx:25-34 | A line contributes an entry exactly when it is a heading line |
| Preview.HeadingWellFormed | src/components/Preview.jsx:24-33 | An entry has level 1–6, trimmed text and the slug of its text as id |
| Preview.OutlineWellFormed | src/components/Preview.jsx:19-38 | Every outline entry is well formed |
| Preview.OutlineAppend | src/components/Preview.jsx:23-35 | The outline of two blocks of lines is the concatenation of their outlines |
| Preview.OutlineSnoc | src/components/Preview.jsx:23-35 | One more line adds that line's entry at the end |
| Preview.OutlineCons | src/components/Preview.jsx:23-35 | One more line in front adds its entry in front |
| Preview.OutlineSingle | src/components/Preview.jsx:23-35 | The outline of one line is that line's entry |
| Preview.OutlineOfThree | src/components/Preview.jsx:23-35 | The outline of three lines is their entries in order |
| Preview.OutlineCount | src/components/Preview.jsx:23-35 | There is one entry per heading line |
| Preview.OutlineAt | src/components/Preview.jsx:23-35 | The entry of line i follows the entries of the lines before it: document order |
| Preview.HeadingLevel | src/components/Preview.jsx:26 | An entry's level is the number of leading `#`, in 1..6 |
| Preview.LeadingHashesAtLeast | src/components/Preview.jsx:24 | A line that starts with k `#` has at least k leading `#` |
| Preview.SevenHashesRefused | src/components/Preview.jsx:24 | No line that starts with seven or more `#` is a heading |
| Preview.ShortLinesRefused | src/components/Preview.jsx:24 | `#x` and `# ` are not headings |
| Preview.CrLineRefused | src/components/Preview.jsx:24 | No line that ends in `\r` is a heading |
| Preview.BlankHeading | src/components/Preview.jsx:24-27 | `#` with two spaces is a heading with empty text and empty id |
| Preview.NoHashNoHeading | src/components/Preview.jsx:24 | A line not starting with `#` is not a heading |
| Preview.MatchWord | src/components/Preview.jsx:24-33 | A `#`-run, one space and an ASCII word give that word as text |
| Preview.HeadingTitle | src/components/Preview.jsx:24-33 | `# Title` gives level 1, text `Title`, id `title` |
| Preview.HeadingSub | src/components/Preview.jsx:24-33 | `## Sub` gives level 2, text `Sub`, id `sub` |
| Preview.HeadingA | src/components/Preview.jsx:24-33 | `# a` gives level 1, text `a`, id `a` |
| Preview.SplitTitleDocument | src/components/Preview.jsx:21 | A three-line document splits into its three lines |
| Preview.TitleScenario | src/components/Preview.jsx:19-38 | The outline of `# Title`, `text`, `## Sub` is the two headings in order |
| Preview.FencedHeadingListed | src/components/Preview.jsx:19-38 | A heading line inside a code fence is listed |
| Preview.ExtractHeadings | src/components/Preview.jsx:19-38 | The loop computes the outline of the split content |
| Preview.StripMarkersLength | src/components/Preview.jsx:118 | Removing the markers shortens the content by 5 per removed marker |
| Preview.MarkerCountPositive | src/components/Preview.jsx:116-118 | Something is removed exactly when `includes('[TOC]')` holds |
| Preview.StripMarkersUnchanged | src/components/Preview.jsx:116-118 | The content is unchanged exactly when it has no marker |
| Preview.StripNoMarker | src/components/Preview.jsx:118 | Content without markers is kept |
| Preview.StripMarkersKeep | src/components/Preview.jsx:118 | A character at which no marker starts is kept |
| Preview.StripMarkersKeepAll | src/components/Preview.jsx:118 | Characters at which no marker starts are all kept |
| Preview.StripMarkersDrop | src/components/Preview.jsx:118 | A marker is dropped |
| Preview.StripLeavesNewMarker | src/components/Preview.jsx:118 | One left-to-right pass over `[TO[TOC]C]` leaves `[TOC]` |
| Preview.TocShown | src/components/Preview.jsx:41-61 | The table of contents shows exactly with a marker and a heading; link j targets entry j's id, keeps its text, and is indented level − 1 em, in 0..5 |
| Preview.TocHrefMatchesAnchor | src/components/Preview.jsx:131-178 | For a plain-text heading the link's `href` is `#` and the id its h1–h6 element gets |
| Preview.PreparePreview | src/components/Preview.jsx:114-120 | The memoised inputs are the outline, the marker test and the content without markers, 5 shorter per marker |
| ScrollSync.Step | src/App.jsx:193-232 | The two scroll handlers and the reset timer firing as one step; `StepKeepsInv`, `EchoIgnored` and `ScrollSyncsOther` state it |
| ScrollSync.Target | src/App.jsx:203-205 | `scrollPercentage * (scrollHeight - clientHeight)`, the same at `src/App.jsx:224-226`; bounded by `TargetInRange` |
| ScrollSync.StepKeepsInv | src/App.jsx:163-164 | The invariant is kept by every event: the flags are never both set, and a flag is set exactly when the one timer slot is that pane's |
| ScrollSync.RunKeepsInv | src/App.jsx:193-232 | The invariant holds after any sequence of events |
| ScrollSync.EchoIgnored | src/App.jsx:194 | A scroll while the other pane's flag is set changes nothing |
| ScrollSync.ScrollSyncsOther | src/App.jsx:196-210 | An accepted scroll sets its flag, owns the timer slot, moves the other pane to f·(scrollHeight − clientHeight), and leaves its own pane |
| ScrollSync.TargetInRange | src/App.jsx:203-205 | A fraction in [0, 1] gives an offset in [0, scrollHeight − clientHeight] |
| ScrollSync.NoFeedback | src/App.jsx:193-232 | Until the reset timer fires, no scroll event moves the pane that is scrolling |
| ScrollSync.ResetReenables | src/App.jsx:208-210 | The timer firing makes both panes idle and moves nothing |
| ScrollSync.SyncRound | src/App.jsx:193-232 | Scroll, ignored echo and timer: the other pane is at the target and both are idle again |
| ScrollSync.ScrollSyncController.constructor | src/App.jsx:163-164 | Both flags start clear with no timer pending |
| ScrollSync.ScrollSyncController.HandleEditorScroll | src/App.jsx:193-211 | The editor handler updates the fields as the step function does and keeps the invariant |
| ScrollSync.ScrollSyncController.HandlePreviewScroll | src/App.jsx:214-232 | The preview handler updates the fields as the step function does and keeps the invariant |
| ScrollSync.ScrollSyncController.ResetTimerFires | src/App.jsx:208-210 | The timer clears the flag of the pane that set it |
| Autosave.Initial | src/App.jsx:158-162 | Unloaded, empty buffer, nothing pending or written, before the load effect; `LoadFallback` and `NoSaveBeforeLoad` start from it |
| Autosave.LoadedText | src/App.jsx:167-171 | `loadContent() \|\| defaultContent`; stated by `LoadFallback` |
| Autosave.Commit | src/App.jsx:174-190 | A render with the new buffer and flag, re-running the effect when either changed; `ChangesReschedule` and `StepKeepsInv` state it |
| Autosave.Step | src/App.jsx:167-190 | Load, change, save timer, unmount and clear as one step, clear as at `src/App.jsx:290-295`; `StepKeepsInv` and the lemmas below state it |
| Autosave.StepKeepsInv | src/App.jsx:174-190 | A pending save exists only once loaded and always carries the current buffer |
| Autosave.RunKeepsInv | src/App.jsx:174-190 | That holds after any sequence of events |
| Autosave.NoSaveBeforeLoad | src/App.jsx:175 | Before the load nothing is scheduled and nothing is written |
| Autosave.LoadFallback | src/App.jsx:167-171 | The stored text is loaded unless missing or empty, when the sample is; the load schedules a save of it |
| Autosave.ChangesReschedule | src/App.jsx:177-183 | Changes keep exactly one save pending, of the latest buffer, and write nothing |
| Autosave.DebounceSavesLast | src/App.jsx:177-183 | N changes followed by the timer give exactly one save, carrying the last value |
| Autosave.RunAppend | src/App.jsx:174-190 | Running two event lists is running their concatenation |
| Autosave.IsolatedChangeSaved | src/App.jsx:181-183 | A change followed by the timer is saved on its own |
| Autosave.TeardownDropsSave | src/App.jsx:185-189 | Unmounting cancels the pending save without writing it |
| Autosave.UnconfirmedClearKeeps | src/App.jsx:291 | Clear without confirmation changes nothing |
| Autosave.ClearThenReload | src/App.jsx:290-295 | Clear empties buffer and slot; the next load gives the sample whether or not the scheduled save of `""` fired |
| Autosave.SaveThenLoad | src/App.jsx:167-183 | A saved non-empty buffer is what the next load gives back |
| Autosave.Session.constructor | src/App.jsx:158-162 | The session starts unloaded with an empty buffer and nothing pending |
| Autosave.Session.Render | src/App.jsx:174-190 | The effect re-runs only when buffer or flag changed; it cancels the pending save and schedules one once loaded |
| Autosave.Session.LoadContent | src/App.jsx:167-171 | The load effect updates the fields as the step function does and keeps the invariant |
| Autosave.Session.SetMarkdown | src/App.jsx:174-190 | A change updates the fields as the step function does and keeps the invariant |
| Autosave.Session.SaveTimerFires | src/App.jsx:181-183 | The pending save is written to the slot and none is left pending |
| Autosave.Session.Unmount | src/App.jsx:185-189 | The cleanup drops the pending save |
| Autosave.Session.HandleClear | src/App.jsx:290-295 | A confirmed clear removes the slot and empties the buffer, as the step function does |

## Left out

- Strings are sequences of Unicode scalar values. JavaScript's `length`, `selectionStart`/`selectionEnd` and `substring` (`src/App.jsx:243-251`, `src/components/Editor.jsx:7-9`) count UTF-16 code units, so every offset after a character outside the Basic Multilingual Plane (the 🚀 of the sample document, say) is one less here than in the browser, and a caret between the two halves of a surrogate pair, which `src/App.jsx:270-272` can produce, is not expressible.
- Storage failures: the try/catch around `localStorage` (storage.js) is not modelled; the slot always answers.
- The React render cycle itself: state updates are applied at once, and the effect re-run is the `Commit` function.
- Real time: the 100 ms, 1000 ms and 0 ms delays are events, so nothing is said about how close two events are in time.
- The scroll fraction `scrollTop / (scrollHeight - clientHeight)` is a parameter. The floating-point division and the browser's clamping of `scrollTop` are not modelled; offsets are reals.
- The deferred caret update in `handleInsert` and in the Tab handler re-checks `textareaRef.current` when the timeout runs. The model sets the caret whenever there was a textarea at the time of the call.
- Markdown rendering, KaTeX, syntax highlighting and Mermaid are foreign libraries and are not modelled. So is the rendered text of a heading (`String(children)`): `TocHrefMatchesAnchor` takes it as a parameter equal to the outline text.
- `toLowerCase` is modelled on ASCII only; other upper-case letters are left unchanged.
- The sample document is a parameter, not its text.
- Download, clipboard writing, image upload (FileReader and the MIME check), `alert`, `prompt` and `confirm` are not modelled. The answers of `prompt`, `confirm` and the clipboard read are inputs.
- The JSX layout, icons and the word counter are not modelled.
