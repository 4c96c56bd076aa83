/**
 * The preview's outline pass: `extractHeadings` (heading lines of the buffer,
 * matched with /^(#{1,6})\s+(.+)$/), the `[TOC]` marker test and removal, the
 * table-of-contents links, and the ids the h1-h6 renderers give headings.
 */
module Preview {
  import opened JsString
  import opened SlugGenerator

  /** One outline entry: the heading's level, its trimmed text and its anchor id. */
  datatype Heading = Heading(level: int, text: string, id: string)

  /** What `line.match(...)` yields on success: the length of group 1 and group 2 itself. */
  datatype RegexMatch = RegexMatch(hashes: nat, capture: string)

  function Hashes(k: nat): (r: string)
    ensures |r| == k && forall j :: 0 <= j < k ==> r[j] == '#'
  {
    seq(k, j => '#')
  }

  /** The number of `#` that `s` starts with. */
  function LeadingHashes(s: string): (k: nat)
    ensures k <= |s|
  {
    if s != [] && s[0] == '#' then 1 + LeadingHashes(s[1..]) else 0
  }

  /** LeadingHashes counts the whole run of `#` at the start. */
  lemma {:induction false} LeadingHashesSpec(s: string)
    ensures s[..LeadingHashes(s)] == Hashes(LeadingHashes(s))
    ensures LeadingHashes(s) == |s| || s[LeadingHashes(s)] != '#'
  {
    if s != [] && s[0] == '#' {
      LeadingHashesSpec(s[1..]);
      var k := LeadingHashes(s[1..]);
      assert s[..k + 1] == [s[0]] + s[1..][..k];
    }
  }

  /** The number of whitespace characters that `s` starts with. */
  function LeadingSpaces(s: string): (m: nat)
    ensures m <= |s|
  {
    if s != [] && IsSpace(s[0]) then 1 + LeadingSpaces(s[1..]) else 0
  }

  /** LeadingSpaces counts the whole whitespace run at the start. */
  lemma {:induction false} LeadingSpacesSpec(s: string)
    ensures AllSpace(s[..LeadingSpaces(s)])
    ensures LeadingSpaces(s) == |s| || !IsSpace(s[LeadingSpaces(s)])
  {
    if s != [] && IsSpace(s[0]) {
      LeadingSpacesSpec(s[1..]);
      var m := LeadingSpaces(s[1..]);
      assert s[..m + 1] == [s[0]] + s[1..][..m];
    }
  }

  /**
   * `line.match(/^(#{1,6})\s+(.+)$/)` on a line without `\n`. `#{1,6}` can only
   * succeed on all the leading `#`; `\s+` is greedy, so group 2 starts after the
   * whole whitespace run, unless the line is whitespace to its end, where `\s+`
   * gives back its last character to `.+`. `.` refuses line terminators.
   */
  function MatchHeading(line: string): Option<RegexMatch> {
    var k := LeadingHashes(line);
    if k < 1 || k > 6 || k == |line| || !IsSpace(line[k]) then None
    else
      var rest := line[k..];
      var m := LeadingSpaces(rest);
      var n := if m < |rest| then m else |rest| - 1;
      if n >= 1 && NoLineTerminator(rest[n..]) then Some(RegexMatch(k, rest[n..])) else None
  }

  /** The language of the regular expression: 1 to 6 `#`, a whitespace run, then non-empty text without line terminators. */
  ghost predicate Parses(line: string, k: nat, w: string, c: string) {
    1 <= k <= 6 && |w| >= 1 && AllSpace(w) && |c| >= 1 && NoLineTerminator(c)
    && line == Hashes(k) + w + c
  }

  lemma {:induction false} LeadingHashesOf(k: nat, t: string)
    requires t == [] || t[0] != '#'
    ensures LeadingHashes(Hashes(k) + t) == k
  {
    if k > 0 {
      assert (Hashes(k) + t)[1..] == Hashes(k - 1) + t;
      LeadingHashesOf(k - 1, t);
    } else {
      assert Hashes(k) + t == t;
    }
  }

  /** What MatchHeading accepts is in the language of the regular expression, with group 1 of the matched length. */
  lemma MatchIsParse(line: string)
    requires MatchHeading(line).Some?
    ensures exists w :: Parses(line, MatchHeading(line).value.hashes, w, MatchHeading(line).value.capture)
  {
    var k := LeadingHashes(line);
    var rest := line[k..];
    var m := LeadingSpaces(rest);
    var n := if m < |rest| then m else |rest| - 1;
    assert MatchHeading(line) == Some(RegexMatch(k, rest[n..])) && 1 <= k <= 6 && 1 <= n < |rest|
      && NoLineTerminator(rest[n..]);
    HashesPrefix(line);
    SpacesPrefix(rest, n);
    ParseOfParts(line, k, rest, n);
  }

  /** A line is its leading `#` followed by the rest. */
  lemma HashesPrefix(line: string)
    ensures line == Hashes(LeadingHashes(line)) + line[LeadingHashes(line)..]
  {
    LeadingHashesSpec(line);
    assert line == line[..LeadingHashes(line)] + line[LeadingHashes(line)..];
  }

  /** Every prefix of the leading whitespace run is whitespace. */
  lemma SpacesPrefix(s: string, n: nat)
    requires n <= LeadingSpaces(s)
    ensures AllSpace(s[..n])
  {
    LeadingSpacesSpec(s);
    assert s[..n] == s[..LeadingSpaces(s)][..n];
  }

  lemma ParseOfParts(line: string, k: nat, rest: string, n: nat)
    requires line == Hashes(k) + rest && 1 <= k <= 6 && 1 <= n < |rest|
    requires AllSpace(rest[..n]) && NoLineTerminator(rest[n..])
    ensures Parses(line, k, rest[..n], rest[n..])
  {
    assert rest == rest[..n] + rest[n..];
  }

  /**
   * Every way of reading the line as the regular expression is found by MatchHeading,
   * with the same number of `#` and a group 2 no longer than that reading's: the
   * greedy `\s+` leaves `.+` the shortest text.
   */
  lemma ParseIsMatch(line: string, k: nat, w: string, c: string)
    requires Parses(line, k, w, c)
    ensures MatchHeading(line).Some?
    ensures MatchHeading(line).value.hashes == k
    ensures |MatchHeading(line).value.capture| <= |c|
  {
    var rest := w + c;
    assert LeadingHashes(line) == k && k < |line| && line[k..] == rest && IsSpace(line[k]) by {
      assert line == Hashes(k) + rest;
      LeadingHashesOf(k, rest);
      assert line[k] == w[0];
    }
    LeadingSpacesAtLeast(w, c);
    var m := LeadingSpaces(rest);
    if m < |rest| {
      assert rest[m..] == c[m - |w|..];
    } else {
      assert rest[|rest| - 1] == c[|c| - 1];
    }
  }

  /** A whitespace prefix is counted. */
  lemma {:induction false} LeadingSpacesAtLeast(w: string, c: string)
    requires AllSpace(w)
    ensures LeadingSpaces(w + c) >= |w|
  {
    if w != [] {
      assert (w + c)[1..] == w[1..] + c;
      LeadingSpacesAtLeast(w[1..], c);
    }
  }

  /** A line of the buffer that the outline lists. */
  predicate IsHeadingLine(line: string) {
    MatchHeading(line).Some?
  }

  /** The entry `extractHeadings` pushes for a line, if any. */
  function HeadingOf(line: string): Option<Heading> {
    match MatchHeading(line)
    case None => None
    case Some(m) =>
      var text := Trim(m.capture);
      Some(Heading(m.hashes, text, Slug(text)))
  }

  /** An entry as every outline entry is: level 1 to 6, trimmed text, id the slug of the text. */
  predicate WellFormed(h: Heading) {
    1 <= h.level <= 6 && h.id == Slug(h.text)
    && (h.text == [] || (!IsSpace(h.text[0]) && !IsSpace(h.text[|h.text| - 1])))
  }

  function HeadingsOfLine(line: string): (r: seq<Heading>)
    ensures r == [] <==> !IsHeadingLine(line)
  {
    match HeadingOf(line)
    case None => []
    case Some(h) => [h]
  }

  /** The entry of a heading line is well formed. */
  lemma HeadingWellFormed(line: string)
    requires IsHeadingLine(line)
    ensures WellFormed(HeadingOf(line).value)
  {
    TrimEnds(MatchHeading(line).value.capture);
  }

  /** The outline of a sequence of lines: their entries, in order. */
  function Outline(lines: seq<string>): seq<Heading> {
    if lines == [] then []
    else Outline(lines[..|lines| - 1]) + HeadingsOfLine(lines[|lines| - 1])
  }

  /** Every entry of an outline has level 1 to 6, trimmed text, and the slug of that text as id. */
  lemma {:induction false} OutlineWellFormed(lines: seq<string>)
    ensures forall j :: 0 <= j < |Outline(lines)| ==> WellFormed(Outline(lines)[j])
  {
    if lines != [] {
      var init, last := lines[..|lines| - 1], lines[|lines| - 1];
      OutlineWellFormed(init);
      var a, b := Outline(init), HeadingsOfLine(last);
      assert Outline(lines) == a + b;
      forall j | 0 <= j < |a + b|
        ensures WellFormed((a + b)[j])
      {
        if j < |a| {
          assert (a + b)[j] == a[j];
        } else {
          HeadingWellFormed(last);
          assert (a + b)[j] == HeadingOf(last).value;
        }
      }
    }
  }

  /** The number of heading lines, counted from the front. */
  function CountHeadingLines(lines: seq<string>): nat {
    if lines == [] then 0
    else (if IsHeadingLine(lines[0]) then 1 else 0) + CountHeadingLines(lines[1..])
  }

  /** The outline of two blocks of lines is the outline of the first followed by that of the second. */
  lemma {:induction false} OutlineAppend(a: seq<string>, b: seq<string>)
    ensures Outline(a + b) == Outline(a) + Outline(b)
    decreases |b|
  {
    if b == [] {
      assert a + b == a;
    } else {
      var b' := b[..|b| - 1];
      assert (a + b)[..|a + b| - 1] == a + b';
      OutlineAppend(a, b');
    }
  }

  /** One entry per heading line. */
  lemma {:induction false} OutlineCount(lines: seq<string>)
    ensures |Outline(lines)| == CountHeadingLines(lines)
  {
    if lines != [] {
      OutlineCount(lines[1..]);
      OutlineAppend([lines[0]], lines[1..]);
      assert [lines[0]] + lines[1..] == lines;
      assert Outline([lines[0]]) == HeadingsOfLine(lines[0]);
    }
  }

  /** The entry of the i-th line stands in the outline after the entries of the lines before it: document order. */
  lemma OutlineAt(lines: seq<string>, i: nat)
    requires i < |lines| && IsHeadingLine(lines[i])
    ensures CountHeadingLines(lines[..i]) < |Outline(lines)|
    ensures Outline(lines)[CountHeadingLines(lines[..i])] == HeadingOf(lines[i]).value
  {
    var pre, post := lines[..i], lines[i + 1..];
    assert lines == pre + [lines[i]] + post;
    OutlineAppend(pre + [lines[i]], post);
    OutlineAppend(pre, [lines[i]]);
    assert Outline([lines[i]]) == HeadingsOfLine(lines[i]);
    OutlineCount(pre);
  }

  /** The level of an entry is the number of `#` its line starts with. */
  lemma HeadingLevel(line: string)
    requires IsHeadingLine(line)
    ensures HeadingOf(line).value.level == LeadingHashes(line)
    ensures 1 <= LeadingHashes(line) <= 6
  {
  }

  /** A line put together as the expression expects, with text that neither starts nor ends with whitespace. */
  lemma MatchOf(k: nat, w: string, c: string)
    requires 1 <= k <= 6 && |w| >= 1 && AllSpace(w)
    requires |c| >= 1 && !IsSpace(c[0]) && !IsSpace(c[|c| - 1]) && NoLineTerminator(c)
    ensures MatchHeading(Hashes(k) + w + c) == Some(RegexMatch(k, c))
    ensures HeadingOf(Hashes(k) + w + c) == Some(Heading(k, c, Slug(c)))
  {
    var line := Hashes(k) + w + c;
    assert Parses(line, k, w, c);
    ParseIsMatch(line, k, w, c);
    LeadingHashesOf(k, w + c);
    assert line[k..] == w + c;
    LeadingSpacesOf(w, c);
    assert (w + c)[|w|..] == c;
    TrimFixes(c);
  }

  lemma {:induction false} LeadingSpacesOf(w: string, c: string)
    requires AllSpace(w) && (c == [] || !IsSpace(c[0]))
    ensures LeadingSpaces(w + c) == |w|
  {
    if w == [] {
      assert w + c == c;
    } else {
      assert (w + c)[1..] == w[1..] + c;
      LeadingSpacesOf(w[1..], c);
    }
  }

  /** A line that starts with `k` `#` has at least `k` leading `#`. */
  lemma {:induction false} LeadingHashesAtLeast(s: string, k: nat)
    requires k <= |s| && forall j :: 0 <= j < k ==> s[j] == '#'
    ensures LeadingHashes(s) >= k
  {
    if k > 0 {
      assert forall j :: 0 <= j < k - 1 ==> s[1..][j] == s[j + 1];
      LeadingHashesAtLeast(s[1..], k - 1);
    }
  }

  /** Seven or more `#` are too many: `#{1,6}` is followed by a further `#`, not by whitespace. */
  lemma SevenHashesRefused(line: string)
    requires |line| >= 7 && forall j :: 0 <= j < 7 ==> line[j] == '#'
    ensures !IsHeadingLine(line)
  {
    LeadingHashesAtLeast(line, 7);
  }

  /** `\s+` needs a whitespace character after the `#`, and `.+` a character after that. */
  lemma ShortLinesRefused()
    ensures !IsHeadingLine("#x") && !IsHeadingLine("# ")
  {
    assert "#x" == Hashes(1) + "x";
    LeadingHashesOf(1, "x");
    assert "# " == Hashes(1) + " ";
    LeadingHashesOf(1, " ");
  }

  /** A line that ends in `\r`, as every line of a CRLF document but the last does, is refused: `.` does not match `\r`. */
  lemma CrLineRefused(line: string)
    requires |line| > 0 && line[|line| - 1] == '\r'
    ensures !IsHeadingLine(line)
  {
  }

  /** A line of `#` and only whitespace can match, with an empty text after trimming. */
  lemma BlankHeading()
    ensures HeadingOf("#  ") == Some(Heading(1, "", ""))
  {
    var line := "#  ";
    assert line == Hashes(1) + "  ";
    LeadingHashesOf(1, "  ");
    LeadingSpacesOf("  ", "");
    assert line[1..][1..] == " ";
    assert Trim(" ") == "";
  }

  /**
   * `extractHeadings`: split the content on `\n` and push the entry of every
   * matching line.
   */
  method ExtractHeadings(content: string) returns (headings: seq<Heading>)
    ensures headings == Outline(SplitLines(content))
  {
    var lines := SplitLines(content);
    headings := [];
    for i := 0 to |lines|
      invariant headings == Outline(lines[..i])
    {
      OutlineSnoc(lines, i);
      var m := MatchHeading(lines[i]);
      if m.Some? {
        var level := m.value.hashes;
        var text := Trim(m.value.capture);
        var id := Slug(text);
        assert HeadingsOfLine(lines[i]) == [Heading(level, text, id)];
        headings := headings + [Heading(level, text, id)];
      } else {
        assert HeadingsOfLine(lines[i]) == [];
      }
    }
    assert lines[..|lines|] == lines;
  }

  /** Extending the lines by one extends the outline by that line's entry. */
  lemma OutlineSnoc(lines: seq<string>, i: nat)
    requires i < |lines|
    ensures Outline(lines[..i + 1]) == Outline(lines[..i]) + HeadingsOfLine(lines[i])
  {
    assert lines[..i + 1][..i] == lines[..i];
  }

  /** The outline of a line sequence, one line at a time from the front. */
  lemma {:induction false} OutlineCons(line: string, rest: seq<string>)
    ensures Outline([line] + rest) == HeadingsOfLine(line) + Outline(rest)
  {
    OutlineAppend([line], rest);
    assert [line][..0] == [];
    assert Outline([line]) == HeadingsOfLine(line);
  }

  lemma SplitTitleDocument(content: string)
    requires content == "# Title\ntext\n## Sub"
    ensures SplitLines(content) == ["# Title", "text", "## Sub"]
  {
    var lines := ["# Title", "text", "## Sub"];
    assert JoinLines(lines) == content;
    SplitJoinLines(lines);
  }

  /** A line `#`-run, one space, then one ASCII word. */
  lemma MatchWord(line: string, k: nat)
    requires 1 <= k <= 6 && k + 1 < |line| && line[..k] == Hashes(k) && line[k] == ' '
    requires forall i :: k + 1 <= i < |line| ==> 'A' <= line[i] <= 'Z' || 'a' <= line[i] <= 'z'
    ensures HeadingOf(line) == Some(Heading(k, line[k + 1..], Slug(line[k + 1..])))
  {
    var w, c := line[k..k + 1], line[k + 1..];
    assert line == Hashes(k) + w + c;
    MatchOf(k, w, c);
  }

  lemma HeadingTitle(line: string)
    requires line == "# Title"
    ensures HeadingOf(line) == Some(Heading(1, "Title", "title"))
  {
    MatchWord(line, 1);
    SlugLowerWord(line[2..], "title");
  }

  lemma HeadingSub(line: string)
    requires line == "## Sub"
    ensures HeadingOf(line) == Some(Heading(2, "Sub", "sub"))
  {
    MatchWord(line, 2);
    SlugLowerWord(line[3..], "sub");
  }

  lemma HeadingA(line: string)
    requires line == "# a"
    ensures HeadingOf(line) == Some(Heading(1, "a", "a"))
  {
    MatchWord(line, 1);
    SlugLowerWord(line[2..], "a");
  }

  /** A line that does not start with `#` is not a heading. */
  lemma NoHashNoHeading(line: string)
    requires line == [] || line[0] != '#'
    ensures HeadingsOfLine(line) == []
  {
  }

  lemma OutlineSingle(line: string)
    ensures Outline([line]) == HeadingsOfLine(line)
  {
    assert [line][..0] == [];
  }

  lemma OutlineOfThree(l0: string, l1: string, l2: string)
    ensures Outline([l0, l1, l2]) == HeadingsOfLine(l0) + HeadingsOfLine(l1) + HeadingsOfLine(l2)
  {
    assert Outline([l0, l1]) == HeadingsOfLine(l0) + HeadingsOfLine(l1) by {
      assert [l0, l1] == [l0] + [l1];
      OutlineAppend([l0], [l1]);
      OutlineSingle(l0);
      OutlineSingle(l1);
    }
    assert Outline([l0, l1, l2]) == Outline([l0, l1]) + Outline([l2]) by {
      assert [l0, l1, l2] == [l0, l1] + [l2];
      OutlineAppend([l0, l1], [l2]);
    }
    OutlineSingle(l2);
  }

  /** The outline of a small document: the two heading lines, in order, with lower-cased ids. */
  lemma TitleScenario(content: string)
    requires content == "# Title\ntext\n## Sub"
    ensures Outline(SplitLines(content)) == [Heading(1, "Title", "title"), Heading(2, "Sub", "sub")]
  {
    SplitTitleDocument(content);
    var lines := SplitLines(content);
    var l0, l1, l2 := lines[0], lines[1], lines[2];
    assert lines == [l0, l1, l2];
    OutlineOfThree(l0, l1, l2);
    HeadingTitle(l0);
    NoHashNoHeading(l1);
    HeadingSub(l2);
  }

  /** Extraction does not know about code fences: a heading line inside one is listed. */
  lemma FencedHeadingListed(content: string)
    requires content == "```\n# a\n```"
    ensures Outline(SplitLines(content)) == [Heading(1, "a", "a")]
  {
    assert SplitLines(content) == ["```", "# a", "```"] by {
      assert JoinLines(["```", "# a", "```"]) == content;
      SplitJoinLines(["```", "# a", "```"]);
    }
    var lines := SplitLines(content);
    var l0, l1, l2 := lines[0], lines[1], lines[2];
    assert lines == [l0, l1, l2];
    OutlineOfThree(l0, l1, l2);
    NoHashNoHeading(l0);
    HeadingA(l1);
    NoHashNoHeading(l2);
  }

  // ---- the [TOC] marker ----

  const Marker: string := "[TOC]"

  /** `content.includes('[TOC]')`. */
  predicate HasToc(content: string) {
    Includes(content, Marker)
  }

  /** `content.replace(/\[TOC\]/g, '')`: markers are removed left to right, without overlap. */
  function StripMarkers(s: string): string {
    if StartsWith(s, Marker) then StripMarkers(s[|Marker|..])
    else if s == [] then []
    else [s[0]] + StripMarkers(s[1..])
  }

  /** The number of markers the left-to-right scan removes. */
  function MarkerCount(s: string): nat {
    if StartsWith(s, Marker) then 1 + MarkerCount(s[|Marker|..])
    else if s == [] then 0
    else MarkerCount(s[1..])
  }

  /** Each removed marker shortens the content by five characters. */
  lemma {:induction false} StripMarkersLength(s: string)
    ensures |StripMarkers(s)| == |s| - 5 * MarkerCount(s)
  {
    if StartsWith(s, Marker) {
      StripMarkersLength(s[|Marker|..]);
    } else if s != [] {
      StripMarkersLength(s[1..]);
    }
  }

  /** The scan removes something exactly when the content includes the marker. */
  lemma {:induction false} MarkerCountPositive(s: string)
    ensures MarkerCount(s) > 0 <==> HasToc(s)
  {
    if !StartsWith(s, Marker) && s != [] {
      MarkerCountPositive(s[1..]);
    }
  }

  /** Removal changes the content exactly when it includes the marker. */
  lemma StripMarkersUnchanged(s: string)
    ensures StripMarkers(s) == s <==> !HasToc(s)
  {
    StripMarkersLength(s);
    MarkerCountPositive(s);
    if !HasToc(s) {
      StripNoMarker(s);
    }
  }

  lemma {:induction false} StripNoMarker(s: string)
    requires MarkerCount(s) == 0
    ensures StripMarkers(s) == s
  {
    if s != [] {
      StripNoMarker(s[1..]);
      assert [s[0]] + s[1..] == s;
    }
  }

  /** A character that does not start a marker is kept. */
  lemma StripMarkersKeep(c: char, t: string)
    requires !StartsWith([c] + t, Marker)
    ensures StripMarkers([c] + t) == [c] + StripMarkers(t)
  {
    assert ([c] + t)[1..] == t;
  }

  /** A marker is dropped. */
  lemma StripMarkersDrop(t: string)
    ensures StripMarkers(Marker + t) == StripMarkers(t)
  {
    assert (Marker + t)[..|Marker|] == Marker;
    assert (Marker + t)[|Marker|..] == t;
  }

  /** Characters at which no marker starts are kept. */
  lemma {:induction false} StripMarkersKeepAll(x: string, t: string)
    requires forall i :: 0 <= i < |x| ==> !StartsWith(x[i..] + t, Marker)
    ensures StripMarkers(x + t) == x + StripMarkers(t)
    decreases |x|
  {
    if x != [] {
      assert x[0..] == x;
      assert x + t == [x[0]] + (x[1..] + t);
      StripMarkersKeep(x[0], x[1..] + t);
      forall i | 0 <= i < |x[1..]|
        ensures !StartsWith(x[1..][i..] + t, Marker)
      {
        assert x[1..][i..] == x[i + 1..];
      }
      StripMarkersKeepAll(x[1..], t);
      calc {
        StripMarkers(x + t);
        StripMarkers([x[0]] + (x[1..] + t));
        [x[0]] + StripMarkers(x[1..] + t);
        [x[0]] + (x[1..] + StripMarkers(t));
        { assert [x[0]] + x[1..] == x; }
        x + StripMarkers(t);
      }
    } else {
      assert x + t == t;
    }
  }

  /** The removal is one pass: a marker put together by it survives. */
  lemma StripLeavesNewMarker(s: string)
    requires s == "[TO[TOC]C]"
    ensures StripMarkers(s) == Marker
    ensures HasToc(StripMarkers(s))
  {
    var x, tail := "[TO", "C]";
    var t := Marker + tail;
    assert StripMarkers(tail) == tail by {
      StripNoMarker(tail);
    }
    assert StripMarkers(t) == tail by {
      StripMarkersDrop(tail);
    }
    forall i | 0 <= i < |x|
      ensures !StartsWith(x[i..] + t, Marker)
    {
      if i == 0 {
        assert (x + t)[3] != Marker[3];
      } else {
        assert (x[i..] + t)[0] == x[i] != Marker[0];
      }
    }
    StripMarkersKeepAll(x, t);
    assert s == x + t;
    assert x + tail == Marker;
    assert StartsWith(Marker, Marker);
  }

  // ---- the table of contents and the heading ids ----

  /** One link of the table of contents: its `href`, its left padding in em, and its text. */
  datatype TocLink = TocLink(href: string, indentEm: int, text: string)

  function LinkOf(h: Heading): TocLink {
    TocLink("#" + h.id, h.level - 1, h.text)
  }

  /** `TableOfContents`: nothing for an empty outline, otherwise one link per entry. */
  function TableOfContents(headings: seq<Heading>): Option<seq<TocLink>> {
    if |headings| == 0 then None
    else Some(seq(|headings|, j requires 0 <= j < |headings| => LinkOf(headings[j])))
  }

  /** `{hasTOC && <TableOfContents headings={headings} />}`. */
  function TocBlock(hasToc: bool, headings: seq<Heading>): Option<seq<TocLink>> {
    if hasToc then TableOfContents(headings) else None
  }

  /** The id the h1-h6 renderers give a heading whose rendered text is `children`. */
  function HeadingAnchorId(children: string): string {
    Slug(children)
  }

  /**
   * The table of contents shows exactly when the marker is present and the outline
   * is non-empty; link j goes to entry j's id, keeps its text and is indented by
   * its level minus one, between 0 and 5 em.
   */
  lemma TocShown(content: string)
    ensures var block := TocBlock(HasToc(content), Outline(SplitLines(content)));
      && (block.Some? <==> HasToc(content) && CountHeadingLines(SplitLines(content)) > 0)
      && (block.Some? ==>
            var hs := Outline(SplitLines(content));
            |block.value| == |hs|
            && forall j :: 0 <= j < |hs| ==>
                 block.value[j].href == "#" + hs[j].id
                 && block.value[j].text == hs[j].text
                 && block.value[j].indentEm == hs[j].level - 1
                 && 0 <= block.value[j].indentEm <= 5)
  {
    OutlineCount(SplitLines(content));
    OutlineWellFormed(SplitLines(content));
  }

  /**
   * For a heading whose rendered text is its outline text (a plain-text heading),
   * the table-of-contents link points at the id its h1-h6 element gets.
   */
  lemma TocHrefMatchesAnchor(content: string, j: nat, children: string)
    requires j < |Outline(SplitLines(content))|
    requires children == Outline(SplitLines(content))[j].text
    ensures LinkOf(Outline(SplitLines(content))[j]).href == "#" + HeadingAnchorId(children)
  {
    OutlineWellFormed(SplitLines(content));
  }

  /** The memoised preview inputs: the content without markers, the outline, and whether a marker is present. */
  method PreparePreview(content: string) returns (processed: string, headings: seq<Heading>, hasToc: bool)
    ensures headings == Outline(SplitLines(content))
    ensures hasToc == HasToc(content)
    ensures processed == StripMarkers(content)
    ensures |processed| == |content| - 5 * MarkerCount(content)
  {
    headings := ExtractHeadings(content);
    hasToc := HasToc(content);
    processed := StripMarkers(content);
    StripMarkersLength(content);
  }
}
