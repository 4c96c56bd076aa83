/**
 * The heading-id expression of the preview:
 *   text.toLowerCase().replace(/[^\w\s一-龥-]/g, '').replace(/\s+/g, '-')
 * Lower-casing is the ASCII part of `toLowerCase`.
 */
module SlugGenerator {
  import opened JsString

  predicate IsUpperAscii(c: char) {
    'A' <= c <= 'Z'
  }

  /** `\w`: ASCII letters, digits and underscore. */
  predicate IsWordChar(c: char) {
    'A' <= c <= 'Z' || 'a' <= c <= 'z' || '0' <= c <= '9' || c == '_'
  }

  /** The ideograph range U+4E00 to U+9FA5 that the character class keeps. */
  predicate IsCjk(c: char) {
    0x4E00 <= c as int <= 0x9FA5
  }

  /** The characters `[\w\s一-龥-]` keeps. */
  predicate IsKept(c: char) {
    IsWordChar(c) || IsSpace(c) || IsCjk(c) || c == '-'
  }

  /** What an id may be made of: lower-case ASCII letters, digits, `_`, the ideograph range and `-`. */
  predicate IsSlugChar(c: char) {
    'a' <= c <= 'z' || '0' <= c <= '9' || c == '_' || IsCjk(c) || c == '-'
  }

  function LowerChar(c: char): (r: char)
    ensures !IsUpperAscii(r)
    ensures !IsUpperAscii(c) ==> r == c
  {
    if IsUpperAscii(c) then (c as int + 32) as char else c
  }

  /**
   * ASCII `toLowerCase`: no upper-case letter is left, each one is moved to its
   * lower-case partner, and every other character is kept.
   */
  function ToLower(s: string): (r: string)
    ensures |r| == |s|
    ensures forall i :: 0 <= i < |s| ==> !IsUpperAscii(r[i])
    ensures forall i :: 0 <= i < |s| ==> !IsUpperAscii(s[i]) ==> r[i] == s[i]
    ensures forall i :: 0 <= i < |s| ==> IsUpperAscii(s[i]) ==> r[i] as int - s[i] as int == 'a' as int - 'A' as int
  {
    seq(|s|, i requires 0 <= i < |s| => LowerChar(s[i]))
  }

  /** `replace(/[^\w\s一-龥-]/g, '')`: the kept characters of `s`, in order. */
  function StripDisallowed(s: string): (r: string)
    ensures |r| <= |s|
  {
    if s == [] then []
    else
      var rest := StripDisallowed(s[1..]);
      if IsKept(s[0]) then [s[0]] + rest else rest
  }

  /**
   * `replace(/\s+/g, '-')`: every maximal whitespace run becomes one `-`. Read left
   * to right, a whitespace character followed by another is dropped, and the last
   * one of a run is replaced.
   */
  function CollapseSpaces(s: string): string {
    if s == [] then []
    else if IsSpace(s[0]) then
      (if |s| > 1 && IsSpace(s[1]) then CollapseSpaces(s[1..]) else "-" + CollapseSpaces(s[1..]))
    else [s[0]] + CollapseSpaces(s[1..])
  }

  /** What stripping leaves is kept characters only. */
  lemma {:induction false} StripKept(s: string)
    ensures forall i :: 0 <= i < |StripDisallowed(s)| ==> IsKept(StripDisallowed(s)[i])
  {
    if s != [] {
      StripKept(s[1..]);
    }
  }

  /** Collapsing leaves no whitespace. */
  lemma {:induction false} CollapseNoSpace(s: string)
    ensures forall i :: 0 <= i < |CollapseSpaces(s)| ==> !IsSpace(CollapseSpaces(s)[i])
  {
    if s != [] {
      CollapseNoSpace(s[1..]);
    }
  }

  /** Stripping only removes characters. */
  lemma {:induction false} StripFrom(s: string)
    ensures forall c :: c in StripDisallowed(s) ==> c in s
  {
    if s != [] {
      StripFrom(s[1..]);
    }
  }

  /** Collapsing only adds `-`. */
  lemma {:induction false} CollapseFrom(s: string)
    ensures forall c :: c in CollapseSpaces(s) ==> c == '-' || c in s
  {
    if s != [] {
      CollapseFrom(s[1..]);
    }
  }

  /** The anchor id of a heading text. */
  function Slug(text: string): string {
    CollapseSpaces(StripDisallowed(ToLower(text)))
  }

  /** An id holds no whitespace, and only lower-case letters, digits, `_`, ideographs and `-`. */
  lemma SlugChars(text: string)
    ensures forall i :: 0 <= i < |Slug(text)| ==> IsSlugChar(Slug(text)[i]) && !IsSpace(Slug(text)[i])
  {
    var lower := ToLower(text);
    var kept := StripDisallowed(lower);
    forall c | c in lower ensures !IsUpperAscii(c) {
      var i :| 0 <= i < |lower| && lower[i] == c;
    }
    StripFrom(lower);
    CollapseFrom(kept);
    CollapseNoSpace(kept);
    StripKept(lower);
    forall i | 0 <= i < |Slug(text)| ensures IsSlugChar(Slug(text)[i]) {
      var c := Slug(text)[i];
      assert c in CollapseSpaces(kept);
      if c != '-' {
        assert c in kept;
        var j :| 0 <= j < |kept| && kept[j] == c;
      }
    }
  }

  lemma {:induction false} ToLowerFixes(s: string)
    requires forall i :: 0 <= i < |s| ==> IsSlugChar(s[i])
    ensures ToLower(s) == s
  {
  }

  lemma {:induction false} StripFixes(s: string)
    requires forall i :: 0 <= i < |s| ==> IsSlugChar(s[i])
    ensures StripDisallowed(s) == s
  {
    if s != [] {
      StripFixes(s[1..]);
      assert [s[0]] + s[1..] == s;
    }
  }

  lemma {:induction false} CollapseFixes(s: string)
    requires forall i :: 0 <= i < |s| ==> !IsSpace(s[i])
    ensures CollapseSpaces(s) == s
  {
    if s != [] {
      CollapseFixes(s[1..]);
      assert [s[0]] + s[1..] == s;
    }
  }

  /** A text made only of id characters is its own id. */
  lemma SlugFixesSlugs(s: string)
    requires forall i :: 0 <= i < |s| ==> IsSlugChar(s[i])
    ensures Slug(s) == s
  {
    ToLowerFixes(s);
    StripFixes(s);
    CollapseFixes(s);
  }

  /** Slugging an id changes nothing. */
  lemma SlugIdempotent(text: string)
    ensures Slug(Slug(text)) == Slug(text)
  {
    SlugChars(text);
    SlugFixesSlugs(Slug(text));
  }

  /** A word of ASCII letters is slugged by lower-casing it. */
  lemma SlugLowerWord(word: string, lower: string)
    requires |lower| == |word|
    requires forall i :: 0 <= i < |word| ==> ('A' <= word[i] <= 'Z' || 'a' <= word[i] <= 'z') && lower[i] == LowerChar(word[i])
    ensures Slug(word) == lower
  {
    assert ToLower(word) == lower;
    SlugFixesSlugs(lower);
    assert forall i :: 0 <= i < |lower| ==> IsSlugChar(lower[i]);
    StripFixes(lower);
    CollapseFixes(lower);
  }

  /** A whitespace run followed by a non-whitespace character becomes one `-`. */
  lemma {:induction false} CollapseRun(w: string, y: string)
    requires |w| >= 1 && AllSpace(w) && (y == [] || !IsSpace(y[0]))
    ensures CollapseSpaces(w + y) == "-" + CollapseSpaces(y)
  {
    assert (w + y)[1..] == w[1..] + y;
    if |w| > 1 {
      CollapseRun(w[1..], y);
    }
  }

  /** The text before the first whitespace run is kept, and the run becomes one `-`. */
  lemma {:induction false} CollapseAfterWord(x: string, w: string, y: string)
    requires forall i :: 0 <= i < |x| ==> !IsSpace(x[i])
    requires |w| >= 1 && AllSpace(w) && (y == [] || !IsSpace(y[0]))
    ensures CollapseSpaces(x + w + y) == x + "-" + CollapseSpaces(y)
  {
    if x == [] {
      assert x + w + y == w + y;
      CollapseRun(w, y);
    } else {
      assert (x + w + y)[1..] == x[1..] + w + y;
      CollapseAfterWord(x[1..], w, y);
      assert [x[0]] + x[1..] == x;
    }
  }

  /** Stripping works character by character. */
  lemma {:induction false} StripAppend(a: string, b: string)
    ensures StripDisallowed(a + b) == StripDisallowed(a) + StripDisallowed(b)
  {
    if a == [] {
      assert a + b == b;
    } else {
      assert (a + b)[1..] == a[1..] + b;
      StripAppend(a[1..], b);
    }
  }

  /** Lower-casing changes nothing in a text without upper-case letters. */
  lemma ToLowerNoUpper(s: string)
    requires forall i :: 0 <= i < |s| ==> !IsUpperAscii(s[i])
    ensures ToLower(s) == s
  {
  }

  /** Stripping a character that is not kept leaves nothing. */
  lemma StripDropsOne(c: char)
    requires !IsKept(c)
    ensures StripDisallowed([c]) == []
  {
    assert [c][1..] == [];
  }

  /**
   * Two id words around punctuation and a space, as in `a, b!`: the punctuation
   * is dropped and the space becomes `-`.
   */
  lemma SlugDropsPunctuation(x: string, p: char, y: string, q: char)
    requires forall i :: 0 <= i < |x| ==> IsSlugChar(x[i]) && x[i] != '-'
    requires forall i :: 0 <= i < |y| ==> IsSlugChar(y[i]) && y[i] != '-'
    requires !IsKept(p) && !IsKept(q)
    ensures Slug(x + [p] + " " + y + [q]) == x + "-" + y
  {
    var s := x + [p] + " " + y + [q];
    assert ToLower(s) == s by {
      ToLowerNoUpper(s);
    }
    assert StripDisallowed(s) == x + " " + y by {
      StripAppend(x + [p] + " " + y, [q]);
      StripAppend(x + [p] + " ", y);
      StripAppend(x + [p], " ");
      StripAppend(x, [p]);
      StripKeepsKept(x);
      StripKeepsKept(y);
      StripKeepsKept(" ");
      StripDropsOne(p);
      StripDropsOne(q);
    }
    CollapseAfterWord(x, " ", y);
    CollapseFixes(y);
  }

  lemma {:induction false} StripKeepsKept(s: string)
    requires forall i :: 0 <= i < |s| ==> IsKept(s[i])
    ensures StripDisallowed(s) == s
  {
    if s != [] {
      StripKeepsKept(s[1..]);
      assert [s[0]] + s[1..] == s;
    }
  }
}
