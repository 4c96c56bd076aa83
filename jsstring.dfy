/**
 * The JavaScript string built-ins the editor relies on, stated over `seq<char>`:
 * `substring` (with its clamping and swapping of indices), `startsWith`,
 * `includes`, the `\s` character class, `trim` and `split('\n')`.
 */
module JsString {

  datatype Option<T> = None | Some(value: T)

  /** An index as `substring` uses it: clamped to [0, n]. */
  function Clamp(i: int, n: nat): (r: nat)
    ensures r <= n
    ensures 0 <= i <= n ==> r == i
  {
    if i < 0 then 0 else if i > n then n else i
  }

  /** `s.substring(a, b)`: both indices are clamped to [0, |s|], and swapped if the first is larger. */
  function Substring(s: string, a: int, b: int): (r: string)
    ensures |r| <= |s|
  {
    var x, y := Clamp(a, |s|), Clamp(b, |s|);
    if x <= y then s[x..y] else s[y..x]
  }

  /** `s.substring(a)`: from the clamped index to the end. */
  function SubstringFrom(s: string, a: int): (r: string)
    ensures |r| <= |s|
  {
    Substring(s, a, |s|)
  }

  /** Within range, `substring` is the slice; in any case it is a slice of `s` between the clamped indices. */
  lemma SubstringIsSlice(s: string, a: int, b: int)
    ensures 0 <= a <= b <= |s| ==> Substring(s, a, b) == s[a..b]
    ensures Substring(s, a, b) == Substring(s, b, a)
    ensures Substring(s, a, b) == [] <==> Clamp(a, |s|) == Clamp(b, |s|)
  {
  }

  predicate StartsWith(s: string, t: string) {
    |t| <= |s| && s[..|t|] == t
  }

  /** `s.includes(t)`: `t` starts at some position of `s`. */
  predicate Includes(s: string, t: string)
    decreases |s|
  {
    StartsWith(s, t) || (|s| > 0 && Includes(s[1..], t))
  }

  /** `t` occurs in `s` at position `i`. */
  predicate OccursAt(s: string, t: string, i: int) {
    0 <= i && i + |t| <= |s| && s[i..i + |t|] == t
  }

  /** `includes` holds exactly when `t` occurs as a slice of `s`. */
  lemma {:induction false} IncludesAt(s: string, t: string)
    ensures Includes(s, t) <==> exists i :: OccursAt(s, t, i)
    decreases |s|
  {
    if Includes(s, t) {
      if StartsWith(s, t) {
        assert OccursAt(s, t, 0);
      } else {
        IncludesAt(s[1..], t);
        var i :| OccursAt(s[1..], t, i);
        assert s[i + 1..i + 1 + |t|] == s[1..][i..i + |t|];
        assert OccursAt(s, t, i + 1);
      }
    }
    if exists i :: OccursAt(s, t, i) {
      var i :| OccursAt(s, t, i);
      if i == 0 {
        assert StartsWith(s, t);
      } else {
        assert s[1..][i - 1..i - 1 + |t|] == s[i..i + |t|];
        assert OccursAt(s[1..], t, i - 1);
        IncludesAt(s[1..], t);
      }
    }
  }

  /** Only a string at least as long as `t` can include it. */
  lemma {:induction false} IncludesLength(s: string, t: string)
    requires Includes(s, t)
    ensures |t| <= |s|
    decreases |s|
  {
    if !StartsWith(s, t) {
      IncludesLength(s[1..], t);
    }
  }

  /** JavaScript's `\s`: the WhiteSpace and LineTerminator code points. `trim` removes the same set. */
  predicate IsSpace(c: char) {
    var n := c as int;
    (0x09 <= n <= 0x0D) || n == 0x20 || n == 0xA0 || n == 0x1680 || (0x2000 <= n <= 0x200A)
    || n == 0x2028 || n == 0x2029 || n == 0x202F || n == 0x205F || n == 0x3000 || n == 0xFEFF
  }

  /** The LineTerminator code points, which the regular-expression `.` does not match. */
  predicate IsLineTerminator(c: char) {
    var n := c as int;
    n == 0x0A || n == 0x0D || n == 0x2028 || n == 0x2029
  }

  lemma LineTerminatorIsSpace(c: char)
    ensures IsLineTerminator(c) ==> IsSpace(c)
  {
  }

  predicate AllSpace(s: string) {
    forall i :: 0 <= i < |s| ==> IsSpace(s[i])
  }

  predicate NoLineTerminator(s: string) {
    forall i :: 0 <= i < |s| ==> !IsLineTerminator(s[i])
  }

  /** `s` with its leading whitespace removed (`trimStart`). */
  function TrimStart(s: string): (r: string)
    ensures |r| <= |s|
  {
    if s != [] && IsSpace(s[0]) then TrimStart(s[1..]) else s
  }

  /** `trimStart` removes a whitespace prefix, all of it. */
  lemma {:induction false} TrimStartSpec(s: string)
    ensures TrimStart(s) == s[|s| - |TrimStart(s)|..]
    ensures AllSpace(s[..|s| - |TrimStart(s)|])
    ensures TrimStart(s) == [] || !IsSpace(TrimStart(s)[0])
  {
    if s != [] && IsSpace(s[0]) {
      TrimStartSpec(s[1..]);
      var r := TrimStart(s[1..]);
      assert s[1..][..|s[1..]| - |r|] == s[1..|s| - |r|];
    }
  }

  /** `s` with its trailing whitespace removed (`trimEnd`). */
  function TrimEnd(s: string): (r: string)
    ensures |r| <= |s|
  {
    if s != [] && IsSpace(s[|s| - 1]) then TrimEnd(s[..|s| - 1]) else s
  }

  /** `trimEnd` removes a whitespace suffix, all of it. */
  lemma {:induction false} TrimEndSpec(s: string)
    ensures TrimEnd(s) == s[..|TrimEnd(s)|]
    ensures AllSpace(s[|TrimEnd(s)|..])
    ensures TrimEnd(s) == [] || !IsSpace(TrimEnd(s)[|TrimEnd(s)| - 1])
  {
    if s != [] && IsSpace(s[|s| - 1]) {
      TrimEndSpec(s[..|s| - 1]);
      var r := TrimEnd(s[..|s| - 1]);
      assert s[..|s| - 1][|r|..] == s[|r|..|s| - 1];
      assert s[|r|..] == s[|r|..|s| - 1] + [s[|s| - 1]];
    }
  }

  /** `s.trim()`. */
  function Trim(s: string): (r: string)
    ensures |r| <= |s|
  {
    TrimEnd(TrimStart(s))
  }

  /** `trim` cuts out of `s` the slice after its leading whitespace, removing only whitespace around it. */
  lemma TrimSlice(s: string)
    ensures var i := |s| - |TrimStart(s)|;
      i + |Trim(s)| <= |s| && Trim(s) == s[i..i + |Trim(s)|] && AllSpace(s[..i]) && AllSpace(s[i + |Trim(s)|..])
  {
    var t := TrimStart(s);
    TrimStartSpec(s);
    TrimEndSpec(t);
    var i := |s| - |t|;
    assert s[i + |TrimEnd(t)|..] == t[|TrimEnd(t)|..];
  }

  /** What `trim` leaves neither starts nor ends with whitespace. */
  lemma TrimEnds(s: string)
    ensures Trim(s) == [] || (!IsSpace(Trim(s)[0]) && !IsSpace(Trim(s)[|Trim(s)| - 1]))
  {
    var t := TrimStart(s);
    TrimStartSpec(s);
    TrimEndSpec(t);
    if TrimEnd(t) != [] {
      assert TrimEnd(t)[0] == t[0];
    }
  }

  /** A text that neither starts nor ends with whitespace is its own trim. */
  lemma TrimFixes(c: string)
    requires c == [] || (!IsSpace(c[0]) && !IsSpace(c[|c| - 1]))
    ensures Trim(c) == c
  {
  }

  /** A text of whitespace only trims to nothing. */
  lemma {:induction false} TrimAllSpace(s: string)
    requires AllSpace(s)
    ensures Trim(s) == []
  {
    if s != [] {
      TrimAllSpace(s[1..]);
      assert TrimStart(s) == TrimStart(s[1..]);
    }
  }

  /** `s.split('\n')`: the pieces between newlines, always at least one. */
  function SplitLines(s: string): (lines: seq<string>)
    ensures |lines| >= 1
  {
    if s == [] then [""]
    else
      var rest := SplitLines(s[1..]);
      if s[0] == '\n' then [""] + rest
      else [[s[0]] + rest[0]] + rest[1..]
  }

  /** No piece holds a newline. */
  lemma {:induction false} SplitLinesNoNewline(s: string)
    ensures forall i :: 0 <= i < |SplitLines(s)| ==> '\n' !in SplitLines(s)[i]
  {
    if s != [] {
      SplitLinesNoNewline(s[1..]);
    }
  }

  /** `lines.join('\n')`. */
  function JoinLines(lines: seq<string>): string
    requires |lines| >= 1
  {
    if |lines| == 1 then lines[0] else lines[0] + "\n" + JoinLines(lines[1..])
  }

  /** Splitting loses nothing: joining the pieces with newlines gives the text back. */
  lemma {:induction false} JoinSplitLines(s: string)
    ensures JoinLines(SplitLines(s)) == s
  {
    if s != [] {
      var rest := SplitLines(s[1..]);
      JoinSplitLines(s[1..]);
      if s[0] != '\n' {
        var lines := SplitLines(s);
        if |rest| == 1 {
          assert lines == [[s[0]] + rest[0]];
        } else {
          assert lines[1..] == rest[1..];
          assert JoinLines(rest) == rest[0] + "\n" + JoinLines(rest[1..]);
        }
      }
    }
  }

  /** A newline-free string is one piece. */
  lemma {:induction false} SplitLinesSingle(x: string)
    requires '\n' !in x
    ensures SplitLines(x) == [x]
  {
    if x != [] {
      SplitLinesSingle(x[1..]);
      assert [x[0]] + x[1..] == x;
    }
  }

  /** A newline-free prefix ended by a newline becomes the first piece. */
  lemma {:induction false} SplitLinesCons(x: string, y: string)
    requires '\n' !in x
    ensures SplitLines(x + "\n" + y) == [x] + SplitLines(y)
  {
    if x == [] {
      assert x + "\n" + y == ['\n'] + y;
      assert (x + "\n" + y)[1..] == y;
    } else {
      assert (x + "\n" + y)[1..] == x[1..] + "\n" + y;
      SplitLinesCons(x[1..], y);
      assert [x[0]] + x[1..] == x;
    }
  }

  /** Splitting is the inverse of joining newline-free pieces: `split` and `join` are a bijection. */
  lemma {:induction false} SplitJoinLines(lines: seq<string>)
    requires |lines| >= 1
    requires forall i :: 0 <= i < |lines| ==> '\n' !in lines[i]
    ensures SplitLines(JoinLines(lines)) == lines
  {
    if |lines| == 1 {
      SplitLinesSingle(lines[0]);
    } else {
      SplitJoinLines(lines[1..]);
      SplitLinesCons(lines[0], JoinLines(lines[1..]));
    }
  }
}
