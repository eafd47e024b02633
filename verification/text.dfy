/**
 * String primitives with Python's meaning, restricted to ASCII where Python would
 * consult Unicode tables: character classes, case mapping, `strip`, `in`,
 * `join`, `replace`, `splitlines` and splitting on runs of non-word characters.
 */
module Text {

  // ---------------------------------------------------------------- classes

  /** Whitespace as `str.isspace` and the regex class `\s` see it, in the ASCII range. */
  predicate IsSpace(c: char) {
    c == ' ' || ('\t' <= c <= '\r') || ('\U{1C}' <= c <= '\U{1F}')
  }

  predicate IsDigit(c: char) {
    '0' <= c <= '9'
  }

  predicate IsLetter(c: char) {
    'a' <= c <= 'z' || 'A' <= c <= 'Z'
  }

  /** The regex class `\w`; its complement is `\W`. */
  predicate IsWordChar(c: char) {
    IsLetter(c) || IsDigit(c) || c == '_'
  }

  /** The class `[A-Z0-9_]` that indicator codes are written in; upper case only. */
  predicate IsCodeChar(c: char) {
    'A' <= c <= 'Z' || IsDigit(c) || c == '_'
  }

  /** The characters at which `str.splitlines` ends a line. */
  predicate IsLineBreak(c: char) {
    c == '\n' || c == '\r' || c == '\U{0B}' || c == '\U{0C}' || c == '\U{1C}' || c == '\U{1D}'
    || c == '\U{1E}' || c == '\U{85}' || c == '\U{2028}' || c == '\U{2029}'
  }

  /** Every character of s satisfies p. */
  predicate All(s: string, p: char -> bool) {
    forall k :: 0 <= k < |s| ==> p(s[k])
  }

  /** Nothing but whitespace: `not s.strip()`. */
  predicate Blank(s: string) {
    All(s, IsSpace)
  }

  // ---------------------------------------------------------------- case

  function LowerChar(c: char): char {
    if 'A' <= c <= 'Z' then (c as int + 32) as char else c
  }

  function UpperChar(c: char): char {
    if 'a' <= c <= 'z' then (c as int - 32) as char else c
  }

  /** `str.lower` on ASCII letters. */
  function Lower(s: string): (r: string)
    ensures |r| == |s|
  {
    seq(|s|, i requires 0 <= i < |s| => LowerChar(s[i]))
  }

  /** `str.upper` on ASCII letters. */
  function Upper(s: string): (r: string)
    ensures |r| == |s|
  {
    seq(|s|, i requires 0 <= i < |s| => UpperChar(s[i]))
  }

  /** `str.capitalize`: first character upper case, the rest lower case. */
  function Capitalize(s: string): (r: string)
    ensures |r| == |s|
  {
    if s == [] then [] else [UpperChar(s[0])] + Lower(s[1..])
  }

  // ---------------------------------------------------------------- spans

  /** The end of the longest run of characters satisfying p that starts at i. */
  function Span(s: string, i: nat, p: char -> bool): (j: nat)
    requires i <= |s|
    ensures i <= j <= |s|
    decreases |s| - i
  {
    if i < |s| && p(s[i]) then Span(s, i + 1, p) else i
  }

  /** Span stops at the first character, from i on, that does not satisfy p. */
  lemma {:induction false} SpanStops(s: string, i: nat, p: char -> bool)
    requires i <= |s|
    ensures forall k :: i <= k < Span(s, i, p) ==> p(s[k])
    ensures Span(s, i, p) == |s| || !p(s[Span(s, i, p)])
    decreases |s| - i
  {
    if i < |s| && p(s[i]) {
      SpanStops(s, i + 1, p);
    }
  }

  /** What Span runs over satisfies p throughout. */
  lemma SpanRun(s: string, i: nat, p: char -> bool)
    requires i <= |s|
    ensures All(s[i..Span(s, i, p)], p)
  {
    SpanStops(s, i, p);
    assert forall k :: 0 <= k < Span(s, i, p) - i ==> s[i..Span(s, i, p)][k] == s[i + k];
  }

  /** The start of the longest run of characters satisfying p that ends at j, not going below lo. */
  function BackSpan(s: string, lo: nat, j: nat, p: char -> bool): (i: nat)
    requires lo <= j <= |s|
    ensures lo <= i <= j
    ensures forall k :: i <= k < j ==> p(s[k])
    ensures i == lo || !p(s[i - 1])
    decreases j
  {
    if j > lo && p(s[j - 1]) then BackSpan(s, lo, j - 1, p) else j
  }

  // ---------------------------------------------------------------- strip

  /** `str.strip()`: drop leading and trailing whitespace. */
  function Strip(s: string): (r: string)
    ensures |r| <= |s|
    ensures r == [] <==> Blank(s)
    ensures r != [] ==> !IsSpace(r[0]) && !IsSpace(r[|r| - 1])
  {
    var a := Span(s, 0, IsSpace);
    SpanStops(s, 0, IsSpace);
    var b := BackSpan(s, a, |s|, IsSpace);
    assert a < b ==> s[a..b][0] == s[a] && s[a..b][b - a - 1] == s[b - 1];
    s[a..b]
  }

  /** A string without whitespace at either end is its own strip. */
  lemma StripTrimmed(s: string)
    requires s == [] || (!IsSpace(s[0]) && !IsSpace(s[|s| - 1]))
    ensures Strip(s) == s
  {
    if s != [] {
      var a := Span(s, 0, IsSpace);
      assert a == 0;
      var b := BackSpan(s, a, |s|, IsSpace);
      assert b == |s|;
    }
  }

  // ---------------------------------------------------------------- substrings

  /** t occurs in s starting at position i. */
  predicate OccursAt(s: string, t: string, i: int) {
    0 <= i && i + |t| <= |s| && s[i..i + |t|] == t
  }

  /** Python's `t in s`. */
  predicate Contains(s: string, t: string) {
    exists i | 0 <= i <= |s| - |t| :: OccursAt(s, t, i)
  }

  /** Case-insensitive containment (the `case=False` of pandas' `str.contains`). */
  predicate IContains(s: string, t: string) {
    Contains(Lower(s), Lower(t))
  }

  /** s begins with t. */
  predicate StartsWith(s: string, t: string) {
    |t| <= |s| && s[..|t|] == t
  }

  /** An occurrence inside a suffix is an occurrence in the whole string. */
  lemma OccursInSuffix(s: string, lo: nat, t: string, i: int)
    requires lo <= |s|
    requires OccursAt(s[lo..], t, i)
    ensures OccursAt(s, t, lo + i)
  {
    assert s[lo..] == s[lo..|s|];
    OccursInSlice(s, lo, |s|, t, i);
  }

  /** What occurs in a part of s occurs in s. */
  lemma ContainsTransitive(s: string, t: string, u: string)
    requires Contains(s, t) && Contains(t, u)
    ensures Contains(s, u)
  {
    var i :| 0 <= i <= |s| - |t| && OccursAt(s, t, i);
    var j :| 0 <= j <= |t| - |u| && OccursAt(t, u, j);
    forall k | 0 <= k < |u| ensures s[i + j + k] == u[k] {
      OccurrenceChar(s, t, i, i + j + k);
      OccurrenceChar(t, u, j, j + k);
    }
    assert s[i + j..i + j + |u|] == u;
    assert OccursAt(s, u, i + j);
  }

  /** An occurrence inside a slice is an occurrence in the whole string. */
  lemma OccursInSlice(s: string, lo: nat, hi: nat, t: string, i: int)
    requires lo <= hi <= |s|
    requires OccursAt(s[lo..hi], t, i)
    ensures OccursAt(s, t, lo + i)
  {
    var u := s[lo..hi];
    forall k | 0 <= k < |t| ensures s[lo + i + k] == t[k] {
      assert u[i..i + |t|][k] == t[k];
    }
    assert s[lo + i..lo + i + |t|] == t;
  }

  /** Stripping keeps every occurrence of a string that has no whitespace at its ends. */
  lemma StripKeepsOccurrence(s: string, t: string)
    requires Contains(s, t)
    requires t != [] && !IsSpace(t[0]) && !IsSpace(t[|t| - 1])
    ensures Contains(Strip(s), t)
  {
    var i :| 0 <= i <= |s| - |t| && OccursAt(s, t, i);
    var a := Span(s, 0, IsSpace);
    SpanStops(s, 0, IsSpace);
    var b := BackSpan(s, a, |s|, IsSpace);
    assert s[i] == t[0];
    assert s[i + |t| - 1] == t[|t| - 1];
    assert a <= i;
    assert i + |t| <= b;
    var r := s[a..b];
    assert r == Strip(s);
    forall k | 0 <= k < |t| ensures r[i - a + k] == t[k] {
      assert r[i - a + k] == s[i + k];
      OccurrenceChar(s, t, i, i + k);
    }
    assert r[i - a..i - a + |t|] == t;
    assert OccursAt(Strip(s), t, i - a);
  }

  // ---------------------------------------------------------------- join

  /** `sep.join(xs)`. */
  function Join(sep: string, xs: seq<string>): string {
    if |xs| == 0 then "" else if |xs| == 1 then xs[0] else xs[0] + sep + Join(sep, xs[1..])
  }

  // ---------------------------------------------------------------- replace

  /** What the first of the joined strings holds, the joined text holds. */
  lemma JoinHoldsFirst(sep: string, xs: seq<string>, t: string)
    requires xs != [] && Contains(xs[0], t)
    ensures Contains(Join(sep, xs), t)
  {
    var s := Join(sep, xs);
    var i :| 0 <= i <= |xs[0]| - |t| && OccursAt(xs[0], t, i);
    assert s[0..|xs[0]|] == xs[0];
    OccursInSlice(s, 0, |xs[0]|, t, i);
  }

  /** `s.replace(pat, rep)`: every non-overlapping occurrence, scanning from the left. */
  function Replace(s: string, pat: string, rep: string): string
    decreases |s|
  {
    if |pat| == 0 then
      // Python inserts rep before every character and at the end
      if s == [] then rep else rep + [s[0]] + Replace(s[1..], pat, rep)
    else if |s| < |pat| then s
    else if s[..|pat|] == pat then rep + Replace(s[|pat|..], pat, rep)
    else [s[0]] + Replace(s[1..], pat, rep)
  }

  /** s with every occurrence of the character c removed. */
  function Erase(c: char, s: string): (r: string)
    ensures c !in r
  {
    if s == [] then [] else (if s[0] == c then [] else [s[0]]) + Erase(c, s[1..])
  }

  lemma {:induction false} EraseAppend(c: char, a: string, b: string)
    ensures Erase(c, a + b) == Erase(c, a) + Erase(c, b)
  {
    if a == [] {
      assert a + b == b;
    } else {
      assert (a + b)[0] == a[0];
      assert (a + b)[1..] == a[1..] + b;
      EraseAppend(c, a[1..], b);
    }
  }

  /**
   * Replacing pat by a rep that differs from pat only in copies of c leaves
   * the text unchanged once every c is erased: replacement only adds markers.
   */
  lemma {:induction false} ReplaceOnlyAddsMarkers(c: char, s: string, pat: string, rep: string)
    requires Erase(c, rep) == Erase(c, pat)
    ensures Erase(c, Replace(s, pat, rep)) == Erase(c, s)
    decreases |s|
  {
    if |pat| == 0 {
      if s != [] {
        ReplaceOnlyAddsMarkers(c, s[1..], pat, rep);
        MarkersBeforeChar(c, s, rep, Replace(s[1..], pat, rep));
      }
    } else if |s| < |pat| {
    } else if s[..|pat|] == pat {
      ReplaceOnlyAddsMarkers(c, s[|pat|..], pat, rep);
      MarkersForMatch(c, pat, s[|pat|..], rep, Replace(s[|pat|..], pat, rep));
      assert s == pat + s[|pat|..];
    } else {
      ReplaceOnlyAddsMarkers(c, s[1..], pat, rep);
      MarkersAfterChar(c, s, Replace(s[1..], pat, rep));
    }
  }

  /** The step of ReplaceOnlyAddsMarkers for an empty pattern. */
  lemma MarkersBeforeChar(c: char, s: string, rep: string, rest: string)
    requires s != [] && Erase(c, rep) == [] && Erase(c, rest) == Erase(c, s[1..])
    ensures Erase(c, rep + [s[0]] + rest) == Erase(c, s)
  {
    EraseAppend(c, rep + [s[0]], rest);
    EraseAppend(c, rep, [s[0]]);
    EraseAppend(c, [s[0]], s[1..]);
    assert s == [s[0]] + s[1..];
  }

  /** The step of ReplaceOnlyAddsMarkers where the pattern occurs at the front. */
  lemma MarkersForMatch(c: char, front: string, back: string, rep: string, rest: string)
    requires Erase(c, rep) == Erase(c, front) && Erase(c, rest) == Erase(c, back)
    ensures Erase(c, rep + rest) == Erase(c, front + back)
  {
    EraseAppend(c, front, back);
    EraseAppend(c, rep, rest);
  }

  /** The step of ReplaceOnlyAddsMarkers where the front character is kept. */
  lemma MarkersAfterChar(c: char, s: string, rest: string)
    requires s != [] && Erase(c, rest) == Erase(c, s[1..])
    ensures Erase(c, [s[0]] + rest) == Erase(c, s)
  {
    EraseAppend(c, [s[0]], rest);
    EraseAppend(c, [s[0]], s[1..]);
    assert s == [s[0]] + s[1..];
  }

  /** Where pat occurs, its replacement occurs in the result. */
  lemma {:induction false} ReplaceShowsReplacement(s: string, pat: string, rep: string)
    requires pat != [] && Contains(s, pat)
    ensures Contains(Replace(s, pat, rep), rep)
    decreases |s|
  {
    var i :| 0 <= i <= |s| - |pat| && OccursAt(s, pat, i);
    if s[..|pat|] == pat {
      assert OccursAt(Replace(s, pat, rep), rep, 0);
    } else {
      assert i > 0;
      assert s[1..][i - 1..i - 1 + |pat|] == s[i..i + |pat|];
      assert OccursAt(s[1..], pat, i - 1);
      ReplaceShowsReplacement(s[1..], pat, rep);
      var r := Replace(s[1..], pat, rep);
      var j :| 0 <= j <= |r| - |rep| && OccursAt(r, rep, j);
      assert ([s[0]] + r)[j + 1..j + 1 + |rep|] == r[j..j + |rep|];
      assert OccursAt([s[0]] + r, rep, j + 1);
    }
  }

  /** Replacing one character by another swaps it in place, position by position. */
  lemma {:induction false} ReplaceOneChar(s: string, a: char, b: char)
    ensures |Replace(s, [a], [b])| == |s|
    ensures forall k :: 0 <= k < |s| ==> Replace(s, [a], [b])[k] == if s[k] == a then b else s[k]
    decreases |s|
  {
    if s != [] {
      ReplaceOneChar(s[1..], a, b);
      var rest := Replace(s[1..], [a], [b]);
      assert s[..1] == [s[0]];
      assert Replace(s, [a], [b]) == [if s[0] == a then b else s[0]] + rest;
    }
  }

  // ---------------------------------------------------------------- lines

  /** `str.splitlines()`: "\r\n" ends one line, a final line break adds no empty line. */
  function SplitLines(s: string): (lines: seq<string>)
    ensures s != [] ==> lines != []
    decreases |s|
  {
    if s == [] then []
    else
      var k, width := FirstBreak(s).0, FirstBreak(s).1;
      if k == |s| then [s] else [s[..k]] + SplitLines(s[k + width..])
  }

  /** Some line of the list contains t. */
  predicate SomeLineContains(lines: seq<string>, t: string) {
    exists j :: 0 <= j < |lines| && Contains(lines[j], t)
  }

  lemma OccurrenceChar(s: string, t: string, i: int, j: int)
    requires OccursAt(s, t, i) && i <= j < i + |t|
    ensures s[j] == t[j - i]
  {
    assert s[i..i + |t|][j - i] == s[j];
  }

  /** An occurrence of a break-free t in s lies wholly before or wholly after a line break. */
  lemma OccurrenceAvoidsBreak(s: string, t: string, k: nat, width: nat)
    requires Contains(s, t) && t != []
    requires forall j :: 0 <= j < |t| ==> !IsLineBreak(t[j])
    requires 1 <= width <= 2 && k + width <= |s|
    requires forall j :: k <= j < k + width ==> IsLineBreak(s[j])
    ensures Contains(s[..k], t) || Contains(s[k + width..], t)
  {
    var i :| 0 <= i <= |s| - |t| && OccursAt(s, t, i);
    if i + |t| <= k {
      assert s[..k][i..i + |t|] == s[i..i + |t|];
      assert OccursAt(s[..k], t, i);
    } else if i < k + width {
      OccurrenceChar(s, t, i, if i <= k then k else i);
      assert false;
    } else {
      assert s[k + width..][i - k - width..i - k - width + |t|] == s[i..i + |t|];
      assert OccursAt(s[k + width..], t, i - k - width);
    }
  }

  /** The position of the first line break of s (|s| when there is none) and its width. */
  function FirstBreak(s: string): (kw: (nat, nat))
    ensures kw.0 <= |s|
    ensures forall j :: 0 <= j < kw.0 ==> !IsLineBreak(s[j])
    ensures kw.0 == |s| ==> kw.1 == 0
    ensures kw.0 < |s| ==> 1 <= kw.1 <= 2 && kw.0 + kw.1 <= |s|
    ensures forall j :: kw.0 <= j < kw.0 + kw.1 ==> IsLineBreak(s[j])
  {
    var notBreak := (c: char) => !IsLineBreak(c);
    var k := Span(s, 0, notBreak);
    SpanStops(s, 0, notBreak);
    if k == |s| then (k, 0)
    else (k, if s[k] == '\r' && k + 1 < |s| && s[k + 1] == '\n' then 2 else 1)
  }

  /** A break-free t that occurs in a text occurs in one of its lines. */
  lemma {:induction false} ContainsInSomeLine(s: string, t: string)
    requires t != [] && Contains(s, t)
    requires forall k :: 0 <= k < |t| ==> !IsLineBreak(t[k])
    ensures SomeLineContains(SplitLines(s), t)
    decreases |s|
  {
    var k, width := FirstBreak(s).0, FirstBreak(s).1;
    var lines := SplitLines(s);
    if k == |s| {
      assert lines == [s];
      assert Contains(lines[0], t);
    } else {
      var rest := s[k + width..];
      var tail := SplitLines(rest);
      assert lines == [s[..k]] + tail;
      OccurrenceAvoidsBreak(s, t, k, width);
      if Contains(s[..k], t) {
        assert Contains(lines[0], t);
      } else {
        ContainsInSomeLine(rest, t);
        var j :| 0 <= j < |tail| && Contains(tail[j], t);
        assert lines[j + 1] == tail[j];
      }
    }
  }

  /** What occurs in a line of a text occurs in the text. */
  lemma {:induction false} SomeLineInContains(s: string, t: string)
    requires SomeLineContains(SplitLines(s), t)
    ensures Contains(s, t)
    decreases |s|
  {
    var k, width := FirstBreak(s).0, FirstBreak(s).1;
    var lines := SplitLines(s);
    var j :| 0 <= j < |lines| && Contains(lines[j], t);
    if k == |s| {
      assert lines == [s];
    } else {
      var rest := s[k + width..];
      var tail := SplitLines(rest);
      assert lines == [s[..k]] + tail;
      if j == 0 {
        var i :| 0 <= i <= |lines[0]| - |t| && OccursAt(lines[0], t, i);
        assert lines[0] == s[0..k];
        OccursInSlice(s, 0, k, t, i);
      } else {
        assert tail[j - 1] == lines[j];
        assert SomeLineContains(tail, t);
        SomeLineInContains(rest, t);
        var i :| 0 <= i <= |rest| - |t| && OccursAt(rest, t, i);
        assert rest == s[k + width..|s|];
        OccursInSlice(s, k + width, |s|, t, i);
      }
    }
  }

  // ---------------------------------------------------------------- words

  /** The maximal runs of word characters, in order: `re.split(r"\W+", s)` without its empty pieces. */
  function WordRuns(s: string): (ws: seq<string>)
    ensures forall w :: w in ws ==> w != [] && All(w, IsWordChar) && Contains(s, w)
    decreases |s|
  {
    if s == [] then []
    else if !IsWordChar(s[0]) then
      var ws := WordRuns(s[1..]);
      assert forall w :: w in ws ==> Contains(s, w) by {
        forall w | w in ws ensures Contains(s, w) {
          var i :| 0 <= i <= |s[1..]| - |w| && OccursAt(s[1..], w, i);
          OccursInSuffix(s, 1, w, i);
        }
      }
      ws
    else
      var n := Span(s, 0, IsWordChar);
      SpanStops(s, 0, IsWordChar);
      var ws := WordRuns(s[n..]);
      assert OccursAt(s, s[..n], 0);
      assert forall w :: w in ws ==> Contains(s, w) by {
        forall w | w in ws ensures Contains(s, w) {
          var i :| 0 <= i <= |s[n..]| - |w| && OccursAt(s[n..], w, i);
          OccursInSuffix(s, n, w, i);
        }
      }
      [s[..n]] + ws
  }

  /** s[i..j] is a maximal run of word characters: word characters only, with none just before or just after. */
  predicate MaximalWordRun(s: string, i: nat, j: nat) {
    i < j <= |s| && (forall k :: i <= k < j ==> IsWordChar(s[k]))
    && (i == 0 || !IsWordChar(s[i - 1])) && (j == |s| || !IsWordChar(s[j]))
  }

  /** Dropping a prefix of d characters shifts the runs that do not touch the cut by d. */
  lemma MaximalWordRunShift(s: string, d: nat, i: nat, j: nat)
    requires 0 < d <= |s| && (i > 0 || !IsWordChar(s[d - 1]))
    ensures MaximalWordRun(s[d..], i, j) <==> MaximalWordRun(s, d + i, d + j)
    ensures i <= j <= |s| - d ==> s[d..][i..j] == s[d + i..d + j]
  {
    var t := s[d..];
    assert forall k :: 0 <= k < |t| ==> t[k] == s[d + k];
    if MaximalWordRun(s, d + i, d + j) {
      assert forall k :: i <= k < j ==> IsWordChar(t[k]) by {
        forall k | i <= k < j ensures IsWordChar(t[k]) {
          assert t[k] == s[d + k];
        }
      }
    }
  }

  /** The runs WordRuns finds are exactly the maximal runs of word characters. */
  lemma {:induction false} WordRunsExact(s: string)
    ensures forall w :: w in WordRuns(s) <==> exists i: nat, j: nat :: MaximalWordRun(s, i, j) && w == s[i..j]
    decreases |s|
  {
    if s == [] {
    } else if !IsWordChar(s[0]) {
      WordRunsSkipNonWord(s);
    } else {
      WordRunsTakeRun(s);
    }
  }

  /** A leading non-word character starts no run, and the runs after it are those of the rest. */
  lemma {:induction false} WordRunsSkipNonWord(s: string)
    requires s != [] && !IsWordChar(s[0])
    ensures forall w :: w in WordRuns(s) <==> exists i: nat, j: nat :: MaximalWordRun(s, i, j) && w == s[i..j]
    decreases |s|, 0
  {
    var t := s[1..];
    WordRunsExact(t);
    assert WordRuns(s) == WordRuns(t);
    forall w ensures w in WordRuns(s) <==> exists i: nat, j: nat :: MaximalWordRun(s, i, j) && w == s[i..j] {
      if w in WordRuns(s) {
        var i: nat, j: nat :| MaximalWordRun(t, i, j) && w == t[i..j];
        MaximalWordRunShift(s, 1, i, j);
      }
      if exists i: nat, j: nat :: MaximalWordRun(s, i, j) && w == s[i..j] {
        var i: nat, j: nat :| MaximalWordRun(s, i, j) && w == s[i..j];
        MaximalWordRunShift(s, 1, i - 1, j - 1);
      }
    }
  }

  /** A leading run of word characters is the first run, and the later runs are those after it. */
  lemma {:induction false} WordRunsTakeRun(s: string)
    requires s != [] && IsWordChar(s[0])
    ensures forall w :: w in WordRuns(s) <==> exists i: nat, j: nat :: MaximalWordRun(s, i, j) && w == s[i..j]
    decreases |s|, 0
  {
    var n := Span(s, 0, IsWordChar);
    SpanStops(s, 0, IsWordChar);
    var t := s[n..];
    WordRunsExact(t);
    assert WordRuns(s) == [s[..n]] + WordRuns(t);
    assert MaximalWordRun(s, 0, n) && s[..n] == s[0..n];
    forall w ensures w in WordRuns(s) <==> exists i: nat, j: nat :: MaximalWordRun(s, i, j) && w == s[i..j] {
      if w in WordRuns(t) {
        RunAfterLeadingRun(s, n, w);
      }
      if exists i: nat, j: nat :: MaximalWordRun(s, i, j) && w == s[i..j] {
        RunLeadingOrAfter(s, n, w);
      }
    }
  }

  /** A run of what follows the leading run s[0..n] is a run of s. */
  lemma RunAfterLeadingRun(s: string, n: nat, w: string)
    requires 0 < n <= |s| && IsWordChar(s[n - 1]) && (n == |s| || !IsWordChar(s[n]))
    requires exists i: nat, j: nat :: MaximalWordRun(s[n..], i, j) && w == s[n..][i..j]
    ensures exists i: nat, j: nat :: MaximalWordRun(s, i, j) && w == s[i..j]
  {
    var i: nat, j: nat :| MaximalWordRun(s[n..], i, j) && w == s[n..][i..j];
    MaximalWordRunShift(s, n, i, j);
  }

  /** A run of s is the leading run s[0..n] or a run of what follows it. */
  lemma RunLeadingOrAfter(s: string, n: nat, w: string)
    requires 0 < n <= |s| && (forall k :: 0 <= k < n ==> IsWordChar(s[k])) && (n == |s| || !IsWordChar(s[n]))
    requires exists i: nat, j: nat :: MaximalWordRun(s, i, j) && w == s[i..j]
    ensures w == s[..n] || exists i: nat, j: nat :: MaximalWordRun(s[n..], i, j) && w == s[n..][i..j]
  {
    var i: nat, j: nat :| MaximalWordRun(s, i, j) && w == s[i..j];
    if i < n {
      RunInLeadingRun(s, n, i, j);
    } else {
      assert IsWordChar(s[n - 1]);
      MaximalWordRunShift(s, n, i - n, j - n);
    }
  }

  /** A run that starts inside the leading run s[0..n] is that run. */
  lemma RunInLeadingRun(s: string, n: nat, i: nat, j: nat)
    requires 0 < n <= |s| && (forall k :: 0 <= k < n ==> IsWordChar(s[k])) && (n == |s| || !IsWordChar(s[n]))
    requires MaximalWordRun(s, i, j) && i < n
    ensures i == 0 && j == n
  {
  }

  /** The words of length more than three, in order. */
  function LongWords(ws: seq<string>): (r: seq<string>)
    ensures forall w :: w in r <==> w in ws && |w| > 3
  {
    if ws == [] then []
    else (if |ws[0]| > 3 then [ws[0]] else []) + LongWords(ws[1..])
  }
}
