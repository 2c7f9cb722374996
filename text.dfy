/**
 * The string operations of Python that the checker relies on: `str.strip()`, the substring
 * test `in`, `str.splitlines()`, `'\n'.join(...)` and `str.split('\n')`.
 * Characters outside ASCII are never whitespace here; the line boundaries are all of those
 * `str.splitlines()` recognises.
 */
module Text {

  /** `str.isspace()` on ASCII characters; also the characters the regex class `\s` matches. */
  predicate IsSpace(c: char) {
    c == ' ' || c == '\t' || c == '\n' || c == '\r' || c == '\U{0B}' || c == '\U{0C}'
    || ('\U{1C}' <= c <= '\U{1F}')
  }

  /** The number of whitespace characters `s` starts with. */
  function LeadingSpaces(s: string): (n: nat)
    ensures n <= |s|
  {
    if s != [] && IsSpace(s[0]) then 1 + LeadingSpaces(s[1..]) else 0
  }

  /** The number of whitespace characters `s` ends with. */
  function TrailingSpaces(s: string): (n: nat)
    ensures n <= |s|
  {
    if s != [] && IsSpace(s[|s| - 1]) then 1 + TrailingSpaces(s[..|s| - 1]) else 0
  }

  /** `s` starts with exactly `LeadingSpaces(s)` whitespace characters. */
  lemma {:induction false} LeadingSpacesSpec(s: string)
    ensures forall k :: 0 <= k < LeadingSpaces(s) ==> IsSpace(s[k])
    ensures LeadingSpaces(s) < |s| ==> !IsSpace(s[LeadingSpaces(s)])
  {
    if s != [] && IsSpace(s[0]) {
      LeadingSpacesSpec(s[1..]);
    }
  }

  /** `s` ends with exactly `TrailingSpaces(s)` whitespace characters. */
  lemma {:induction false} TrailingSpacesSpec(s: string)
    ensures forall k :: |s| - TrailingSpaces(s) <= k < |s| ==> IsSpace(s[k])
    ensures TrailingSpaces(s) < |s| ==> !IsSpace(s[|s| - TrailingSpaces(s) - 1])
  {
    if s != [] && IsSpace(s[|s| - 1]) {
      TrailingSpacesSpec(s[..|s| - 1]);
    }
  }

  /** Leading and trailing whitespace do not overlap unless `s` is all whitespace. */
  lemma SpacesApart(s: string)
    requires LeadingSpaces(s) < |s|
    ensures LeadingSpaces(s) + TrailingSpaces(s) < |s|
  {
    LeadingSpacesSpec(s);
    TrailingSpacesSpec(s);
  }

  /** `s.strip()`: the part of `s` between its leading and its trailing whitespace. */
  function Strip(s: string): string {
    var i := LeadingSpaces(s);
    if i == |s| then []
    else
      SpacesApart(s);
      s[i..|s| - TrailingSpaces(s)]
  }

  /**
   * `strip()` keeps exactly the part of `s` that neither starts nor ends with whitespace and
   * that only whitespace surrounds.
   */
  lemma StripSpec(s: string)
    ensures var r := Strip(s);
      && LeadingSpaces(s) + |r| <= |s|
      && r == s[LeadingSpaces(s)..LeadingSpaces(s) + |r|]
      && (forall k :: 0 <= k < LeadingSpaces(s) ==> IsSpace(s[k]))
      && (forall k :: LeadingSpaces(s) + |r| <= k < |s| ==> IsSpace(s[k]))
      && (r != [] ==> !IsSpace(r[0]) && !IsSpace(r[|r| - 1]))
  {
    LeadingSpacesSpec(s);
    TrailingSpacesSpec(s);
    var r, i, n := Strip(s), LeadingSpaces(s), TrailingSpaces(s);
    if i < |s| {
      assert r == s[i..|s| - n];
      assert r[0] == s[i];
      assert r[|r| - 1] == s[|s| - n - 1];
    }
  }

  /** Text appended after a non-whitespace character does not change the leading whitespace. */
  lemma {:induction false} LeadingSpacesAppend(s: string, t: string)
    requires LeadingSpaces(s) < |s|
    ensures LeadingSpaces(s + t) == LeadingSpaces(s)
  {
    if IsSpace(s[0]) {
      assert (s + t)[1..] == s[1..] + t;
      LeadingSpacesAppend(s[1..], t);
    }
  }

  /** Text of whitespace followed by a '\n' is all whitespace. */
  lemma {:induction false} LeadingSpacesNewline(s: string)
    requires LeadingSpaces(s) == |s|
    ensures LeadingSpaces(s + "\n") == |s| + 1
  {
    if s == [] {
      assert s + "\n" == "\n";
    } else {
      assert (s + "\n")[1..] == s[1..] + "\n";
      LeadingSpacesNewline(s[1..]);
    }
  }

  /** Appending a line break does not change what `strip()` returns. */
  lemma StripNewline(s: string)
    ensures Strip(s + "\n") == Strip(s)
  {
    var t := s + "\n";
    assert t[..|s|] == s;
    if LeadingSpaces(s) < |s| {
      LeadingSpacesAppend(s, "\n");
      SpacesApart(s);
      var i, j := LeadingSpaces(s), |s| - TrailingSpaces(s);
      assert t[..|t| - 1] == s;
      assert TrailingSpaces(t) == TrailingSpaces(s) + 1;
      assert t[i..j] == s[i..j];
    } else {
      LeadingSpacesNewline(s);
    }
  }

  /** `strip()` is idempotent. */
  lemma StripIdempotent(s: string)
    ensures Strip(Strip(s)) == Strip(s)
  {
    var r := Strip(s);
    StripSpec(s);
    if r != [] {
      assert LeadingSpaces(r) == 0;
      assert TrailingSpaces(r) == 0;
    }
  }

  /** `sub` occurs in `s` starting at index `i`. */
  predicate OccursAt(s: string, sub: string, i: nat) {
    i + |sub| <= |s| && s[i..i + |sub|] == sub
  }

  /** Python's `sub in s`, and equally a search for the escaped text `re.escape(sub)`. */
  predicate Contains(s: string, sub: string) {
    exists i | 0 <= i <= |s| - |sub| :: OccursAt(s, sub, i)
  }

  /** Every string contains itself. */
  lemma ContainsSelf(s: string)
    ensures Contains(s, s)
  {
    assert OccursAt(s, s, 0);
  }

  /** A text still contains `sub` after anything is added before or after it. */
  lemma ContainsWithin(pre: string, s: string, post: string, sub: string)
    requires Contains(s, sub)
    ensures Contains(pre + s + post, sub)
  {
    var i :| 0 <= i <= |s| - |sub| && OccursAt(s, sub, i);
    var t := pre + s + post;
    assert t[|pre| + i..|pre| + i + |sub|] == s[i..i + |sub|];
    assert OccursAt(t, sub, |pre| + i);
  }

  /** Containment is transitive. */
  lemma ContainsTransitive(a: string, b: string, c: string)
    requires Contains(a, b) && Contains(b, c)
    ensures Contains(a, c)
  {
    var i :| 0 <= i <= |a| - |b| && OccursAt(a, b, i);
    var j :| 0 <= j <= |b| - |c| && OccursAt(b, c, j);
    assert forall k :: 0 <= k < |b| ==> a[i + k] == b[k];
    assert forall k :: 0 <= k < |c| ==> b[j + k] == c[k];
    assert a[i + j..i + j + |c|] == c;
    assert OccursAt(a, c, i + j);
  }

  /** A line boundary of `str.splitlines()`. */
  predicate IsLineBreak(c: char) {
    c == '\n' || c == '\r' || c == '\U{0B}' || c == '\U{0C}' || ('\U{1C}' <= c <= '\U{1E}')
    || c == '\U{85}' || c == '\U{2028}' || c == '\U{2029}'
  }

  predicate NoBreaks(line: string) {
    forall k :: 0 <= k < |line| ==> !IsLineBreak(line[k])
  }

  predicate NoNewline(line: string) {
    forall k :: 0 <= k < |line| ==> line[k] != '\n'
  }

  /** The index of the first line boundary in `s`, or `|s|` when there is none. */
  function LineEnd(s: string): (n: nat)
    ensures n <= |s|
    ensures n < |s| ==> IsLineBreak(s[n])
  {
    if s == [] || IsLineBreak(s[0]) then 0 else 1 + LineEnd(s[1..])
  }

  /** The text before the first line boundary holds none. */
  lemma {:induction false} LineEndFirst(s: string)
    ensures NoBreaks(s[..LineEnd(s)])
  {
    if s != [] && !IsLineBreak(s[0]) {
      LineEndFirst(s[1..]);
      assert s[..LineEnd(s)] == [s[0]] + s[1..][..LineEnd(s[1..])];
    }
  }

  /** The index just past the line boundary at `n`; "\r\n" is a single boundary. */
  function BreakEnd(s: string, n: nat): nat
    requires n < |s|
  {
    if s[n] == '\r' && n + 1 < |s| && s[n + 1] == '\n' then n + 2 else n + 1
  }

  /** `s.splitlines()`: the lines of `s` without their boundaries; no empty last line. */
  function SplitLines(s: string): (lines: seq<string>)
    ensures (lines == []) == (s == [])
    decreases |s|
  {
    if s == [] then []
    else
      var n := LineEnd(s);
      if n == |s| then [s]
      else [s[..n]] + SplitLines(s[BreakEnd(s, n)..])
  }

  /** No line of `s.splitlines()` holds a line boundary. */
  lemma {:induction false} SplitLinesNoBreaks(s: string)
    ensures forall i :: 0 <= i < |SplitLines(s)| ==> NoBreaks(SplitLines(s)[i])
    decreases |s|
  {
    LineEndFirst(s);
    if s != [] && LineEnd(s) == |s| {
      assert s[..LineEnd(s)] == s;
    } else if s != [] {
      var n := LineEnd(s);
      var rest := s[BreakEnd(s, n)..];
      SplitLinesNoBreaks(rest);
      var lines := SplitLines(s);
      assert lines == [s[..n]] + SplitLines(rest);
      forall i | 0 <= i < |lines|
        ensures NoBreaks(lines[i])
      {
        if i > 0 {
          assert lines[i] == SplitLines(rest)[i - 1];
        }
      }
    }
  }

  /** `'\n'.join(lines)`. */
  function JoinLines(lines: seq<string>): string {
    if lines == [] then []
    else if |lines| == 1 then lines[0]
    else lines[0] + "\n" + JoinLines(lines[1..])
  }

  /** The index of the first '\n' in `s`, or `|s|` when there is none. */
  function NewlineAt(s: string): (n: nat)
    ensures n <= |s|
    ensures n < |s| ==> s[n] == '\n'
    ensures forall k :: 0 <= k < n ==> s[k] != '\n'
  {
    if s == [] || s[0] == '\n' then 0 else 1 + NewlineAt(s[1..])
  }

  /** `s.split('\n')`: the pieces between the '\n' characters of `s`. */
  function Split(s: string): (parts: seq<string>)
    ensures |parts| >= 1
    decreases |s|
  {
    var n := NewlineAt(s);
    if n == |s| then [s] else [s[..n]] + Split(s[n + 1..])
  }

  /** Splitting on '\n' undoes joining with '\n', for at least one line and lines without '\n'. */
  lemma {:induction false} SplitJoin(lines: seq<string>)
    requires |lines| >= 1
    requires forall i :: 0 <= i < |lines| ==> NoNewline(lines[i])
    ensures Split(JoinLines(lines)) == lines
  {
    var s := JoinLines(lines);
    if |lines| == 1 {
      assert NoNewline(lines[0]);
      assert NewlineAt(s) == |s|;
    } else {
      var rest := JoinLines(lines[1..]);
      assert s == lines[0] + "\n" + rest;
      assert NoNewline(lines[0]);
      assert forall k :: 0 <= k < |lines[0]| ==> s[k] == lines[0][k];
      assert s[|lines[0]|] == '\n';
      assert NewlineAt(s) == |lines[0]|;
      assert s[..|lines[0]|] == lines[0];
      assert s[|lines[0]| + 1..] == rest;
      SplitJoin(lines[1..]);
    }
  }

  /** The first line boundary is the one after a stretch without boundaries. */
  lemma {:induction false} LineEndAt(s: string, n: nat)
    requires n <= |s| && NoBreaks(s[..n])
    requires n < |s| ==> IsLineBreak(s[n])
    ensures LineEnd(s) == n
  {
    if n > 0 {
      assert !IsLineBreak(s[..n][0]);
      assert s[1..][..n - 1] == s[..n][1..];
      LineEndAt(s[1..], n - 1);
    }
  }

  /** Splitting into lines undoes joining with '\n' when no line holds a boundary and the last is non-empty. */
  lemma {:induction false} SplitLinesJoin(lines: seq<string>)
    requires forall i :: 0 <= i < |lines| ==> NoBreaks(lines[i])
    requires lines != [] ==> lines[|lines| - 1] != []
    ensures SplitLines(JoinLines(lines)) == lines
  {
    if |lines| == 1 {
      var s := lines[0];
      assert s[..|s|] == s;
      LineEndAt(s, |s|);
    } else if |lines| > 1 {
      var s := JoinLines(lines);
      var rest := JoinLines(lines[1..]);
      var n := |lines[0]|;
      JoinLinesCons(lines[0], lines[1..]);
      assert [lines[0]] + lines[1..] == lines;
      assert s == lines[0] + "\n" + rest;
      assert s[..n] == lines[0];
      assert s[n] == '\n';
      LineEndAt(s, n);
      SplitLinesAtNewline(s, n);
      assert s[n + 1..] == rest;
      SplitLinesJoin(lines[1..]);
    }
  }

  /** A line ending in '\n'. */
  lemma SplitLinesAtNewline(s: string, n: nat)
    requires n == LineEnd(s) && n < |s| && s[n] == '\n'
    ensures SplitLines(s) == [s[..n]] + SplitLines(s[n + 1..])
  {
    assert BreakEnd(s, n) == n + 1;
  }

  lemma JoinLinesCons(line: string, lines: seq<string>)
    requires lines != []
    ensures JoinLines([line] + lines) == line + "\n" + JoinLines(lines)
  {
    assert ([line] + lines)[1..] == lines;
  }

  /** Every line boundary of `s` is a '\n'. */
  predicate OnlyNewlineBreaks(s: string) {
    forall k :: 0 <= k < |s| ==> IsLineBreak(s[k]) ==> s[k] == '\n'
  }

  lemma OnlyNewlineBreaksSuffix(s: string, m: nat)
    requires m <= |s| && OnlyNewlineBreaks(s)
    ensures OnlyNewlineBreaks(s[m..])
  {
    assert forall k :: 0 <= k < |s| - m ==> s[m..][k] == s[m + k];
  }

  /** Splitting at a '\n' that is not the last character and joining again puts the '\n' back. */
  lemma JoinSplitLinesStep(s: string, n: nat)
    requires n == LineEnd(s) && n + 1 < |s| && s[n] == '\n'
    ensures JoinLines(SplitLines(s)) == s[..n] + "\n" + JoinLines(SplitLines(s[n + 1..]))
  {
    SplitLinesAtNewline(s, n);
    JoinLinesCons(s[..n], SplitLines(s[n + 1..]));
  }

  lemma Reassemble(s: string, n: nat)
    requires n < |s| && s[n] == '\n'
    ensures s[..n] + "\n" + s[n + 1..] == s
  {
    assert s == s[..n] + [s[n]] + s[n + 1..];
  }

  /** Text whose only boundaries are '\n' and that does not end with one survives split-then-join unchanged. */
  lemma {:induction false} JoinSplitLines(s: string)
    requires OnlyNewlineBreaks(s)
    requires s != [] ==> s[|s| - 1] != '\n'
    ensures JoinLines(SplitLines(s)) == s
    decreases |s|
  {
    if s != [] {
      var n := LineEnd(s);
      if n < |s| {
        assert s[n] == '\n';
        assert n + 1 < |s|;
        var rest := s[n + 1..];
        assert rest[|rest| - 1] == s[|s| - 1];
        OnlyNewlineBreaksSuffix(s, n + 1);
        JoinSplitLines(rest);
        JoinSplitLinesStep(s, n);
        Reassemble(s, n);
      }
    }
  }


}
