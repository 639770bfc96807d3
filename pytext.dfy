/**
 * The two Python string methods the driver applies to its arguments:
 * `str.splitlines()` (no `keepends`) and `str.strip()` (no argument).
 * Strings are sequences of Unicode scalar values; unlike Python's `str`
 * they cannot hold lone surrogates.
 */
module PyText {

  /** The characters `str.splitlines` ends a line at; "\r\n" is one boundary. */
  predicate IsLineBoundary(c: char) {
    || '\n' <= c <= '\r'              // \n, \v, \f, \r
    || '\U{1C}' <= c <= '\U{1E}'      // file, group and record separators
    || c == '\U{85}'                  // next line
    || c == '\U{2028}' || c == '\U{2029}'
  }

  /** The characters for which `str.isspace()` holds, which `str.strip()` removes. */
  predicate IsSpace(c: char) {
    || '\t' <= c <= '\r'
    || '\U{1C}' <= c <= ' '
    || c == '\U{85}' || c == '\U{A0}' || c == '\U{1680}'
    || '\U{2000}' <= c <= '\U{200A}'
    || c == '\U{2028}' || c == '\U{2029}' || c == '\U{202F}' || c == '\U{205F}'
    || c == '\U{3000}'
  }

  predicate NoLineBoundary(s: string) {
    forall k :: 0 <= k < |s| ==> !IsLineBoundary(s[k])
  }

  predicate AllSpace(s: string) {
    forall k :: 0 <= k < |s| ==> IsSpace(s[k])
  }

  /** Index of the first line boundary in `s`, or `|s|` when there is none. */
  function LineEnd(s: string): (i: nat)
    ensures i <= |s|
    ensures NoLineBoundary(s[..i])
    ensures i < |s| ==> IsLineBoundary(s[i])
  {
    if s == [] || IsLineBoundary(s[0]) then 0 else 1 + LineEnd(s[1..])
  }

  /** Number of characters the boundary at `s[i]` occupies: 2 for "\r\n", else 1. */
  function BoundaryWidth(s: string, i: nat): (w: nat)
    requires i < |s|
    ensures 1 <= w <= |s| - i
  {
    if s[i] == '\r' && i + 1 < |s| && s[i + 1] == '\n' then 2 else 1
  }

  /**
   * `s.splitlines()`: the lines of `s` without their boundaries; a final
   * boundary does not start an extra empty line, and "" has no lines.
   */
  function SplitLines(s: string): (lines: seq<string>)
    ensures forall i :: 0 <= i < |lines| ==> NoLineBoundary(lines[i])
    ensures lines == [] <==> s == []
    ensures |lines| <= |s|
    decreases |s|
  {
    if s == [] then []
    else
      var i := LineEnd(s);
      if i == |s| then [s]
      else [s[..i]] + SplitLines(s[i + BoundaryWidth(s, i)..])
  }

  /** The line endings a text can use and `splitlines` undoes. */
  predicate IsLineEnding(eol: string) {
    eol == "\r\n" || (|eol| == 1 && IsLineBoundary(eol[0]))
  }

  /** The text that holds `lines`, each one followed by its own line ending from `eols`. */
  function Written(lines: seq<string>, eols: seq<string>): string
    requires |eols| == |lines|
  {
    if lines == [] then "" else lines[0] + eols[0] + Written(lines[1..], eols[1..])
  }

  /**
   * `lines` and `eols` describe a text line by line: no line holds a
   * boundary, each ending is one that `splitlines` knows, and a lone "\r"
   * is not followed by an empty line whose ending starts with "\n" (the two
   * would read as one "\r\n").
   */
  predicate WellEnded(lines: seq<string>, eols: seq<string>) {
    && |eols| == |lines|
    && (forall i :: 0 <= i < |lines| ==> NoLineBoundary(lines[i]) && IsLineEnding(eols[i]))
    && (forall i :: 0 <= i < |lines| ==> NotJoined(lines, eols, i))
  }

  /** The ending after line `i` is not a lone "\r" that the next, empty line's "\n" would join. */
  predicate NotJoined(lines: seq<string>, eols: seq<string>, i: nat)
    requires |eols| == |lines| && i < |lines|
  {
    i + 1 < |lines| && eols[i] == "\r" && lines[i + 1] == [] ==> eols[i + 1] != "\n"
  }

  /**
   * `splitlines` recovers the lines of any text written line by line, with
   * any mix of line endings and with or without a final unterminated line.
   */
  lemma {:induction false} SplitLinesWritten(lines: seq<string>, eols: seq<string>, last: string)
    requires WellEnded(lines, eols)
    requires NoLineBoundary(last)
    ensures SplitLines(Written(lines, eols) + last) == lines + (if last == [] then [] else [last])
  {
    if lines == [] {
      assert Written(lines, eols) + last == last;
      SplitLinesSingle(last);
    } else {
      WellEndedTail(lines, eols);
      var more := if last == [] then [] else [last];
      SplitLinesWritten(lines[1..], eols[1..], last);
      SplitFirstWritten(lines, eols, last);
      ConsAppend(lines, more);
    }
  }

  lemma ConsAppend<T>(s: seq<T>, t: seq<T>)
    requires s != []
    ensures s + t == [s[0]] + (s[1..] + t)
  {
    assert s == [s[0]] + s[1..];
  }

  /** The first line of a well-ended text is split off whole, and splitting goes on with the next one. */
  lemma SplitFirstWritten(lines: seq<string>, eols: seq<string>, last: string)
    requires WellEnded(lines, eols) && lines != [] && NoLineBoundary(last)
    ensures SplitLines(Written(lines, eols) + last) == [lines[0]] + SplitLines(Written(lines[1..], eols[1..]) + last)
  {
    var rest := Written(lines[1..], eols[1..]) + last;
    assert Written(lines, eols) + last == lines[0] + eols[0] + rest;
    NoJoinedEnding(lines, eols, last);
    SplitLinesStep(lines[0], eols[0], rest);
  }

  /** What follows the first line of a well-ended text is well ended. */
  lemma WellEndedTail(lines: seq<string>, eols: seq<string>)
    requires WellEnded(lines, eols) && lines != []
    ensures WellEnded(lines[1..], eols[1..])
  {
    var tl, te := lines[1..], eols[1..];
    forall i | 0 <= i < |tl|
      ensures NoLineBoundary(tl[i]) && IsLineEnding(te[i]) && NotJoined(tl, te, i)
    {
      assert tl[i] == lines[i + 1] && te[i] == eols[i + 1];
      assert NotJoined(lines, eols, i + 1);
      if i + 1 < |tl| {
        assert tl[i + 1] == lines[i + 2] && te[i + 1] == eols[i + 2];
      }
    }
  }

  /** A first line ending in a lone "\r" is not followed by "\n". */
  lemma NoJoinedEnding(lines: seq<string>, eols: seq<string>, last: string)
    requires WellEnded(lines, eols) && lines != [] && NoLineBoundary(last)
    ensures var rest := Written(lines[1..], eols[1..]) + last;
      eols[0] == "\r" ==> rest == [] || rest[0] != '\n'
  {
    WellEndedTail(lines, eols);
    WrittenStart(lines[1..], eols[1..], last);
    if |lines| > 1 {
      assert lines[1..][0] == lines[1] && eols[1..][0] == eols[1];
      assert NotJoined(lines, eols, 0);
    }
  }

  /** A text written line by line starts with a line's first character or, for an empty first line, with its ending. */
  lemma WrittenStart(lines: seq<string>, eols: seq<string>, last: string)
    requires WellEnded(lines, eols) && NoLineBoundary(last)
    ensures var t := Written(lines, eols) + last;
      t == [] || !IsLineBoundary(t[0]) || (lines != [] && lines[0] == [] && t[0] == eols[0][0])
  {
    var t := Written(lines, eols) + last;
    if lines == [] {
      assert t == last;
    } else {
      assert t == lines[0] + eols[0] + (Written(lines[1..], eols[1..]) + last);
      if lines[0] != [] {
        assert t[0] == lines[0][0];
      } else {
        assert t[0] == eols[0][0];
      }
    }
  }

  /** A line followed by a line ending is split off whole, and splitting goes on with what follows. */
  lemma SplitLinesStep(l: string, eol: string, rest: string)
    requires NoLineBoundary(l) && IsLineEnding(eol)
    requires eol == "\r" ==> rest == [] || rest[0] != '\n'
    ensures SplitLines(l + eol + rest) == [l] + SplitLines(rest)
  {
    FirstLine(l, eol, rest);
    SkipLineEnding(l, eol, rest);
  }

  /** The first line of `l + eol + rest` is `l`. */
  lemma FirstLine(l: string, eol: string, rest: string)
    requires NoLineBoundary(l) && IsLineEnding(eol)
    ensures var s := l + eol + rest;
      LineEnd(s) == |l| && s[..|l|] == l
  {
    var s := l + eol + rest;
    assert s[..|l|] == l;
    LineEndAt(s, |l|);
  }

  /** Skipping the line ending after `l` lands on `rest`, unless a lone "\r" is followed by "\n". */
  lemma SkipLineEnding(l: string, eol: string, rest: string)
    requires IsLineEnding(eol)
    requires eol == "\r" ==> rest == [] || rest[0] != '\n'
    ensures var s := l + eol + rest;
      |l| < |s| && s[|l| + BoundaryWidth(s, |l|)..] == rest
  {
    var s := l + eol + rest;
    if eol == "\r\n" {
      assert s[|l|] == '\r' && s[|l| + 1] == '\n';
    } else {
      assert s[|l|] == eol[0];
      assert rest != [] ==> s[|l| + 1] == rest[0];
    }
    assert s[|l| + |eol|..] == rest;
  }

  /** The first line of `s` ends at the first line boundary. */
  lemma {:induction false} LineEndAt(s: string, n: nat)
    requires n < |s| && NoLineBoundary(s[..n]) && IsLineBoundary(s[n])
    ensures LineEnd(s) == n
  {
    if n > 0 {
      assert s[..n][0] == s[0];
      assert s[1..][..n - 1] == s[..n][1..];
      LineEndAt(s[1..], n - 1);
    }
  }

  /** A text without any line boundary is a single line, or no line when it is empty. */
  lemma SplitLinesSingle(s: string)
    requires NoLineBoundary(s)
    ensures SplitLines(s) == if s == [] then [] else [s]
  {
    assert s[..|s|] == s;
  }

  /** How many whitespace characters `s` starts with. */
  function LeadingSpaces(s: string): (n: nat)
    ensures n <= |s|
    ensures forall k :: 0 <= k < n ==> IsSpace(s[k])
    ensures n < |s| ==> !IsSpace(s[n])
  {
    if s != [] && IsSpace(s[0]) then 1 + LeadingSpaces(s[1..]) else 0
  }

  /** How many whitespace characters `s` ends with. */
  function TrailingSpaces(s: string): (n: nat)
    ensures n <= |s|
    ensures forall k :: |s| - n <= k < |s| ==> IsSpace(s[k])
    ensures n < |s| ==> !IsSpace(s[|s| - 1 - n])
  {
    if s != [] && IsSpace(s[|s| - 1]) then 1 + TrailingSpaces(s[..|s| - 1]) else 0
  }

  /** `s.strip()`: `s` without its leading and trailing whitespace. */
  function Strip(s: string): (r: string)
    ensures r == [] <==> AllSpace(s)
    ensures r == [] || (!IsSpace(r[0]) && !IsSpace(r[|r| - 1]))
  {
    var i := LeadingSpaces(s);
    if i == |s| then ""
    else
      var j := |s| - TrailingSpaces(s);
      assert i < j;
      s[i..j]
  }

  /** `r` stands at index `i` of `s`, with only whitespace before and after it. */
  predicate FlankedBySpace(s: string, i: nat, r: string) {
    && i + |r| <= |s|
    && r == s[i..i + |r|]
    && AllSpace(s[..i]) && AllSpace(s[i + |r|..])
  }

  /** What `strip` keeps is one contiguous piece of `s`, flanked only by whitespace. */
  lemma StripInfix(s: string)
    ensures exists i :: FlankedBySpace(s, i, Strip(s))
  {
    var r := Strip(s);
    var i := if r == [] then 0 else LeadingSpaces(s);
    assert FlankedBySpace(s, i, r);
  }

  /** A string that starts and ends with non-whitespace is left as it is. */
  lemma StripUnchanged(s: string)
    requires s == [] || (!IsSpace(s[0]) && !IsSpace(s[|s| - 1]))
    ensures Strip(s) == s
  {
  }

  /** Stripping twice is stripping once. */
  lemma StripIdempotent(s: string)
    ensures Strip(Strip(s)) == Strip(s)
  {
    StripUnchanged(Strip(s));
  }
}
