/**
 * The three string operations of Python's `str` that the `.env` parser relies on:
 * `strip()` with no argument, `splitlines()` and `split("=", 1)`.
 * Characters are Unicode scalar values; the whitespace and line-break sets are
 * written out as CPython defines them for `str.isspace` and `str.splitlines`.
 */
module Text {

  /** CPython's `str.isspace`: the code points `strip()` removes. */
  predicate IsSpace(c: char) {
    ('\t' <= c <= '\r') || ('\U{1C}' <= c <= ' ')
    || c == '\U{85}' || c == '\U{A0}' || c == '\U{1680}'
    || ('\U{2000}' <= c <= '\U{200A}')
    || c == '\U{2028}' || c == '\U{2029}' || c == '\U{202F}' || c == '\U{205F}'
    || c == '\U{3000}'
  }

  /** The code points at which `str.splitlines` ends a line ("\r\n" counts as one break). */
  predicate IsLineBreak(c: char) {
    ('\n' <= c <= '\r') || ('\U{1C}' <= c <= '\U{1E}')
    || c == '\U{85}' || c == '\U{2028}' || c == '\U{2029}'
  }

  predicate AllSpace(s: string) {
    forall k :: 0 <= k < |s| ==> IsSpace(s[k])
  }

  predicate NoLineBreak(s: string) {
    forall k :: 0 <= k < |s| ==> !IsLineBreak(s[k])
  }

  /** A string that `strip()` leaves alone: empty, or with non-space characters at both ends. */
  predicate Stripped(s: string) {
    s == [] || (!IsSpace(s[0]) && !IsSpace(s[|s| - 1]))
  }

  /** `lstrip()`: the suffix of `s` left once leading whitespace is removed. */
  function TrimLeft(s: string): (r: string)
    ensures |r| <= |s| && r == s[|s| - |r|..]
    ensures r == [] || !IsSpace(r[0])
  {
    if s != [] && IsSpace(s[0]) then TrimLeft(s[1..]) else s
  }

  /** `rstrip()`: the prefix of `s` left once trailing whitespace is removed. */
  function TrimRight(s: string): (r: string)
    ensures |r| <= |s| && r == s[..|r|]
    ensures r == [] || !IsSpace(r[|r| - 1])
  {
    if s != [] && IsSpace(s[|s| - 1]) then TrimRight(s[..|s| - 1]) else s
  }

  /** What `lstrip()` removes is whitespace only. */
  lemma {:induction false} TrimLeftDropsSpace(s: string)
    ensures AllSpace(s[..|s| - |TrimLeft(s)|])
  {
    if s != [] && IsSpace(s[0]) {
      TrimLeftDropsSpace(s[1..]);
      var n := |s| - |TrimLeft(s)|;
      forall k | 0 <= k < n ensures IsSpace(s[..n][k]) {
        if k > 0 {
          assert s[..n][k] == s[1..][..n - 1][k - 1];
        }
      }
    }
  }

  /** What `rstrip()` removes is whitespace only. */
  lemma {:induction false} TrimRightDropsSpace(s: string)
    ensures AllSpace(s[|TrimRight(s)|..])
  {
    if s != [] && IsSpace(s[|s| - 1]) {
      var init := s[..|s| - 1];
      TrimRightDropsSpace(init);
      var n := |TrimRight(s)|;
      forall k | 0 <= k < |s| - n ensures IsSpace(s[n..][k]) {
        if n + k < |s| - 1 {
          assert s[n..][k] == init[n..][k];
        }
      }
    }
  }

  /** `strip()`: `lstrip()` then `rstrip()`; what remains begins and ends with a non-space. */
  function Strip(s: string): (r: string)
    ensures |r| <= |s|
    ensures Stripped(r)
  {
    TrimRight(TrimLeft(s))
  }

  /** `strip()` returns an infix of its argument, and all it removes on either side is whitespace. */
  lemma StripInfix(s: string) returns (i: nat, j: nat)
    ensures i <= j <= |s| && Strip(s) == s[i..j]
    ensures AllSpace(s[..i]) && AllSpace(s[j..])
  {
    var l := TrimLeft(s);
    var r := TrimRight(l);
    i := |s| - |l|;
    j := i + |r|;
    TrimLeftDropsSpace(s);
    TrimRightDropsSpace(l);
    assert r == s[i..j];
    assert s[j..] == l[|r|..];
  }

  /** Whitespace on both sides of `s[i..j]` means every non-space character of `s` lies inside it. */
  lemma NonSpaceInMiddle(s: string, i: int, j: int)
    requires 0 <= i <= j <= |s| && AllSpace(s[..i]) && AllSpace(s[j..])
    ensures forall k :: 0 <= k < |s| && !IsSpace(s[k]) ==> i <= k < j
  {
    forall m | 0 <= m < i ensures IsSpace(s[m]) { assert s[..i][m] == s[m]; }
    forall m | j <= m < |s| ensures IsSpace(s[m]) { assert s[j..][m - j] == s[m]; }
  }

  lemma StripDropsNoNonSpace(s: string, c: char)
    requires !IsSpace(c) && c in s
    ensures c in Strip(s)
  {
    var i, j := StripInfix(s);
    var k :| 0 <= k < |s| && s[k] == c;
    NonSpaceInMiddle(s, i, j);
    assert Strip(s)[k - i] == c;
  }

  lemma StripAddsNothing(s: string, c: char)
    requires c in Strip(s)
    ensures c in s
  {
    var i, j := StripInfix(s);
    var r := Strip(s);
    var k :| 0 <= k < |r| && r[k] == c;
    assert s[i + k] == c;
  }

  /** `strip()` keeps every character that is not whitespace, so it neither adds nor drops an `=`. */
  lemma StripKeepsNonSpace(s: string, c: char)
    requires !IsSpace(c)
    ensures c in Strip(s) <==> c in s
  {
    if c in s {
      StripDropsNoNonSpace(s, c);
    }
    if c in Strip(s) {
      StripAddsNothing(s, c);
    }
  }

  /** A string that is already stripped is its own `strip()`. */
  lemma StripOfStripped(s: string)
    requires Stripped(s)
    ensures Strip(s) == s
  {
  }

  /** `strip()` is idempotent. */
  lemma StripIdempotent(s: string)
    ensures Strip(Strip(s)) == Strip(s)
  {
    StripOfStripped(Strip(s));
  }

  /** `strip()` of a string made only of whitespace is empty. */
  lemma StripAllSpace(s: string)
    requires AllSpace(s)
    ensures Strip(s) == []
  {
    var i, j := StripInfix(s);
  }

  /**
   * `s.split("=", 1)` on a string that contains `=`: the text before the FIRST `=`
   * and the text after it, which may itself contain `=`.
   */
  function SplitFirst(s: string): (r: (string, string))
    requires '=' in s
    ensures r.0 + "=" + r.1 == s
    ensures '=' !in r.0
  {
    if s[0] == '=' then ([], s[1..])
    else
      var tail := SplitFirst(s[1..]);
      assert [s[0]] + tail.0 + "=" + tail.1 == s;
      ([s[0]] + tail.0, tail.1)
  }

  /** The split is unique: any decomposition at an `=` with no earlier `=` is the one `SplitFirst` finds. */
  lemma {:induction false} SplitFirstUnique(a: string, b: string)
    requires '=' !in a
    ensures '=' in a + "=" + b
    ensures SplitFirst(a + "=" + b) == (a, b)
  {
    var s := a + "=" + b;
    assert s[|a|] == '=';
    if a == [] {
      assert s[1..] == b;
    } else {
      assert s[1..] == a[1..] + "=" + b;
      SplitFirstUnique(a[1..], b);
      assert [a[0]] + a[1..] == a;
    }
  }

  /** `splitlines()` continued from the middle of a line whose text so far is `cur`. */
  function SplitLinesFrom(text: string, cur: string): (r: seq<string>)
    requires NoLineBreak(cur)
    ensures forall k :: 0 <= k < |r| ==> NoLineBreak(r[k])
    decreases |text|
  {
    if text == [] then
      (if cur == [] then [] else [cur])
    else if text[0] == '\r' && |text| > 1 && text[1] == '\n' then
      [cur] + SplitLinesFrom(text[2..], [])
    else if IsLineBreak(text[0]) then
      [cur] + SplitLinesFrom(text[1..], [])
    else
      SplitLinesFrom(text[1..], cur + [text[0]])
  }

  /**
   * `text.splitlines()`: the lines of `text` without their terminators; a final
   * terminator does not start a further, empty line, and "" has no lines.
   */
  function SplitLines(text: string): (r: seq<string>)
    ensures forall k :: 0 <= k < |r| ==> NoLineBreak(r[k])
  {
    SplitLinesFrom(text, [])
  }

  function Concat(lines: seq<string>): string {
    if lines == [] then [] else lines[0] + Concat(lines[1..])
  }

  /** The characters of `text` that are not line breaks, in order. */
  function DropLineBreaks(text: string): string {
    if text == [] then []
    else if IsLineBreak(text[0]) then DropLineBreaks(text[1..])
    else [text[0]] + DropLineBreaks(text[1..])
  }

  lemma ConcatCons(line: string, rest: seq<string>)
    ensures Concat([line] + rest) == line + Concat(rest)
  {
    assert ([line] + rest)[1..] == rest;
  }

  /** The `"\r\n"` case: the line being built ends, and both break characters are dropped. */
  lemma KeepsTextAtCrLf(text: string, cur: string)
    requires NoLineBreak(cur) && |text| > 1 && text[0] == '\r' && text[1] == '\n'
    requires Concat(SplitLinesFrom(text[2..], [])) == DropLineBreaks(text[2..])
    ensures Concat(SplitLinesFrom(text, cur)) == cur + DropLineBreaks(text)
  {
    var rest := SplitLinesFrom(text[2..], []);
    assert SplitLinesFrom(text, cur) == [cur] + rest;
    ConcatCons(cur, rest);
    assert text[1..][1..] == text[2..];
    assert DropLineBreaks(text) == DropLineBreaks(text[1..]) == DropLineBreaks(text[2..]);
  }

  /** The single-break case: the line being built ends, and the break is dropped. */
  lemma KeepsTextAtBreak(text: string, cur: string)
    requires NoLineBreak(cur) && text != [] && IsLineBreak(text[0])
    requires !(|text| > 1 && text[0] == '\r' && text[1] == '\n')
    requires Concat(SplitLinesFrom(text[1..], [])) == DropLineBreaks(text[1..])
    ensures Concat(SplitLinesFrom(text, cur)) == cur + DropLineBreaks(text)
  {
    var rest := SplitLinesFrom(text[1..], []);
    assert SplitLinesFrom(text, cur) == [cur] + rest;
    ConcatCons(cur, rest);
  }

  /** A character that is not a line break extends the line being built. */
  lemma SplitLinesFromChar(text: string, cur: string)
    requires NoLineBreak(cur) && text != [] && !IsLineBreak(text[0])
    requires NoLineBreak(cur + [text[0]])
    ensures SplitLinesFrom(text, cur) == SplitLinesFrom(text[1..], cur + [text[0]])
  {
  }

  /** A character that is not a line break is kept. */
  lemma DropLineBreaksChar(text: string)
    requires text != [] && !IsLineBreak(text[0])
    ensures DropLineBreaks(text) == [text[0]] + DropLineBreaks(text[1..])
  {
  }

  /** Appending a character, then the rest, is appending the rest prefixed by the character. */
  lemma AppendChar(cur: string, c: char, tail: string)
    ensures cur + [c] + tail == cur + ([c] + tail)
  {
  }

  /** The ordinary-character case: the character moves onto the line being built. */
  lemma KeepsTextAtChar(text: string, cur: string)
    requires NoLineBreak(cur) && text != [] && !IsLineBreak(text[0])
    requires NoLineBreak(cur + [text[0]])
    requires Concat(SplitLinesFrom(text[1..], cur + [text[0]])) == cur + [text[0]] + DropLineBreaks(text[1..])
    ensures Concat(SplitLinesFrom(text, cur)) == cur + DropLineBreaks(text)
  {
    SplitLinesFromChar(text, cur);
    DropLineBreaksChar(text);
    AppendChar(cur, text[0], DropLineBreaks(text[1..]));
  }

  /** Splitting into lines loses only the line breaks: the lines, joined back, are the rest of the text. */
  lemma {:induction false} SplitLinesFromKeepsText(text: string, cur: string)
    requires NoLineBreak(cur)
    ensures Concat(SplitLinesFrom(text, cur)) == cur + DropLineBreaks(text)
    decreases |text|
  {
    if text == [] {
      if cur != [] {
        ConcatCons(cur, []);
      }
    } else if text[0] == '\r' && |text| > 1 && text[1] == '\n' {
      SplitLinesFromKeepsText(text[2..], []);
      KeepsTextAtCrLf(text, cur);
    } else if IsLineBreak(text[0]) {
      SplitLinesFromKeepsText(text[1..], []);
      KeepsTextAtBreak(text, cur);
    } else {
      assert NoLineBreak(cur + [text[0]]);
      SplitLinesFromKeepsText(text[1..], cur + [text[0]]);
      KeepsTextAtChar(text, cur);
    }
  }

  lemma SplitLinesKeepsText(text: string)
    ensures Concat(SplitLines(text)) == DropLineBreaks(text)
  {
    SplitLinesFromKeepsText(text, []);
  }

  /** Each line followed by `"\n"`: the text of a file written line by line. */
  function Terminated(lines: seq<string>): string {
    if lines == [] then [] else lines[0] + "\n" + Terminated(lines[1..])
  }

  /** Characters that are not line breaks extend the line being built. */
  lemma {:induction false} SplitLinesFromPlain(line: string, rest: string, cur: string)
    requires NoLineBreak(cur) && NoLineBreak(line)
    ensures NoLineBreak(cur + line)
    ensures SplitLinesFrom(line + rest, cur) == SplitLinesFrom(rest, cur + line)
    decreases |line|
  {
    if line == [] {
      assert line + rest == rest && cur + line == cur;
    } else {
      var next := cur + [line[0]];
      assert NoLineBreak(next);
      assert NoLineBreak(line[1..]);
      SplitLinesFromChar(line + rest, cur);
      assert (line + rest)[1..] == line[1..] + rest;
      SplitLinesFromPlain(line[1..], rest, next);
      assert next + line[1..] == cur + line;
    }
  }

  /**
   * Any line-break character ends the line being built, except a `'\r'`
   * directly followed by `'\n'`, which is half of one `"\r\n"` break.
   */
  lemma SplitLinesFromBreak(b: char, tail: string, cur: string)
    requires NoLineBreak(cur) && IsLineBreak(b)
    requires !(b == '\r' && tail != [] && tail[0] == '\n')
    ensures SplitLinesFrom([b] + tail, cur) == [cur] + SplitLinesFrom(tail, [])
  {
    assert ([b] + tail)[1..] == tail;
  }

  /** `"\r\n"` ends the line being built, as one break. */
  lemma SplitLinesFromCrLf(tail: string, cur: string)
    requires NoLineBreak(cur)
    ensures SplitLinesFrom("\r\n" + tail, cur) == [cur] + SplitLinesFrom(tail, [])
  {
    assert ("\r\n" + tail)[2..] == tail;
  }

  lemma TerminatedCons(lines: seq<string>, rest: string)
    requires lines != []
    ensures Terminated(lines) + rest == lines[0] + ("\n" + (Terminated(lines[1..]) + rest))
  {
  }

  /** A line without a break, followed by a single break character, is split off as one line. */
  lemma SplitLinesOfFirst(line: string, b: char, tail: string)
    requires NoLineBreak(line) && IsLineBreak(b)
    requires !(b == '\r' && tail != [] && tail[0] == '\n')
    ensures SplitLines(line + ([b] + tail)) == [line] + SplitLines(tail)
  {
    SplitLinesFromPlain(line, [b] + tail, []);
    assert [] + line == line;
    SplitLinesFromBreak(b, tail, line);
  }

  /** A line without a break, followed by `"\r\n"`, is split off as one line. */
  lemma SplitLinesOfFirstCrLf(line: string, tail: string)
    requires NoLineBreak(line)
    ensures SplitLines(line + ("\r\n" + tail)) == [line] + SplitLines(tail)
  {
    SplitLinesFromPlain(line, "\r\n" + tail, []);
    assert [] + line == line;
    SplitLinesFromCrLf(tail, line);
  }

  /**
   * Line breaks end lines exactly where they occur: splitting the text of
   * newline-terminated lines, followed by any text, gives back those lines
   * followed by the lines of that text.
   */
  lemma {:induction false} SplitLinesOfTerminated(lines: seq<string>, rest: string)
    requires forall k :: 0 <= k < |lines| ==> NoLineBreak(lines[k])
    ensures SplitLines(Terminated(lines) + rest) == lines + SplitLines(rest)
  {
    if lines == [] {
      assert Terminated(lines) + rest == rest;
    } else {
      var line, others := lines[0], lines[1..];
      TerminatedCons(lines, rest);
      SplitLinesOfFirst(line, '\n', Terminated(others) + rest);
      forall k | 0 <= k < |others| ensures NoLineBreak(others[k]) {
        assert others[k] == lines[k + 1];
      }
      SplitLinesOfTerminated(others, rest);
      assert lines == [line] + others;
    }
  }

  /** A non-empty line without a break, and without a terminator, is one line. */
  lemma SplitLinesOfLine(line: string)
    requires line != [] && NoLineBreak(line)
    ensures SplitLines(line) == [line]
  {
    SplitLinesFromPlain(line, [], []);
    assert line + [] == line && [] + line == line;
  }

  /** A file whose last line has no terminator: that line is the last one split off. */
  lemma SplitLinesOfUnterminated(lines: seq<string>, last: string)
    requires forall k :: 0 <= k < |lines| ==> NoLineBreak(lines[k])
    requires last != [] && NoLineBreak(last)
    ensures SplitLines(Terminated(lines) + last) == lines + [last]
  {
    SplitLinesOfTerminated(lines, last);
    SplitLinesOfLine(last);
  }

  /** `splitlines()` of "" has no lines at all, not one empty line. */
  lemma SplitLinesOfEmpty()
    ensures SplitLines([]) == []
  {
  }

  /**
   * Splitting is the inverse of writing lines each followed by `"\n"`: in
   * particular a final terminator does not add an empty last line.
   */
  lemma SplitLinesRoundTrip(lines: seq<string>)
    requires forall k :: 0 <= k < |lines| ==> NoLineBreak(lines[k])
    ensures SplitLines(Terminated(lines)) == lines
  {
    SplitLinesOfTerminated(lines, []);
    assert Terminated(lines) + [] == Terminated(lines);
    SplitLinesOfEmpty();
  }
}
