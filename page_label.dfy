/**
 * get_real_page_num's string logic: the printed page number is what comes
 * before the first '/' on the last line of the page text, where lines are
 * those of Python's str.splitlines().
 */
module PageLabel {
  import opened Wrappers

  /** The line boundaries str.splitlines() recognises ("\r\n" is one boundary of two characters). */
  predicate IsLineBreak(c: char) {
    c == '\n' || c == '\r' || c == '\U{0B}' || c == '\U{0C}' || c == '\U{1C}' || c == '\U{1D}'
    || c == '\U{1E}' || c == '\U{85}' || c == '\U{2028}' || c == '\U{2029}'
  }

  predicate NoLineBreak(s: string) {
    forall i :: 0 <= i < |s| ==> !IsLineBreak(s[i])
  }

  /** The position of the first line break in `s`, or |s| if there is none. */
  function LineEnd(s: string): (k: nat)
    ensures k <= |s| && NoLineBreak(s[..k])
    ensures k < |s| ==> IsLineBreak(s[k])
  {
    if s == [] || IsLineBreak(s[0]) then 0
    else
      var k := 1 + LineEnd(s[1..]);
      assert s[..k] == [s[0]] + s[1..][..k - 1];
      k
  }

  /** The length of the line boundary that starts at `k`. */
  function BreakLength(s: string, k: nat): nat
    requires k < |s|
  {
    if s[k] == '\r' && k + 1 < |s| && s[k + 1] == '\n' then 2 else 1
  }

  /** str.splitlines(): the lines of `s` without their terminators. */
  function SplitLines(s: string): (lines: seq<string>)
    ensures forall i :: 0 <= i < |lines| ==> NoLineBreak(lines[i])
    decreases |s|
  {
    if s == [] then []
    else
      var k := LineEnd(s);
      if k == |s| then [s]
      else [s[..k]] + SplitLines(s[k + BreakLength(s, k)..])
  }

  /** str.split("/")[0]: everything before the first '/', or the whole line. */
  function BeforeSlash(line: string): (r: string)
    ensures r <= line && '/' !in r
    ensures |r| < |line| ==> line[|r|] == '/'
  {
    if line == [] || line[0] == '/' then []
    else [line[0]] + BeforeSlash(line[1..])
  }

  /**
   * `text.splitlines()[-1].split("/")[0]`; None where indexing the last line
   * raises IndexError.
   */
  function RealPageNum(text: string): (r: Option<string>)
    ensures r.None? <==> text == []
    ensures r.Some? ==>
      var lines := SplitLines(text);
      var last := lines[|lines| - 1];
      && r.value <= last && '/' !in r.value
      && (|r.value| < |last| ==> last[|r.value|] == '/')
      && ('/' !in last ==> r.value == last)
  {
    var lines := SplitLines(text);
    if lines == [] then None else Some(BeforeSlash(lines[|lines| - 1]))
  }

  /** Lines joined back with a "\n" after each, the inverse of SplitLines. */
  function JoinLines(lines: seq<string>): string {
    if lines == [] then [] else lines[0] + "\n" + JoinLines(lines[1..])
  }

  /** Splitting lines that were joined with "\n" gives back the lines, empty ones included. */
  lemma {:induction false} SplitJoin(lines: seq<string>)
    requires forall i :: 0 <= i < |lines| ==> NoLineBreak(lines[i])
    ensures SplitLines(JoinLines(lines)) == lines
  {
    if lines != [] {
      SplitLinesCons(lines[0], JoinLines(lines[1..]));
      SplitJoin(lines[1..]);
    }
  }

  /** A text without line breaks is one line. */
  lemma SplitLinesSingle(l: string)
    requires NoLineBreak(l) && l != []
    ensures SplitLines(l) == [l]
  {
  }

  /**
   * A line without breaks, then one line boundary (a single break character,
   * or "\r\n" as one boundary), is split off as the first line; a lone "\r"
   * is a whole boundary only when no "\n" follows it.
   */
  lemma SplitLinesBreak(l: string, b: string, rest: string)
    requires NoLineBreak(l)
    requires (|b| == 1 && IsLineBreak(b[0])) || b == "\r\n"
    requires b == "\r" ==> rest == [] || rest[0] != '\n'
    ensures SplitLines(l + b + rest) == [l] + SplitLines(rest)
  {
    var s := l + b + rest;
    assert s[..|l|] == l && s[|l|] == b[0];
    LineEndAt(s, l);
    assert BreakLength(s, |l|) == |b|;
    assert s[|l| + |b|..] == rest;
  }

  /** The "\n" case of SplitLinesBreak. */
  lemma SplitLinesCons(l: string, rest: string)
    requires NoLineBreak(l)
    ensures SplitLines(l + "\n" + rest) == [l] + SplitLines(rest)
  {
    SplitLinesBreak(l, "\n", rest);
  }

  /** A line break after a line without breaks ends that line. */
  lemma LineEndAt(s: string, l: string)
    requires l <= s && NoLineBreak(l)
    requires |l| < |s| && IsLineBreak(s[|l|])
    ensures LineEnd(s) == |l|
  {
    var k := LineEnd(s);
    assert forall i :: 0 <= i < k ==> s[..k][i] == s[i];
    assert forall i :: 0 <= i < |l| ==> l[i] == s[i];
  }

  predicate OnlyNewlines(s: string) {
    forall i :: 0 <= i < |s| ==> (IsLineBreak(s[i]) ==> s[i] == '\n')
  }

  /**
   * For text whose only terminator is "\n", joining the split lines gives the
   * text back, with a final "\n" added when the text lacked one.
   */
  lemma {:induction false} JoinSplit(s: string)
    requires OnlyNewlines(s)
    ensures JoinLines(SplitLines(s)) == if s == [] || s[|s| - 1] == '\n' then s else s + "\n"
    decreases |s|
  {
    if s != [] {
      var k := LineEnd(s);
      if k == |s| {
        assert s[..k] == s;
        assert JoinLines([s]) == s + "\n" + JoinLines([]);
      } else {
        var line, rest := s[..k], s[k + 1..];
        SplitFirst(s);
        OnlyNewlinesSuffix(s, k + 1);
        JoinSplit(rest);
        assert ([line] + SplitLines(rest))[1..] == SplitLines(rest);
        assert JoinLines(SplitLines(s)) == line + "\n" + JoinLines(SplitLines(rest));
        SplitAt(s, k);
        if rest != [] {
          assert rest[|rest| - 1] == s[|s| - 1];
        }
      }
    }
  }

  /** A first line ended by "\n" is split off and the rest is split on its own. */
  lemma SplitFirst(s: string)
    requires OnlyNewlines(s) && LineEnd(s) < |s|
    ensures s[LineEnd(s)] == '\n'
    ensures SplitLines(s) == [s[..LineEnd(s)]] + SplitLines(s[LineEnd(s) + 1..])
  {
  }

  lemma SplitAt(s: string, k: nat)
    requires k < |s|
    ensures s == s[..k] + [s[k]] + s[k + 1..]
  {
  }

  lemma OnlyNewlinesSuffix(s: string, k: nat)
    requires OnlyNewlines(s) && k <= |s|
    ensures OnlyNewlines(s[k..])
  {
    assert forall i :: 0 <= i < |s| - k ==> s[k..][i] == s[k + i];
  }

  /** The label is read from the last line only. */
  lemma ExampleLastLine()
    ensures RealPageNum("Index\n1/3") == Some("1")
  {
    var first, rest := "Index", "1/3";
    assert NoLineBreak(first);
    SplitLinesBreak(first, "\n", rest);
    assert "Index\n1/3" == first + "\n" + rest;
    assert SplitLines(rest) == [rest];
    assert BeforeSlash("1/3") == "1";
  }

  /** A trailing terminator adds no empty last line. */
  lemma ExampleTrailingBreak()
    ensures RealPageNum("1/3\n") == Some("1")
  {
    SplitJoin(["1/3"]);
    assert "1/3\n" == JoinLines(["1/3"]);
    assert BeforeSlash("1/3") == "1";
  }

  /** An empty line before the terminator is the last line: the label is empty. */
  lemma ExampleEmptyLastLine()
    ensures RealPageNum("1/3\n\n") == Some("")
  {
    SplitJoin(["1/3", ""]);
    assert "1/3\n\n" == JoinLines(["1/3", ""]);
  }

  /** A line without '/' is the label as a whole. */
  lemma ExampleNoSlash()
    ensures RealPageNum("iv") == Some("iv")
  {
    assert SplitLines("iv") == ["iv"];
  }

  /** "\r\n" is one boundary, not a break followed by an empty line. */
  lemma ExampleCrLf()
    ensures SplitLines("a\r\nb") == ["a", "b"]
  {
    SplitLinesBreak("a", "\r\n", "b");
    assert "a\r\nb" == "a" + "\r\n" + "b";
    SplitLinesSingle("b");
  }

  /** A "\r" directly before "\r\n" is a boundary of its own. */
  lemma ExampleCrCrLf()
    ensures SplitLines("a\r\r\n") == ["a", ""]
  {
    SplitLinesBreak("", "\r\n", "");
    assert "\r\n" == "" + "\r\n" + "";
    SplitLinesBreak("a", "\r", "\r\n");
    assert "a\r\r\n" == "a" + "\r" + "\r\n";
  }
}
