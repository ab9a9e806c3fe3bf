/** Text cut into lines that keep their endings. */
module TextLines {

  function Join(lines: seq<string>): string {
    if lines == [] then "" else lines[0] + Join(lines[1..])
  }

  /** The lines of a text, each with its line feed; only the last may lack one. */
  function Split(s: string): seq<string> {
    if s == "" then []
    else if s[0] == '\n' then ["\n"] + Split(s[1..])
    else
      var rest := Split(s[1..]);
      if rest == [] then [[s[0]]] else [[s[0]] + rest[0]] + rest[1..]
  }

  predicate Terminated(line: string) {
    line != "" && line[|line| - 1] == '\n'
  }

  /** A nonempty piece of text with no line feed except perhaps at its end. */
  ghost predicate IsLine(line: string) {
    line != "" && forall i :: 0 <= i < |line| - 1 ==> line[i] != '\n'
  }

  /** A list of lines as splitting a text yields it. */
  ghost predicate WellFormed(lines: seq<string>) {
    && (forall i :: 0 <= i < |lines| ==> IsLine(lines[i]))
    && (forall i :: 0 <= i < |lines| - 1 ==> Terminated(lines[i]))
  }

  ghost predicate AllTerminated(lines: seq<string>) {
    forall i :: 0 <= i < |lines| ==> Terminated(lines[i])
  }

  lemma {:induction false} JoinSplit(s: string)
    ensures Join(Split(s)) == s
  {
    if s != "" {
      JoinSplit(s[1..]);
    }
  }

  lemma {:induction false} SplitWellFormed(s: string)
    ensures WellFormed(Split(s))
    ensures s == "" <==> Split(s) == []
    ensures s != "" ==> (Terminated(s) <==> Terminated(Split(s)[|Split(s)| - 1]))
  {
    if s != "" {
      SplitWellFormed(s[1..]);
      var rest := Split(s[1..]);
      var lines := Split(s);
      if s[0] == '\n' {
        assert lines == ["\n"] + rest;
        assert rest == [] <==> s == "\n";
      } else if rest != [] {
        assert lines == [[s[0]] + rest[0]] + rest[1..];
        assert Terminated(lines[0]) <==> Terminated(rest[0]);
      }
    }
  }

  /** A text that ends in a line feed has only terminated lines. */
  lemma SplitTerminated(s: string)
    requires s == "" || Terminated(s)
    ensures AllTerminated(Split(s))
  {
    SplitWellFormed(s);
  }

  lemma {:induction false} SplitOneLine(line: string)
    requires IsLine(line)
    ensures Split(line) == [line]
  {
    if |line| > 1 {
      SplitOneLine(line[1..]);
      assert line == [line[0]] + line[1..];
    } else {
      assert line[1..] == "" && line == [line[0]];
    }
  }

  /** Text is split independently on both sides of a line feed. */
  lemma {:induction false} SplitAfterLine(line: string, rest: string)
    requires IsLine(line) && Terminated(line)
    ensures Split(line + rest) == [line] + Split(rest)
  {
    if |line| > 1 {
      SplitAfterLine(line[1..], rest);
      assert (line + rest)[1..] == line[1..] + rest;
      assert line == [line[0]] + line[1..];
    } else {
      assert line == "\n" && (line + rest)[1..] == rest;
    }
  }

  lemma {:induction false} SplitJoin(lines: seq<string>)
    requires WellFormed(lines)
    ensures Split(Join(lines)) == lines
  {
    if |lines| == 1 {
      assert Join(lines) == lines[0] + "" == lines[0];
      SplitOneLine(lines[0]);
    } else if lines != [] {
      SplitJoin(lines[1..]);
      SplitAfterLine(lines[0], Join(lines[1..]));
    }
  }

  lemma ConcatThree(a: string, b: string, c: string)
    ensures a + (b + c) == (a + b) + c
  {
  }

  lemma {:induction false} JoinConcat(a: seq<string>, b: seq<string>)
    ensures Join(a + b) == Join(a) + Join(b)
  {
    if a == [] {
      assert a + b == b;
    } else {
      JoinConcat(a[1..], b);
      assert (a + b)[0] == a[0] && (a + b)[1..] == a[1..] + b;
      ConcatThree(a[0], Join(a[1..]), Join(b));
    }
  }

  lemma {:induction false} JoinNonempty(lines: seq<string>)
    requires lines != [] && forall i :: 0 <= i < |lines| ==> lines[i] != ""
    ensures |Join(lines)| > 0
  {
  }

  lemma WellFormedConcat(a: seq<string>, b: seq<string>)
    requires WellFormed(a) && WellFormed(b) && (b != [] ==> AllTerminated(a))
    ensures WellFormed(a + b)
  {
  }

  // ----- Carriage return followed by line feed

  predicate HasCRLF(s: string) {
    exists i :: 0 <= i < |s| - 1 && s[i] == '\r' && s[i + 1] == '\n'
  }

  lemma CRLFConcat(a: string, b: string)
    ensures HasCRLF(a + b) <==>
      HasCRLF(a) || HasCRLF(b) || (a != "" && b != "" && a[|a| - 1] == '\r' && b[0] == '\n')
  {
    var s := a + b;
    if HasCRLF(a) {
      var i :| 0 <= i < |a| - 1 && a[i] == '\r' && a[i + 1] == '\n';
      assert s[i] == '\r' && s[i + 1] == '\n';
    }
    if HasCRLF(b) {
      var i :| 0 <= i < |b| - 1 && b[i] == '\r' && b[i + 1] == '\n';
      assert s[|a| + i] == '\r' && s[|a| + i + 1] == '\n';
    }
    if a != "" && b != "" && a[|a| - 1] == '\r' && b[0] == '\n' {
      assert s[|a| - 1] == '\r' && s[|a| - 1 + 1] == '\n';
    }
    if HasCRLF(s) {
      var i :| 0 <= i < |s| - 1 && s[i] == '\r' && s[i + 1] == '\n';
      if i < |a| - 1 {
        assert a[i] == '\r' && a[i + 1] == '\n';
      } else if i >= |a| {
        assert b[i - |a|] == '\r' && b[i - |a| + 1] == '\n';
      }
    }
  }

  /** Whether some line of the list holds the pair. */
  ghost predicate LinesHaveCRLF(lines: seq<string>) {
    exists i :: 0 <= i < |lines| && HasCRLF(lines[i])
  }

  /** The pair never straddles two lines that follow a line feed. */
  lemma {:induction false} CRLFInLines(lines: seq<string>)
    requires WellFormed(lines)
    ensures HasCRLF(Join(lines)) <==> LinesHaveCRLF(lines)
  {
    if lines != [] {
      CRLFInLines(lines[1..]);
      CRLFConcat(lines[0], Join(lines[1..]));
      assert |lines| == 1 ==> Join(lines[1..]) == "";
      if LinesHaveCRLF(lines[1..]) {
        var i :| 0 <= i < |lines[1..]| && HasCRLF(lines[1..][i]);
        assert HasCRLF(lines[i + 1]);
      }
      if LinesHaveCRLF(lines) {
        var i :| 0 <= i < |lines| && HasCRLF(lines[i]);
        if i > 0 {
          assert HasCRLF(lines[1..][i - 1]);
        }
      }
    }
  }

  /** `lines` are the lines of the part of the text in front of `start`. */
  ghost predicate CutSoFar(content: string, lines: seq<string>, start: nat) {
    start <= |content| && lines + Split(content[start..]) == Split(content)
  }

  lemma CutRest(content: string, lines: seq<string>, start: nat)
    requires CutSoFar(content, lines, start)
    requires forall k :: start <= k < |content| ==> content[k] != '\n'
    ensures Split(content) == if start < |content| then lines + [content[start..]] else lines
  {
    if start < |content| {
      SplitOneLine(content[start..]);
    }
  }

  lemma CutAt(content: string, lines: seq<string>, start: nat, end: nat)
    requires start < end <= |content| && content[end - 1] == '\n'
    requires forall k :: start <= k < end - 1 ==> content[k] != '\n'
    requires CutSoFar(content, lines, start)
    ensures CutSoFar(content, lines + [content[start..end]], end)
  {
    hide Split;
    var line := content[start..end];
    assert content[start..] == line + content[end..];
    SplitAfterLine(line, content[end..]);
    assert lines + ([line] + Split(content[end..])) == (lines + [line]) + Split(content[end..]);
  }

  lemma CutNothing(content: string)
    ensures CutSoFar(content, [], 0) && (content == "" ==> Split(content) == [])
  {
    assert content[0..] == content && [] + Split(content) == Split(content);
  }

  /** The loop of the source: it cuts after a line feed, and after a carriage return and line
      feed taken together. */
  method SplitLinesKeepEndings(content: string) returns (lines: seq<string>)
    ensures lines == Split(content)
  {
    hide Split, CutSoFar;
    CutNothing(content);
    if content == "" {
      return [];
    }
    lines := [];
    var start := 0;
    var i := 0;
    while i < |content|
      invariant 0 <= start <= i <= |content|
      invariant forall k :: start <= k < i ==> content[k] != '\n'
      invariant CutSoFar(content, lines, start)
    {
      if content[i] == '\n' {
        CutAt(content, lines, start, i + 1);
        lines := lines + [content[start..i + 1]];
        start := i + 1;
      } else if content[i] == '\r' && i + 1 < |content| && content[i + 1] == '\n' {
        assert forall k :: start <= k < i + 1 ==> content[k] != '\n';
        CutAt(content, lines, start, i + 2);
        lines := lines + [content[start..i + 2]];
        start := i + 2;
        i := i + 1;
      }
      i := i + 1;
    }
    CutRest(content, lines, start);
    if start < |content| {
      lines := lines + [content[start..]];
    }
  }
}
