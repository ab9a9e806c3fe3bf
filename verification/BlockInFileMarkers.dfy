/** Markers that a later run does not find where they were written: those that hold a line feed,
    and those that end in a carriage return. */
module BlockInFileMarkers {
  import opened TextLines
  import opened BlockInFile
  import opened BlockInFileShape

  // ----- Markers of several lines

  lemma PlainIsOneLine(line: string)
    requires IsLine(line)
    ensures OneLine(Plain(line)) && |line| <= |Plain(line)| + 2
  {
    var once := TrimSuffix(line, '\n');
    assert forall i :: 0 <= i < |once| ==> once[i] == line[i] && once[i] != '\n';
    assert forall i :: 0 <= i < |Plain(line)| ==> Plain(line)[i] == once[i];
  }

  lemma PlainMarker(marker: string, sep: string)
    requires IsSeparator(sep)
    ensures |Plain(marker + sep)| <= |marker|
    ensures !OneLine(marker) ==> !OneLine(Plain(marker + sep))
  {
    var line := marker + sep;
    if sep == LF {
      assert TrimSuffix(line, '\n') == marker;
    } else {
      assert TrimSuffix(line, '\n') == marker + "\r" && TrimSuffix(marker + "\r", '\r') == marker;
    }
    if !OneLine(marker) {
      var i :| 0 <= i < |marker| && marker[i] == '\n';
      assert Plain(line)[i] == '\n';
    }
  }

  /** No line of a file reads like a marker that holds a line feed. */
  lemma Unmatched(lines: seq<string>, marker: string, sep: string)
    requires WellFormed(lines) && IsSeparator(sep) && !OneLine(marker)
    ensures LastMarker(lines, Plain(marker + sep)) == -1
  {
    hide Plain;
    PlainMarker(marker, sep);
    forall i | 0 <= i < |lines|
      ensures Plain(lines[i]) != Plain(marker + sep)
    {
      PlainIsOneLine(lines[i]);
    }
    LastMarkerUnique(lines, Plain(marker + sep), -1);
  }

  function Cut(req: Request, lines: seq<string>, sep: string): seq<string> {
    var span := FindSpan(req, lines, sep);
    lines[span.from..span.to]
  }

  lemma MatchedLength(line: string, marker: string, sep: string)
    requires IsLine(line) && IsSeparator(sep) && Plain(line) == Plain(marker + sep)
    ensures |line| <= |marker| + 2
  {
    hide Plain;
    PlainIsOneLine(line);
    PlainMarker(marker, sep);
  }

  lemma BlockIsLong(req: Request, sep: string)
    requires req.block != "" && IsSeparator(sep)
    ensures |Join(BlockLines(req, sep))| > |Begin(req)| + 2 && |Join(BlockLines(req, sep))| > |Finish(req)| + 2
  {
    hide Begin, Finish, BlockLines, BlockText;
    BlockLength(req, sep);
    MarkersNonempty(req);
    BlockTextTerminated(req.block, sep);
  }

  lemma LineOf(lines: seq<string>, i: nat)
    requires WellFormed(lines) && i < |lines|
    ensures IsLine(lines[i])
  {
  }

  /** A single line that is taken out is a stray marker, and that is shorter than any block. */
  lemma StrayIsShort(req: Request, lines: seq<string>, sep: string, blockSep: string)
    requires |Cut(req, lines, sep)| <= 1 && WellFormed(lines) && req.block != ""
    requires IsSeparator(sep) && IsSeparator(blockSep)
    ensures |Join(Cut(req, lines, sep))| < |Join(BlockLines(req, blockSep))|
  {
    hide Begin, Finish, Plain, BlockLines, Position, LastWhere, WellFormed;
    BlockIsLong(req, blockSep);
    var cut := Cut(req, lines, sep);
    if |cut| == 1 {
      LineOf(lines, FindSpan(req, lines, sep).from);
      assert cut == [cut[0]] && Join(cut) == cut[0] + "" == cut[0];
      if Plain(cut[0]) == Plain(Begin(req) + sep) {
        MatchedLength(cut[0], Begin(req), sep);
      } else {
        MatchedLength(cut[0], Finish(req), sep);
      }
    }
  }

  /** If a marker holds a line feed, at most a stray line with the other one is taken out. */
  lemma CutIsShort(req: Request, lines: seq<string>, sep: string, blockSep: string)
    requires !OneLineMarkers(req) && WellFormed(lines) && req.block != "" && IsSeparator(sep) && IsSeparator(blockSep)
    ensures |Join(Cut(req, lines, sep))| < |Join(BlockLines(req, blockSep))|
  {
    hide Begin, Finish, Plain, BlockLines, Position, LastWhere, WellFormed;
    if !OneLine(Begin(req)) {
      Unmatched(lines, Begin(req), sep);
    } else {
      Unmatched(lines, Finish(req), sep);
    }
    StrayIsShort(req, lines, sep, blockSep);
  }

  lemma CutLength(req: Request, lines: seq<string>, sep: string)
    ensures var gap := FindGap(req, lines, sep);
      |Join(lines)| == |Join(gap.above)| + |Join(Cut(req, lines, sep))| + |Join(gap.below)|
  {
    hide FindSpan, Join;
    var span := FindSpan(req, lines, sep);
    assert lines == lines[..span.from] + lines[span.from..span.to] + lines[span.to..];
    JoinThree(lines[..span.from], lines[span.from..span.to], lines[span.to..]);
  }

  lemma TerminateLastLength(lines: seq<string>, sep: string)
    requires IsSeparator(sep)
    ensures |Join(TerminateLast(lines, sep))| ==
      |Join(lines)| + if lines != [] && !Terminated(lines[|lines| - 1]) then |sep| else 0
  {
    if lines != [] && !Terminated(lines[|lines| - 1]) {
      var n := |lines| - 1;
      assert lines == lines[..n] + [lines[n]];
      JoinConcat(lines[..n], [lines[n]]);
      JoinConcat(lines[..n], [lines[n] + sep]);
    }
  }

  lemma BlankLength(blank: seq<string>, sep: string)
    requires IsSeparator(sep) && (blank == [] || blank == [sep])
    ensures |Join(blank)| == if blank == [] then 0 else |sep|
  {
    assert [sep][1..] == [];
  }

  /** Nothing but the cut lines is lost. */
  lemma PresentLength(req: Request, lines: seq<string>, sep: string)
    requires IsSeparator(sep)
    ensures |Join(PresentLines(req, lines, sep))| >=
      |Join(lines)| - |Join(Cut(req, lines, sep))| + |Join(BlockLines(req, sep))|
  {
    hide Join, FindGap, BlockLines, TerminateLast, Cut, Plain;
    var gap := FindGap(req, lines, sep);
    var above := TerminateLast(gap.above, sep);
    CutLength(req, lines, sep);
    TerminateLastLength(gap.above, sep);
    JoinConcat(above, BlankAbove(req, above, sep));
    JoinConcat(BlankBelow(req, gap.below, sep), gap.below);
    JoinThree(Upper(req, lines, sep), BlockLines(req, sep), Lower(req, lines, sep));
  }

  lemma AbsentLength(req: Request, lines: seq<string>, sep: string)
    requires IsSeparator(sep)
    ensures |Join(AbsentLines(req, lines, sep))| >= |Join(lines)| - |Join(Cut(req, lines, sep))|
  {
    hide Join, FindGap, TerminateLast, Cut;
    var gap := FindGap(req, lines, sep);
    CutLength(req, lines, sep);
    TerminateLastLength(gap.above, sep);
    JoinConcat(TerminateLast(gap.above, sep), gap.below);
  }

  /** A block between markers that cannot be found again is added once more by every run. */
  lemma BrokenGrows(req: Request, content: string)
    requires !OneLineMarkers(req) && req.block != ""
    ensures |Present(req, content)| > |content|
  {
    hide Join, Split, PresentLines, Cut, OneLineMarkers, BlockLines, HasCRLF;
    var lines, sep := Split(content), Separator(content);
    JoinSplit(content);
    SplitWellFormed(content);
    CutIsShort(req, lines, sep, sep);
    PresentLength(req, lines, sep);
  }

  // ----- Removing

  /** No line of the file reads like the markers that a run looks for. */
  ghost predicate Unmarked(req: Request, content: string) {
    var lines, sep := Split(content), Separator(content);
    forall i :: 0 <= i < |lines| ==>
      Plain(lines[i]) != Plain(Begin(req) + sep) && Plain(lines[i]) != Plain(Finish(req) + sep)
  }

  lemma NothingFound(req: Request, content: string)
    requires Unmarked(req, content)
    ensures var lines, sep := Split(content), Separator(content);
      FindSpan(req, lines, sep) == Span(Position(lines, req.where), Position(lines, req.where))
  {
    hide Plain, Begin, Finish, Position, Split, HasCRLF;
    var lines, sep := Split(content), Separator(content);
    LastMarkerUnique(lines, Plain(Begin(req) + sep), -1);
    LastMarkerUnique(lines, Plain(Finish(req) + sep), -1);
  }

  lemma AroundLength(above: seq<string>, below: seq<string>, blankAbove: seq<string>, blankBelow: seq<string>,
                     sep: string)
    requires IsSeparator(sep) && (blankAbove == [] || blankAbove == [sep]) && (blankBelow == [] || blankBelow == [sep])
    ensures var around := Join(TerminateLast(above, sep) + blankAbove) + Join(blankBelow + below);
      if (above == [] || Terminated(above[|above| - 1])) && blankAbove == [] && blankBelow == []
      then around == Join(above + below)
      else |around| > |Join(above + below)|
  {
    hide Join, Terminated;
    JoinConcat(above, below);
    TerminateLastLength(above, sep);
    JoinConcat(TerminateLast(above, sep), blankAbove);
    JoinConcat(blankBelow, below);
    BlankLength(blankAbove, sep);
    BlankLength(blankBelow, sep);
    assert above + [] == above && [] + below == below;
  }

  /** A run that takes out less than the block leaves a longer file than there was before. */
  lemma ShortCutStays(req: Request, content: string)
    requires Unmarked(req, content) && req.block != ""
    requires var once := Present(req, content);
      |Join(Cut(req, Split(once), Separator(once)))| < |Join(BlockLines(req, Separator(content)))|
    ensures |Absent(req, Present(req, content))| > |content|
  {
    hide Join, Split, PresentLines, AbsentLines, FindSpan, BlockLines, HasCRLF, Unmarked;
    var lines, sep := Split(content), Separator(content);
    var once := Present(req, content);
    JoinSplit(content);
    NothingFound(req, content);
    assert Cut(req, lines, sep) == [];
    BlankLength([], sep);
    PresentLength(req, lines, sep);
    JoinSplit(once);
    AbsentLength(req, Split(once), Separator(once));
  }

  /** A block that cannot be found again is not removed. */
  lemma BrokenStays(req: Request, content: string)
    requires !OneLineMarkers(req) && req.block != "" && Unmarked(req, content)
    ensures |Absent(req, Present(req, content))| > |content|
  {
    hide Join, Split, Present, Absent, Cut, BlockLines, HasCRLF, OneLineMarkers, Unmarked;
    var once := Present(req, content);
    SplitWellFormed(once);
    CutIsShort(req, Split(once), Separator(once), Separator(content));
    ShortCutStays(req, content);
  }
}
