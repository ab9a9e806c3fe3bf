/** When keeping a block is idempotent, and when removing it restores the file. */
module BlockInFileLaws {
  import opened Values
  import opened TextLines
  import opened BlockInFile
  import opened BlockInFileShape
  import opened BlockInFileMarkers
  import opened BlockInFileReturns

  // ----- Idempotence

  lemma RegroupFour<T>(a: seq<T>, b: seq<T>, c: seq<T>, d: seq<T>)
    ensures a + b + c + d == a + (b + c + d)
  {
  }

  /** What the second run looks for is still readable. */
  lemma CleanNextTime(req: Request, content: string)
    requires CleanMarkers(req, Separator(content)) && req.block != ""
    ensures CleanMarkers(req, Separator(Present(req, content)))
  {
    hide Present, HasCRLF, Begin, Finish;
    SeparatorAgain(req, content);
  }

  /** What a run keeps above and below when it finds a file with a fresh block. */
  lemma AgainAround(req: Request, upper: seq<string>, lower: seq<string>, sep: string, sep2: string)
    returns (blank: seq<string>)
    requires CleanMarkers(req, sep) && CleanMarkers(req, sep2) && req.block != ""
    requires IsSeparator(sep) && IsSeparator(sep2)
    requires NoMarkers(req, lower) && AllTerminated(upper)
    requires BlankAbove(req, upper, sep2) == [] && BlankBelow(req, lower, sep2) == []
    ensures Upper(req, upper + BlockLines(req, sep) + lower, sep2) == upper + Leftover(req, sep) + blank
    ensures Lower(req, upper + BlockLines(req, sep) + lower, sep2) == lower
    ensures Leftover(req, sep) == [] ==> blank == []
  {
    hide BlockLines, FindGap, BlankAbove, BlankBelow, NoMarkers, Clean;
    FoundAgain(req, upper, lower, sep, sep2);
    BlockLinesWellFormed(req, sep);
    var left := Leftover(req, sep);
    assert AllTerminated(upper + left);
    blank := BlankAbove(req, upper + left, sep2);
    assert [] + lower == lower;
    if left == [] {
      assert upper + left == upper;
    }
  }

  /** The text after a second run, in terms of the first. */
  lemma SecondRun(req: Request, content: string) returns (blank: seq<string>)
    requires CleanMarkers(req, Separator(content)) && req.block != ""
    ensures var lines, sep, sep2 := Split(content), Separator(content), Separator(Present(req, content));
      && Present(req, Present(req, content)) ==
           Join(Upper(req, lines, sep) + (Leftover(req, sep) + blank + BlockLines(req, sep2)) + Lower(req, lines, sep))
      && (Leftover(req, sep) == [] ==> blank == [])
  {
    hide Split, Join, HasCRLF, BlockLines, Leftover, FindGap, BlankAbove, BlankBelow, WellFormed, NoMarkers, Clean;
    var lines, sep := Split(content), Separator(content);
    SplitWellFormed(content);
    PresentShape(req, lines, sep);
    var once := Present(req, content);
    var sep2 := Separator(once);
    var upper, block, lower := Upper(req, lines, sep), BlockLines(req, sep), Lower(req, lines, sep);
    SplitJoin(upper + block + lower);
    hide Upper, Lower;
    CleanNextTime(req, content);
    blank := AgainAround(req, upper, lower, sep, sep2);
    RegroupFour(upper, Leftover(req, sep), blank, BlockLines(req, sep2));
  }

  lemma OnceIs(req: Request, content: string)
    requires req.block != ""
    ensures var lines, sep := Split(content), Separator(content);
      Present(req, content) == Join(Upper(req, lines, sep) + BlockLines(req, sep) + Lower(req, lines, sep))
    ensures HasCRLF(content) <==> Separator(content) == CRLF
  {
  }

  /** Whatever a second run leaves over makes the text longer, and so does another separator. */
  lemma Longer(req: Request, upper: seq<string>, lower: seq<string>, blank: seq<string>, sep: string, sep2: string)
    requires CleanMarkers(req, sep) && req.block != "" && IsSeparator(sep)
    requires Leftover(req, sep) != [] || sep2 != sep
    requires sep2 == sep || (sep == LF && sep2 == CRLF)
    ensures |Join(upper + (Leftover(req, sep) + blank + BlockLines(req, sep2)) + lower)|
      > |Join(upper + BlockLines(req, sep) + lower)|
  {
    hide Join, BlockLines, Leftover, Clean;
    var left, block, block2 := Leftover(req, sep), BlockLines(req, sep), BlockLines(req, sep2);
    JoinThree(upper, block, lower);
    JoinThree(upper, left + blank + block2, lower);
    JoinThree(left, blank, block2);
    LeftoverLength(req, sep);
    LongerWithCRLF(req);
  }

  // ----- Idempotence, for all markers

  lemma CleanIsKept(req: Request, content: string)
    ensures CleanMarkers(req, Separator(content)) <==> OneLineMarkers(req) && ReturnsKept(req, content)
  {
  }

  lemma IdempotentIfClean(req: Request, content: string)
    requires CleanMarkers(req, Separator(content)) && req.block != ""
    ensures Present(req, Present(req, content)) == Present(req, content) <==>
      && Begin(req) != Finish(req)
      && NoInnerBegin(req, Separator(content))
      && EndingsStable(req, content)
  {
    hide Present, Upper, Lower, BlockLines, Split, HasCRLF, FoundAt, NoInnerBegin, EndingsStable, Clean, Begin, Finish;
    var lines, sep := Split(content), Separator(content);
    var once := Present(req, content);
    var sep2 := Separator(once);
    var blank := SecondRun(req, content);
    FoundAtTop(req, sep);
    CleanIsKept(req, content);
    SeparatorAgain(req, content);
    OnceIs(req, content);
    var upper, lower := Upper(req, lines, sep), Lower(req, lines, sep);
    if Leftover(req, sep) == [] && sep2 == sep {
      assert Leftover(req, sep) + blank + BlockLines(req, sep2) == BlockLines(req, sep);
    } else {
      Longer(req, upper, lower, blank, sep, sep2);
    }
  }

  /** Running the edit twice gives the same file as running it once exactly when the markers are
      single lines that differ, no line of the block reads like the begin marker, and the block
      does not bring the first CRLF into the file.  Stray and reversed markers, the position and
      the blank line options make no difference.  A marker that ends in a carriage return, in a
      file without CRLF, is not found again; then a second run still changes nothing exactly when
      the block falls on itself. */
  lemma PresentIdempotent(req: Request, content: string)
    requires req.block != ""
    ensures Present(req, Present(req, content)) == Present(req, content) <==>
      && OneLineMarkers(req)
      && if ReturnsKept(req, content)
         then Begin(req) != Finish(req) && NoInnerBegin(req, Separator(content)) && EndingsStable(req, content)
         else FallsOnItself(req, content)
  {
    hide Present, HasCRLF, NoInnerBegin, EndingsStable, Begin, Finish, OneLine, EndsInReturn, FallsOnItself;
    if !OneLineMarkers(req) {
      BrokenGrows(req, Present(req, content));
    } else if ReturnsKept(req, content) {
      IdempotentIfClean(req, content);
    } else if FallsOnItself(req, content) {
      UnchangedIfFalls(req, content);
    } else if Present(req, Present(req, content)) == Present(req, content) {
      FallsIfUnchanged(req, content);
    }
  }

  // ----- Undoing

  lemma LeftoverIsEmpty(req: Request, sep: string)
    ensures Leftover(req, sep) == [] <==> FoundAt(req, sep) == 0
  {
  }

  /** Removing a fresh block leaves what is above, what it does not recognise, and what is below. */
  lemma AbsentLeaves(req: Request, upper: seq<string>, lower: seq<string>, sep: string, sep2: string)
    requires CleanMarkers(req, sep) && CleanMarkers(req, sep2) && req.block != ""
    requires IsSeparator(sep) && IsSeparator(sep2)
    requires NoMarkers(req, lower) && AllTerminated(upper)
    ensures AbsentLines(req, upper + BlockLines(req, sep) + lower, sep2) == upper + Leftover(req, sep) + lower
  {
    hide BlockLines, FindGap, NoMarkers, Clean;
    FoundAgain(req, upper, lower, sep, sep2);
    BlockLinesWellFormed(req, sep);
    assert AllTerminated(upper + Leftover(req, sep));
  }

  /** Around a new block no blank line is added: they are not asked for, or there is nothing on
      that side, or a blank line already. */
  predicate NoBlankAdded(req: Request, content: string) {
    var lines, sep := Split(content), Separator(content);
    var n := Position(lines, req.where);
    BlankAbove(req, TerminateLast(lines[..n], sep), sep) == [] && BlankBelow(req, lines[n..], sep) == []
  }

  /** The block does not go behind an unterminated last line. */
  predicate NoneTerminated(req: Request, content: string) {
    content == "" || Terminated(content) || Position(Split(content), req.where) < |Split(content)|
  }

  lemma TerminatedAbove(content: string, n: nat)
    requires n <= |Split(content)|
    ensures n == 0 || Terminated(Split(content)[n - 1]) <==>
      content == "" || Terminated(content) || n < |Split(content)|
  {
    SplitWellFormed(content);
  }

  lemma NewBlockGap(req: Request, lines: seq<string>, sep: string)
    requires CleanMarkers(req, sep) && IsSeparator(sep) && NoMarkers(req, lines)
    ensures var n := Position(lines, req.where);
      FindGap(req, lines, sep) == Gap(lines[..n], lines[n..])
  {
    hide Plain, Begin, Finish, Position;
    PlainMarkers(req, sep);
    LastMarkerUnique(lines, Begin(req), -1);
    LastMarkerUnique(lines, Finish(req), -1);
  }

  /** In a file without markers, the text around the block is the file, plus the blank lines and
      line ending that had to be added. */
  lemma AroundNewBlock(req: Request, content: string)
    requires CleanMarkers(req, Separator(content)) && NoMarkers(req, Split(content))
    ensures var lines, sep := Split(content), Separator(content);
      var around := Join(Upper(req, lines, sep)) + Join(Lower(req, lines, sep));
      if NoneTerminated(req, content) && NoBlankAdded(req, content) then around == content else |around| > |content|
  {
    hide Split, Join, HasCRLF, Position, Begin, Finish, FindGap, Plain, NoMarkers, Clean, TerminateLast, Terminated;
    var lines, sep := Split(content), Separator(content);
    JoinSplit(content);
    var n := Position(lines, req.where);
    NewBlockGap(req, lines, sep);
    var above, below := lines[..n], lines[n..];
    assert lines == above + below;
    TerminatedAbove(content, n);
    AroundLength(above, below, BlankAbove(req, TerminateLast(above, sep), sep), BlankBelow(req, below, sep), sep);
  }

  lemma UnmarkedIfClean(req: Request, content: string)
    requires CleanMarkers(req, Separator(content)) && Unmarked(req, content)
    ensures NoMarkers(req, Split(content))
  {
    hide Plain, Begin, Finish, Split, HasCRLF, Clean;
    PlainMarkers(req, Separator(content));
  }

  lemma UndoneIfClean(req: Request, content: string)
    requires CleanMarkers(req, Separator(content)) && req.block != "" && NoMarkers(req, Split(content))
    ensures Absent(req, Present(req, content)) == content <==>
      && Begin(req) != Finish(req)
      && NoInnerBegin(req, Separator(content))
      && NoneTerminated(req, content) && NoBlankAdded(req, content)
  {
    hide Split, Join, HasCRLF, BlockLines, Leftover, FindGap, BlankAbove, BlankBelow, WellFormed, NoMarkers, Clean,
      Position, FoundAt, NoInnerBegin, Begin, Finish, NoneTerminated, NoBlankAdded;
    var lines, sep := Split(content), Separator(content);
    SplitWellFormed(content);
    PresentShape(req, lines, sep);
    var once := Present(req, content);
    var sep2 := Separator(once);
    var upper, lower := Upper(req, lines, sep), Lower(req, lines, sep);
    SplitJoin(upper + BlockLines(req, sep) + lower);
    CleanNextTime(req, content);
    AbsentLeaves(req, upper, lower, sep, sep2);
    JoinThree(upper, Leftover(req, sep), lower);
    LeftoverLength(req, sep);
    FoundAtTop(req, sep);
    LeftoverIsEmpty(req, sep);
    AroundNewBlock(req, content);
  }

  /** Adding the block to a file without markers and removing it again restores the file exactly
      when the markers are single lines that differ and keep the ending of the file, no line of the
      block reads like the begin marker, the block did not go behind an unterminated last line, and
      no blank line had to be added around it. */
  lemma AbsentUndoesPresent(req: Request, content: string)
    requires req.block != "" && Unmarked(req, content)
    ensures Absent(req, Present(req, content)) == content <==>
      && OneLineMarkers(req) && Begin(req) != Finish(req)
      && ReturnsKept(req, content) && NoInnerBegin(req, Separator(content))
      && NoneTerminated(req, content) && NoBlankAdded(req, content)
  {
    hide Present, Absent, HasCRLF, NoInnerBegin, NoneTerminated, NoBlankAdded, Begin, Finish, OneLine,
      EndsInReturn, Unmarked;
    if !OneLineMarkers(req) {
      BrokenStays(req, content);
    } else if ReturnsKept(req, content) {
      UnmarkedIfClean(req, content);
      UndoneIfClean(req, content);
    } else {
      NeverUndone(req, content);
    }
  }

  lemma NothingFoundIsUnmarked(req: Request, content: string)
    ensures var span := FindSpan(req, Split(content), Separator(content));
      span.from == span.to <==> Unmarked(req, content)
  {
    hide Plain, Begin, Finish, Position, Split, HasCRLF;
    if Unmarked(req, content) {
      NothingFound(req, content);
    }
  }

  lemma TerminateLastShort(lines: seq<string>, span: Span, sep: string)
    requires WellFormed(lines) && span.from < span.to <= |lines|
    ensures |Join(TerminateLast(lines[..span.from], sep) + lines[span.to..])| < |Join(lines)|
  {
    var above, cut, below := lines[..span.from], lines[span.from..span.to], lines[span.to..];
    assert lines == above + cut + below && TerminateLast(above, sep) == above;
    JoinThree(above, cut, below);
    JoinConcat(above, below);
    JoinNonempty(cut);
  }

  /** A run that removes the block, or has an empty one to keep, changes nothing exactly when no
      line reads like a marker and it does not come to stand behind an unterminated last line. */
  lemma AbsentChangesNothing(req: Request, content: string)
    ensures Absent(req, content) == content <==> Unmarked(req, content) && NoneTerminated(req, content)
  {
    hide Split, Join, HasCRLF, Unmarked, Terminated, TerminateLast, WellFormed, FindSpan;
    var lines, sep := Split(content), Separator(content);
    var span := FindSpan(req, lines, sep);
    JoinSplit(content);
    SplitWellFormed(content);
    NothingFoundIsUnmarked(req, content);
    if span.from < span.to {
      TerminateLastShort(lines, span, sep);
    } else {
      NothingFound(req, content);
      var n := span.from;
      assert lines == lines[..n] + lines[n..];
      TerminatedAbove(content, n);
      AroundLength(lines[..n], lines[n..], [], [], sep);
      var above, below := TerminateLast(lines[..n], sep), lines[n..];
      assert above + [] == above && [] + below == below;
      JoinConcat(above, below);
    }
  }

  // ----- A block in front of a match

  lemma CharOfLine(lines: seq<string>, n: nat, at: nat)
    requires n < |lines| && |Join(lines[..n])| <= at < |Join(lines[..n])| + |lines[n]|
    ensures at < |Join(lines)| && Join(lines)[at] == lines[n][at - |Join(lines[..n])|]
  {
    hide Join;
    LinesBefore(lines, n);
    JoinConcat(lines[..n + 1], lines[n + 1..]);
    assert lines == lines[..n + 1] + lines[n + 1..];
  }

  lemma LineNonempty(lines: seq<string>, n: nat)
    requires WellFormed(lines) && n < |lines|
    ensures |lines[n]| > 0
  {
  }

  /** Asked to stand in front of a match across lines, the block stands directly above the line in
      which the match begins exactly when that is not at the beginning of a line after the first. */
  lemma InFrontOfMatch(content: string, find: string -> Option<(nat, nat)>, ends: (nat, nat))
    requires find(content) == Some(ends) && ends.0 < |content|
    ensures var lines, n := Split(content), Position(Split(content), Multiline(find, false));
      && n < |lines|
      && (|Join(lines[..n])| <= ends.0 < |Join(lines[..n + 1])| <==> ends.0 == 0 || content[ends.0 - 1] != '\n')
  {
    hide Split, Join, LineAt;
    var lines, at := Split(content), ends.0;
    JoinSplit(content);
    SplitWellFormed(content);
    LineAtIs(lines, at);
    var n := LineAt(lines, at);
    assert lines != [] by {
      EmptyText();
    }
    LinesBefore(lines, n);
    if at > 0 {
      assert n == 0 ==> lines[..0] == [];
      EmptyText();
      CharOfLine(lines, n, at - 1);
      assert n == |lines| - 1 ==> lines[..n + 1] == lines;
    } else {
      LineNonempty(lines, n);
      assert n == 0 ==> lines[..0] == [];
      EmptyText();
    }
  }

  // ----- Requests for which a second run changes the file again

  /** A block with a CRLF put into an empty file: the second run takes CRLF for the ending. */
  lemma CarriageReturnInBlock()
    ensures var req := Request("{mark}", "B", "E", "a\r\n", End, false, false);
      Present(req, Present(req, "")) != Present(req, "")
  {
    var req := Request("{mark}", "B", "E", "a\r\n", End, false, false);
    hide Split, Present, FindGap;
    assert Begin(req) == "B" && Finish(req) == "E";
    assert req.block[1] == '\r' && req.block[1 + 1] == '\n';
    assert HasCRLF(req.block);
    PresentIdempotent(req, "");
  }

  /** A block that holds its own begin marker: the second run keeps the first part of it. */
  lemma MarkerInBlock()
    ensures var req := Request("{mark}", "B", "E", "B", End, false, false);
      Present(req, Present(req, "")) != Present(req, "")
  {
    var req := Request("{mark}", "B", "E", "B", End, false, false);
    assert Begin(req) == "B" && Finish(req) == "E";
    var text := BlockText(req.block, LF);
    assert text == "B\n";
    SplitOneLine(text);
    assert Plain(Split(text)[0]) == "B";
    PresentIdempotent(req, "");
  }

  lemma EmptyHasNoCRLF()
    ensures !HasCRLF("")
  {
  }

  /** A begin marker that ends in a carriage return, in an empty file. */
  lemma ReturnInMarker()
    ensures var req := Request("{mark}", "B\r", "E", "a", End, false, false);
      Present(req, Present(req, "")) != Present(req, "")
  {
    var req := Request("{mark}", "B\r", "E", "a", End, false, false);
    assert Begin(req) == "B\r" && Finish(req) == "E";
    hide Present, HasCRLF, Begin, Finish, NoInnerBegin, EndingsStable;
    assert !HasCRLF("") by {
      EmptyHasNoCRLF();
    }
    PresentIdempotent(req, "");
  }

  lemma NoMarkerLine(req: Request, line: string)
    requires IsLine(line) && Plain(line) != Plain(Begin(req) + LF) && Plain(line) != Plain(Finish(req) + LF)
    requires req.where == End
    ensures FindGap(req, Split(line), LF).above == [line]
  {
    hide Plain, Begin, Finish;
    SplitOneLine(line);
    LastMarkerUnique([line], Plain(Begin(req) + LF), -1);
    LastMarkerUnique([line], Plain(Finish(req) + LF), -1);
  }

  lemma ExampleFalls(req: Request, content: string)
    requires Begin(req) == "X\r\r" && Finish(req) == "X\r" && req.block == "X\r\r\n" && content == "X\r\r\r"
    requires req.where == End && !req.prependNewline && !req.appendNewline
    ensures FallsOnItself(req, content) && OneLineMarkers(req) && !ReturnsKept(req, content)
  {
    hide Begin, Finish, FindGap, Split;
    assert Plain(content) == "X\r\r" && Plain("X\r\r" + LF) == "X\r" && Plain("X\r" + LF) == "X";
    hide Plain;
    NoMarkerLine(req, content);
    assert BlockText(req.block, LF) == BlockText(req.block, CRLF) == req.block;
    SplitOneLine(req.block);
  }

  /** Two runs that agree although the second finds neither marker where the first wrote it. */
  lemma ReturnsInMarkers()
    ensures var req := Request("{mark}", "X\r\r", "X\r", "X\r\r\n", End, false, false);
      !ReturnsKept(req, "X\r\r\r") && Present(req, Present(req, "X\r\r\r")) == Present(req, "X\r\r\r")
  {
    var req, content := Request("{mark}", "X\r\r", "X\r", "X\r\r\n", End, false, false), "X\r\r\r";
    hide Present, FallsOnItself, EndingsStable, NoInnerBegin, HasCRLF, EndsInReturn, OneLine, ReturnsKept,
      OneLineMarkers;
    assert Begin(req) == "X\r\r" && Finish(req) == "X\r";
    ExampleFalls(req, content);
    PresentIdempotent(req, content);
  }

  /** A match at the beginning of the second line: the block goes above the first. */
  lemma InFrontOfSecondLine()
    ensures var find := (text: string) => if text == "a\nb\n" then Some((2, 3)) else None;
      Position(Split("a\nb\n"), Multiline(find, false)) == 0
  {
    var find := (text: string) => if text == "a\nb\n" then Some((2, 3)) else None;
    assert "a\nb\n" == "a\n" + "b\n";
    SplitOneLine("b\n");
    SplitAfterLine("a\n", "b\n");
    assert Split("a\nb\n") == ["a\n", "b\n"];
    JoinSplit("a\nb\n");
  }
}
