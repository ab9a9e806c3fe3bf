/** Markers that end in a carriage return, in a file without CRLF: written there they bring the
    first CRLF, so that the next run looks for other markers than those it finds. */
module BlockInFileReturns {
  import opened TextLines
  import opened BlockInFile
  import opened BlockInFileShape
  import opened BlockInFileMarkers

  // ----- What the next run reads

  lemma WrittenReads(marker: string)
    ensures Plain(marker + LF) == if EndsInReturn(marker) then marker[..|marker| - 1] else marker
  {
    assert (marker + LF)[..|marker|] == marker;
  }

  lemma CRLFMarker(marker: string)
    requires OneLine(marker)
    ensures Plain(marker + CRLF) == marker
  {
    MarkerPlain(marker, CRLF);
  }

  /** A line that reads like a marker which ends in a carriage return. */
  lemma ReadsReturn(line: string, marker: string)
    requires EndsInReturn(marker) && Plain(line) == marker
    ensures line == marker + CRLF || line == marker + "\r"
    ensures Terminated(line) ==> line == marker + CRLF && HasCRLF(line)
  {
    var once := TrimSuffix(line, '\n');
    assert line == once || line == once + "\n";
    assert once == marker || once == marker + "\r";
    assert once != marker;
    if Terminated(line) {
      assert line == marker + "\r" + "\n" == marker + CRLF;
      assert line[|marker|] == '\r' && line[|marker| + 1] == '\n';
    }
  }

  lemma OneHasCRLF(lines: seq<string>, i: nat)
    requires i < |lines| && HasCRLF(lines[i])
    ensures LinesHaveCRLF(lines)
  {
  }

  /** The file after the first run, and where it has a CRLF. */
  lemma FirstRun(req: Request, content: string)
    requires OneLineMarkers(req) && !ReturnsKept(req, content) && req.block != ""
    ensures Separator(content) == LF && Separator(Present(req, content)) == CRLF
    ensures var upper, lower := Upper(req, Split(content), LF), Lower(req, Split(content), LF);
      && Split(Present(req, content)) == upper + BlockLines(req, LF) + lower
      && WellFormed(upper + BlockLines(req, LF) + lower)
      && AllTerminated(upper) && !LinesHaveCRLF(lower)
  {
    hide Split, Join, BlockLines, Upper, Lower, EndingsStable, EndsInReturn, LinesHaveCRLF, WellFormed;
    var lines := Split(content);
    SplitWellFormed(content);
    PresentShape(req, lines, LF);
    SeparatorAgain(req, content);
    LowerCRLF(req, content);
    SplitJoin(Upper(req, lines, LF) + BlockLines(req, LF) + Lower(req, lines, LF));
  }

  /** The part above the block has a CRLF only where the last line of the file was terminated. */
  lemma UpperReturn(req: Request, content: string, i: nat)
    requires !HasCRLF(content) && i < |Upper(req, Split(content), LF)| && HasCRLF(Upper(req, Split(content), LF)[i])
    ensures var gap := FindGap(req, Split(content), LF);
      && i + 1 == |gap.above| && Upper(req, Split(content), LF)[i] == gap.above[i] + LF
      && !Terminated(gap.above[i])
      && gap.below == [] && Lower(req, Split(content), LF) == []
  {
    hide FindGap, Split, Plain, HasCRLF, LinesHaveCRLF, WellFormed;
    SplitWellFormed(content);
    GapCRLF(req, content);
    GapWellFormed(req, Split(content), LF);
    var above := FindGap(req, Split(content), LF).above;
    BlankHasNoCRLF();
    assert i >= |above| ==> Upper(req, Split(content), LF)[i] == LF;
    if i >= |above| {
      OneHasCRLF([LF], 0);
    } else if Upper(req, Split(content), LF)[i] == above[i] {
      OneHasCRLF(above, i);
    }
  }

  lemma BlockParts(req: Request, sep: string)
    ensures var lines, inner := BlockLines(req, sep), Split(BlockText(req.block, sep));
      && |lines| == |inner| + 2
      && lines[0] == Begin(req) + sep && lines[|inner| + 1] == Finish(req) + sep
      && forall i :: 0 <= i < |inner| ==> lines[i + 1] == inner[i]
  {
    hide Begin, Finish, BlockText, Split;
  }

  // ----- The lines of the block, with the one ending and the other

  /** Splitting a text of which the last line has been replaced. */
  lemma SplitWithLast(text: string, last: string)
    requires text != "" && IsLine(last)
    ensures var lines := Split(text);
      && lines != [] && |lines[|lines| - 1]| <= |text|
      && text[|text| - |lines[|lines| - 1]|..] == lines[|lines| - 1]
      && Split(text[..|text| - |lines[|lines| - 1]|] + last) == lines[..|lines| - 1] + [last]
  {
    var lines := Split(text);
    SplitWellFormed(text);
    JoinSplit(text);
    hide Split;
    var n := |lines| - 1;
    assert lines == lines[..n] + [lines[n]];
    JoinConcat(lines[..n], [lines[n]]);
    JoinConcat(lines[..n], [last]);
    assert Join([lines[n]]) == lines[n] && Join([last]) == last;
    SplitJoin(lines[..n] + [last]);
  }

  lemma LastLine(text: string)
    requires text != ""
    ensures var lines := Split(text);
      && lines != [] && IsLine(lines[|lines| - 1])
      && (Terminated(text) <==> Terminated(lines[|lines| - 1]))
      && (EndsWithCRLF(text) ==> EndsWithCRLF(lines[|lines| - 1]))
  {
    var lines := Split(text);
    SplitWellFormed(text);
    var last := lines[|lines| - 1];
    SplitWithLast(text, last);
    hide Split;
    assert text == text[..|text| - |last|] + last;
    if EndsWithCRLF(text) && |last| == 1 {
      var above := text[..|text| - 1];
      JoinSplit(text);
      var init := lines[..|lines| - 1];
      assert lines == init + [last];
      JoinConcat(init, [last]);
      assert Join([last]) == last;
      assert Join(init) == above;
      SplitJoin(init);
      SplitWellFormed(above);
    }
  }

  /** The last line of a block as it is written with the ending `sep`. */
  function LastWritten(last: string, sep: string): string {
    if !Terminated(last) then last + sep
    else if sep == CRLF && !EndsWithCRLF(last) then last[..|last| - 1] + sep
    else last
  }

  lemma BlockTextOf(above: string, last: string, sep: string)
    requires last != "" && IsSeparator(sep) && (EndsWithCRLF(above + last) ==> EndsWithCRLF(last))
    ensures BlockText(above + last, sep) == above + LastWritten(last, sep)
  {
    var block := above + last;
    assert Terminated(block) <==> Terminated(last);
    if !Terminated(block) {
      assert block + sep == above + (last + sep);
    } else if sep == CRLF && !EndsWithCRLF(last) {
      assert block[..|block| - 1] + sep == above + (last[..|last| - 1] + sep);
      assert !EndsWithCRLF(block);
    } else if sep == CRLF {
      assert block[|block| - 2..] == last[|last| - 2..];
    }
  }

  lemma LastWrittenIsLine(last: string, sep: string)
    requires IsLine(last) && IsSeparator(sep)
    ensures IsLine(LastWritten(last, sep))
  {
  }

  lemma BlockTextIs(block: string, sep: string)
    requires block != "" && IsSeparator(sep)
    ensures var last := Split(block)[|Split(block)| - 1];
      && last != "" && |last| <= |block| && BlockText(block, sep) == block[..|block| - |last|] + LastWritten(last, sep)
      && IsLine(LastWritten(last, sep))
  {
    LastLine(block);
    var last := Split(block)[|Split(block)| - 1];
    SplitWithLast(block, last);
    LastWrittenIsLine(last, sep);
    hide Split, BlockText, EndsWithCRLF, IsLine;
    assert block == block[..|block| - |last|] + last;
    BlockTextOf(block[..|block| - |last|], last, sep);
  }

  /** Whichever ending the file has, the block is cut into the same lines but for the last one. */
  lemma InnerLines(block: string)
    requires block != ""
    ensures var inner, inner2 := Split(BlockText(block, LF)), Split(BlockText(block, CRLF));
      && |inner| == |inner2| > 0 && (forall i :: 0 <= i < |inner| - 1 ==> inner[i] == inner2[i])
      && EndsWithCRLF(inner2[|inner2| - 1]) && |inner[|inner| - 1]| <= |inner2[|inner2| - 1]|
  {
    SplitWellFormed(block);
    var last := Split(block)[|Split(block)| - 1];
    BlockTextIs(block, LF);
    BlockTextIs(block, CRLF);
    hide Split, BlockText, IsLine;
    SplitWithLast(block, LastWritten(last, LF));
    SplitWithLast(block, LastWritten(last, CRLF));
  }

  // ----- A run that changes nothing

  lemma TerminateCount(lines: seq<string>, sep: string)
    ensures |TerminateLast(lines, sep)| == |lines|
  {
  }

  lemma Middle(lines: seq<string>, above: seq<string>, blank: seq<string>, block: seq<string>,
               blank2: seq<string>, to: nat)
    requires to <= |lines| && block != []
    requires lines == (above + blank) + block + (blank2 + lines[to..])
    ensures to == |above| + |blank| + |block| + |blank2| && lines[|above|..to] == blank + block + blank2
    ensures lines[|above|] == if blank == [] then block[0] else blank[0]
    ensures lines[to - 1] == if blank2 == [] then block[|block| - 1] else blank2[|blank2| - 1]
  {
  }

  /** More than one line is only taken out between the last markers. */
  lemma LongSpan(req: Request, lines: seq<string>)
    requires OneLineMarkers(req)
    ensures var span := FindSpan(req, lines, CRLF);
      var n0, n1 := LastMarker(lines, Begin(req)), LastMarker(lines, Finish(req));
      span.to - span.from >= 2 ==>
        && n0 >= 0 && n1 >= 0 && Begin(req) != Finish(req)
        && if n0 < n1 then n0 == span.from && n1 == span.to - 1 else n1 == span.from && n0 == span.to - 1
  {
    hide Begin, Finish, Plain, OneLine, Position, LastMarker;
    CRLFMarker(Begin(req));
    CRLFMarker(Finish(req));
  }

  lemma BlockEnds(req: Request)
    requires OneLineMarkers(req) && req.block != ""
    ensures var block := BlockLines(req, CRLF);
      |block| >= 3 && Plain(block[0]) == Begin(req) && Plain(block[|block| - 1]) == Finish(req)
    ensures Begin(req) != "" && Finish(req) != "" && Plain(CRLF) == ""
  {
    hide Begin, Finish, Plain, OneLine, BlockText, Split;
    CRLFMarker(Begin(req));
    CRLFMarker(Finish(req));
    MarkersNonempty(req);
    BlankIsPlain(CRLF);
    BlockParts(req, CRLF);
    BlockLinesWellFormed(req, CRLF);
  }

  lemma PresentIs(req: Request, lines: seq<string>, sep: string)
    ensures var span := FindSpan(req, lines, sep);
      var above := TerminateLast(lines[..span.from], sep);
      && |above| == span.from
      && PresentLines(req, lines, sep) == above + BlankAbove(req, above, sep) + BlockLines(req, sep)
           + (BlankBelow(req, lines[span.to..], sep) + lines[span.to..])
  {
    hide FindSpan, BlockLines, Plain;
  }

  /** A run in a file with CRLF leaves it alone only if the last markers enclose exactly the
      block as the run itself writes it. */
  lemma FixpointBlock(req: Request, lines: seq<string>) returns (p: nat)
    requires OneLineMarkers(req) && req.block != "" && PresentLines(req, lines, CRLF) == lines
    ensures var m := |BlockLines(req, CRLF)|;
      && p + m <= |lines| && lines[p..p + m] == BlockLines(req, CRLF)
      && LastMarker(lines, Finish(req)) == p + m - 1
      && BlankBelow(req, lines[p + m..], CRLF) == []
  {
    hide Begin, Finish, Plain, OneLineMarkers, LastMarker, TerminateLast, BlockLines, FindSpan, PresentLines;
    BlockEnds(req);
    LongSpan(req, lines);
    PresentIs(req, lines, CRLF);
    var span, block := FindSpan(req, lines, CRLF), BlockLines(req, CRLF);
    p := span.from;
    var above := TerminateLast(lines[..p], CRLF);
    Middle(lines, above, BlankAbove(req, above, CRLF), block, BlankBelow(req, lines[span.to..], CRLF), span.to);
  }

  /** The block as the next run writes it, of which this is line `p` and what follows, begins
      with the last line of the file that was. */
  lemma BlockStartsAbove(req: Request, content: string, p: nat)
    requires OneLineMarkers(req) && !ReturnsKept(req, content) && req.block != ""
    requires var all, block2 := Split(Present(req, content)), BlockLines(req, CRLF);
      p + |block2| <= |all| && all[p..p + |block2|] == block2
    ensures var upper, above := Upper(req, Split(content), LF), FindGap(req, Split(content), LF).above;
      && p < |upper| && p + 1 == |above| && upper[p] == above[p] + LF == Begin(req) + CRLF && !Terminated(above[p])
      && FindGap(req, Split(content), LF).below == [] && Lower(req, Split(content), LF) == []
  {
    hide Split, Present, BlockText, Begin, Finish, Upper, Lower, OneLine, Plain, FindGap, HasCRLF, LinesHaveCRLF,
      EndsInReturn, BlockLines, WellFormed;
    FirstRun(req, content);
    BlockParts(req, LF);
    BlockParts(req, CRLF);
    InnerLines(req.block);
    MarkerCRLF(Begin(req), CRLF);
    MarkerCRLF(Finish(req), CRLF);
    var upper, block, lower := Upper(req, Split(content), LF), BlockLines(req, LF), Lower(req, Split(content), LF);
    var all, m := upper + block + lower, |block|;
    assert all[p] == all[p..p + m][0] && all[p + m - 1] == all[p..p + m][m - 1];
    assert all[|upper|] == block[0] && |block[0]| < |all[p]|;
    if p > |upper| {
      assert all[p + m - 1] == lower[p - |upper| - 1];
      OneHasCRLF(lower, p - |upper| - 1);
    } else if p < |upper| {
      assert all[p] == upper[p];
      UpperReturn(req, content, p);
    }
  }

  lemma {:induction false} EveryOne(inner: seq<string>, inner2: seq<string>, line: string, k: nat)
    requires |inner| == |inner2| && forall i :: 0 <= i < |inner| - 1 ==> inner[i] == inner2[i]
    requires k < |inner2| && inner2[0] == line && forall i :: 0 < i < |inner2| ==> inner2[i] == inner[i - 1]
    ensures inner2[k] == line
  {
    if k > 0 {
      EveryOne(inner, inner2, line, k - 1);
    }
  }

  lemma {:induction false} EverySecond(inner: seq<string>, inner2: seq<string>, line: string, k: nat)
    requires |inner| == |inner2| && forall i :: 0 <= i < |inner| - 1 ==> inner[i] == inner2[i]
    requires k < |inner2| && k % 2 == 0 && inner2[0] == line
    requires forall i :: 1 < i < |inner2| ==> inner2[i] == inner[i - 2]
    ensures inner2[k] == line
  {
    if k > 0 {
      EverySecond(inner, inner2, line, k - 2);
    }
  }

  /** The block falls on itself, one line further up: the file ends, without a line feed, in the
      begin marker, the end marker ends in a carriage return, and every line of the block reads
      like the begin marker as it is first written, the last like the end marker as it is written
      next. */
  ghost predicate FallsOnItself(req: Request, content: string) {
    var above := FindGap(req, Split(content), LF).above;
    var inner, inner2 := Split(BlockText(req.block, LF)), Split(BlockText(req.block, CRLF));
    && above != [] && above[|above| - 1] == Begin(req) + "\r" && EndsInReturn(Finish(req))
    && !req.prependNewline && (req.appendNewline ==> Finish(req) == "\r")
    && (forall i :: 0 <= i < |inner2| ==> inner2[i] == Begin(req) + LF)
    && inner != [] && inner[|inner| - 1] == Finish(req) + CRLF
  }

  /** One line further up, the block falls on itself only if all its lines are alike. */
  lemma OneFurther(inner: seq<string>, inner2: seq<string>, above: string, begin: string, finish2: string)
    requires |inner| == |inner2| > 0 && forall i :: 0 <= i < |inner| - 1 ==> inner[i] == inner2[i]
    ensures [above] + inner2 + [finish2] == [above, begin] + inner <==>
      (forall i :: 0 <= i < |inner2| ==> inner2[i] == begin) && inner[|inner| - 1] == finish2
  {
    var n := |inner|;
    var a, b := [above] + inner2 + [finish2], [above, begin] + inner;
    assert |a| == |b| == n + 2 && a[n + 1] == finish2 && b[n + 1] == inner[n - 1];
    if a == b {
      forall i | 0 <= i < n
        ensures inner2[i] == if i == 0 then begin else inner[i - 1]
      {
        assert a[i + 1] == b[i + 1];
      }
      forall i | 0 <= i < n
        ensures inner2[i] == begin
      {
        EveryOne(inner, inner2, begin, i);
      }
    }
  }

  lemma LinesTwoFurther(inner: seq<string>, inner2: seq<string>, above: string, begin: string, finish2: string)
    requires |inner| == |inner2| > 0
    requires [above] + inner2 + [finish2] == ([above, LF, begin] + inner)[..|inner| + 2]
    ensures forall i :: 0 <= i < |inner| ==>
      inner2[i] == (if i == 0 then LF else if i == 1 then begin else inner[i - 2])
    ensures |inner| > 1 ==> finish2 == inner[|inner| - 2]
  {
    var n := |inner|;
    var a, b := [above] + inner2 + [finish2], [above, LF, begin] + inner;
    assert a[n + 1] == finish2 && (n > 1 ==> b[n + 1] == inner[n - 2]);
    forall i | 0 <= i < n
      ensures inner2[i] == (if i == 0 then LF else if i == 1 then begin else inner[i - 2])
    {
      assert a[i + 1] == b[i + 1];
    }
  }

  /** Two lines further up, with a blank line in between, it never does. */
  lemma TwoFurther(inner: seq<string>, inner2: seq<string>, above: string, begin: string, finish2: string)
    requires |inner| == |inner2| > 0 && forall i :: 0 <= i < |inner| - 1 ==> inner[i] == inner2[i]
    requires EndsWithCRLF(inner2[|inner| - 1]) && EndsWithCRLF(finish2)
    ensures [above] + inner2 + [finish2] != ([above, LF, begin] + inner)[..|inner| + 2]
  {
    var n := |inner|;
    if [above] + inner2 + [finish2] == ([above, LF, begin] + inner)[..n + 2] {
      LinesTwoFurther(inner, inner2, above, begin, finish2);
      assert n > 1 ==> EndsWithCRLF(inner2[n - 2]);
      hide EndsWithCRLF;
      assert !EndsWithCRLF(LF);
      EverySecond(inner, inner2, LF, if n % 2 == 1 then n - 1 else n - 2);
    }
  }

  lemma Window(upper: seq<string>, block: seq<string>, lower: seq<string>, p: nat)
    requires p < |upper| && block != []
    ensures (upper + block + lower)[p..p + |block|] == (upper[p..] + block[..|block| - 1])[..|block|]
  {
  }

  lemma BlockInit(req: Request, sep: string)
    ensures var inner := Split(BlockText(req.block, sep));
      && BlockLines(req, sep) == [Begin(req) + sep] + inner + [Finish(req) + sep]
      && BlockLines(req, sep)[..|inner| + 1] == [Begin(req) + sep] + inner
  {
  }

  /** A second run changes nothing only if the block falls on itself. */
  lemma OnlyOnItself(req: Request, content: string, p: nat)
    requires OneLineMarkers(req) && !ReturnsKept(req, content) && req.block != ""
    requires var all, block2 := Split(Present(req, content)), BlockLines(req, CRLF);
      p + |block2| <= |all| && all[p..p + |block2|] == block2
    ensures var inner, inner2 := Split(BlockText(req.block, LF)), Split(BlockText(req.block, CRLF));
      && |Upper(req, Split(content), LF)| == p + 1 && inner != []
      && (forall i :: 0 <= i < |inner2| ==> inner2[i] == Begin(req) + LF)
      && inner[|inner| - 1] == Finish(req) + CRLF
  {
    hide Split, Present, BlockText, Begin, Finish, Lower, OneLineMarkers, Plain, FindGap, HasCRLF, LinesHaveCRLF,
      EndsInReturn, BlockLines, WellFormed, TerminateLast, ReturnsKept, AllTerminated;
    FirstRun(req, content);
    BlockStartsAbove(req, content, p);
    BlockInit(req, LF);
    BlockInit(req, CRLF);
    InnerLines(req.block);
    var upper, block, lower := Upper(req, Split(content), LF), BlockLines(req, LF), Lower(req, Split(content), LF);
    TerminateCount(FindGap(req, Split(content), LF).above, LF);
    var inner, inner2 := Split(BlockText(req.block, LF)), Split(BlockText(req.block, CRLF));
    Window(upper, block, lower, p);
    if |upper| == p + 1 {
      assert upper[p..] == [upper[p]];
      OneFurther(inner, inner2, upper[p], Begin(req) + LF, Finish(req) + CRLF);
    } else {
      assert upper[p..] == [upper[p], LF];
      TwoFurther(inner, inner2, upper[p], Begin(req) + LF, Finish(req) + CRLF);
    }
  }

  lemma UnchangedLines(req: Request, once: string)
    requires OneLineMarkers(req) && req.block != "" && Separator(once) == CRLF
    ensures Present(req, once) == once <==> PresentLines(req, Split(once), CRLF) == Split(once)
  {
    hide Split, Join, PresentLines, HasCRLF, WellFormed, OneLineMarkers;
    SplitWellFormed(once);
    JoinSplit(once);
    PresentShape(req, Split(once), CRLF);
    SplitJoin(PresentLines(req, Split(once), CRLF));
  }

  lemma Unterminated(line: string, marker: string)
    ensures line + LF == marker + CRLF <==> line == marker + "\r"
  {
    var a, b := line + LF, marker + CRLF;
    assert b == (marker + "\r") + LF;
    assert a[..|line|] == line && b[..|marker| + 1] == marker + "\r";
  }

  /** Above a block that falls on itself. */
  lemma UpperFalls(req: Request, content: string)
    requires OneLineMarkers(req)
    requires var above := FindGap(req, Split(content), LF).above;
      above != [] && above[|above| - 1] == Begin(req) + "\r"
    ensures var above := FindGap(req, Split(content), LF).above;
      && AllTerminated(above[..|above| - 1])
      && Upper(req, Split(content), LF) ==
           above[..|above| - 1] + [Begin(req) + CRLF] + (if req.prependNewline then [LF] else [])
    ensures Lower(req, Split(content), LF) == []
  {
    hide Split, Begin, OneLine, Plain, FindGap;
    var above := FindGap(req, Split(content), LF).above;
    var last := above[|above| - 1];
    SplitWellFormed(content);
    GapWellFormed(req, Split(content), LF);
    Unterminated(last, Begin(req));
    assert !Terminated(last);
    CRLFMarker(Begin(req));
    MarkersNonempty(req);
    assert TerminateLast(above, LF) == above[..|above| - 1] + [Begin(req) + CRLF];
  }

  /** Below it. */
  lemma LowerFalls(req: Request, below: seq<string>)
    requires OneLineMarkers(req) && below != [] && below[0] == Finish(req) + LF && EndsInReturn(Finish(req))
    ensures BlankBelow(req, below, CRLF) == [] <==> (req.appendNewline ==> Finish(req) == "\r")
  {
    hide Finish, OneLine, Plain;
    WrittenReads(Finish(req));
  }

  lemma FallsIfUnchanged(req: Request, content: string)
    requires OneLineMarkers(req) && !ReturnsKept(req, content) && req.block != ""
    requires Present(req, Present(req, content)) == Present(req, content)
    ensures FallsOnItself(req, content)
  {
    hide Split, Present, BlockText, Begin, Finish, OneLineMarkers, Plain, FindGap, HasCRLF, LinesHaveCRLF,
      EndsInReturn, BlockLines, WellFormed, PresentLines, LastMarker, AllTerminated, BlankBelow, Upper, Lower,
      ReturnsKept;
    FirstRun(req, content);
    UnchangedLines(req, Present(req, content));
    var all, m := Split(Present(req, content)), |BlockLines(req, CRLF)|;
    var p := FixpointBlock(req, all);
    BlockStartsAbove(req, content, p);
    OnlyOnItself(req, content, p);
    BlockInit(req, LF);
    BlockInit(req, CRLF);
    InnerLines(req.block);
    var above := FindGap(req, Split(content), LF).above;
    Unterminated(above[p], Begin(req));
    UpperFalls(req, content);
    assert all[p + m] == Finish(req) + LF;
    WrittenReads(Finish(req));
    assert all[p + m..][0] == all[p + m];
    LowerFalls(req, all[p + m..]);
  }

  lemma KeepsItsBlock(req: Request, lines: seq<string>, p: nat)
    requires OneLineMarkers(req) && req.block != ""
    requires var m := |BlockLines(req, CRLF)|;
      && p + m <= |lines| && lines[p..p + m] == BlockLines(req, CRLF) && m >= 2
      && LastMarker(lines, Begin(req)) == p && LastMarker(lines, Finish(req)) == p + m - 1
      && BlankBelow(req, lines[p + m..], CRLF) == []
    requires AllTerminated(lines[..p]) && !req.prependNewline
    ensures PresentLines(req, lines, CRLF) == lines
  {
    hide Begin, Finish, Plain, LastMarker, BlockLines, OneLine, Position;
    CRLFMarker(Begin(req));
    CRLFMarker(Finish(req));
    var m := |BlockLines(req, CRLF)|;
    assert lines == lines[..p] + lines[p..p + m] + lines[p + m..];
    assert lines[..p] + [] == lines[..p] && [] + lines[p + m..] == lines[p + m..];
  }

  lemma RegroupFallen(head: seq<string>, above: string, begin: string, inner: seq<string>, finish: string)
    ensures (head + [above] + []) + ([begin] + inner + [finish]) + [] == head + ([above, begin] + inner) + [finish]
  {
  }

  /** Where the block falls on itself, the lines of the file after the first run. */
  lemma FallenLines(req: Request, content: string)
    requires OneLineMarkers(req) && !ReturnsKept(req, content) && req.block != "" && FallsOnItself(req, content)
    ensures var all, above := Split(Present(req, content)), FindGap(req, Split(content), LF).above;
      && all == above[..|above| - 1] + BlockLines(req, CRLF) + [Finish(req) + LF]
      && AllTerminated(above[..|above| - 1])
  {
    hide Split, Present, BlockText, Begin, Finish, OneLineMarkers, Plain, FindGap, HasCRLF, LinesHaveCRLF,
      EndsInReturn, BlockLines, WellFormed, PresentLines, AllTerminated, Upper, Lower, ReturnsKept;
    FirstRun(req, content);
    BlockInit(req, LF);
    BlockInit(req, CRLF);
    InnerLines(req.block);
    UpperFalls(req, content);
    var above := FindGap(req, Split(content), LF).above;
    var inner, inner2 := Split(BlockText(req.block, LF)), Split(BlockText(req.block, CRLF));
    OneFurther(inner, inner2, Begin(req) + CRLF, Begin(req) + LF, Finish(req) + CRLF);
    RegroupFallen(above[..|above| - 1], Begin(req) + CRLF, Begin(req) + LF, inner, Finish(req) + LF);
  }

  /** The markers, found where the next run would write them. */
  lemma FallenMarkers(req: Request, head: seq<string>)
    requires OneLineMarkers(req) && req.block != "" && EndsInReturn(Finish(req))
    requires var inner, inner2 := Split(BlockText(req.block, LF)), Split(BlockText(req.block, CRLF));
      && (forall i :: 0 <= i < |inner2| ==> inner2[i] == Begin(req) + LF)
      && inner != [] && inner[|inner| - 1] == Finish(req) + CRLF
    ensures var block2 := BlockLines(req, CRLF);
      var all := head + block2 + [Finish(req) + LF];
      LastMarker(all, Begin(req)) == |head| && LastMarker(all, Finish(req)) == |head| + |block2| - 1
  {
    hide Split, BlockText, Begin, Finish, OneLine, Plain, LastWhere;
    BlockParts(req, CRLF);
    InnerLines(req.block);
    BlockEnds(req);
    var block2 := BlockLines(req, CRLF);
    var inner, inner2 := Split(BlockText(req.block, LF)), Split(BlockText(req.block, CRLF));
    hide BlockLines;
    WrittenReads(Begin(req));
    WrittenReads(Finish(req));
    assert |Finish(req)| + 2 <= |Begin(req)| + 1;
    assert EndsInReturn(Begin(req)) by {
      assert inner2[|inner2| - 1][|Begin(req)| - 1] == '\r';
    }
    var all := head + block2 + [Finish(req) + LF];
    forall i | |head| < i < |all|
      ensures Plain(all[i]) != Begin(req)
    {
      if i < |head| + |block2| {
        assert all[i] == block2[i - |head|];
      }
    }
    assert all[|head|] == block2[0] && all[|head| + |block2| - 1] == block2[|block2| - 1];
    LastMarkerUnique(all, Begin(req), |head|);
    LastMarkerUnique(all, Finish(req), |head| + |block2| - 1);
  }

  lemma UnchangedIfFalls(req: Request, content: string)
    requires OneLineMarkers(req) && !ReturnsKept(req, content) && req.block != "" && FallsOnItself(req, content)
    ensures Present(req, Present(req, content)) == Present(req, content)
  {
    hide Split, Present, BlockText, Begin, Finish, OneLineMarkers, Plain, FindGap, HasCRLF, LinesHaveCRLF,
      EndsInReturn, BlockLines, WellFormed, PresentLines, AllTerminated, BlankBelow, LastMarker, ReturnsKept;
    FirstRun(req, content);
    FallenLines(req, content);
    var above := FindGap(req, Split(content), LF).above;
    var head, block2 := above[..|above| - 1], BlockLines(req, CRLF);
    FallenMarkers(req, head);
    BlockEnds(req);
    LowerFalls(req, [Finish(req) + LF]);
    var all := head + block2 + [Finish(req) + LF];
    assert all[..|head|] == head && all[|head|..|head| + |block2|] == block2;
    assert all[|head| + |block2|..] == [Finish(req) + LF];
    KeepsItsBlock(req, all, |head|);
    UnchangedLines(req, Present(req, content));
  }

  // ----- Removing

  lemma ReadsReturnIn(lines: seq<string>, i: nat, marker: string)
    requires i < |lines| && EndsInReturn(marker) && Plain(lines[i]) == marker
    ensures Terminated(lines[i]) ==> LinesHaveCRLF(lines)
  {
    hide Plain, HasCRLF;
    ReadsReturn(lines[i], marker);
  }

  lemma LastUnterminated(lines: seq<string>, k: nat)
    requires WellFormed(lines) && k < |lines| && !Terminated(lines[k])
    ensures k == |lines| - 1
  {
  }

  /** What follows the block only reads like a marker if that ends in a carriage return and the
      file in one more. */
  lemma LowerReads(req: Request, content: string, i: nat, marker: string)
    requires !HasCRLF(content) && Unmarked(req, content) && (marker == Begin(req) || marker == Finish(req))
    requires i < |Lower(req, Split(content), LF)| && Plain(Lower(req, Split(content), LF)[i]) == marker
    ensures EndsInReturn(marker) && i + 1 == |Lower(req, Split(content), LF)| && content != "" && !Terminated(content)
  {
    hide FindGap, Split, Begin, Finish, HasCRLF, WellFormed, Plain, LinesHaveCRLF;
    var lines, lower := Split(content), Lower(req, Split(content), LF);
    SplitWellFormed(content);
    GapSlices(req, lines, LF);
    LowerCRLF(req, content);
    BlankIsPlain(LF);
    MarkersNonempty(req);
    var k := |lines| - |lower| + i;
    assert lower[i] == lines[k];
    WrittenReads(marker);
    ReadsReturnIn(lower, i, marker);
    LastUnterminated(lines, k);
  }

  /** In a file without markers, the first run keeps all lines, with what it puts around the block. */
  lemma KeptAround(req: Request, content: string)
    requires Separator(content) == LF && Unmarked(req, content)
    ensures var gap := FindGap(req, Split(content), LF);
      Join(gap.above + gap.below) == content
    ensures |Join(Upper(req, Split(content), LF))| + |Join(Lower(req, Split(content), LF))| >= |content|
  {
    hide Split, Join, HasCRLF, Position, TerminateLast, Plain, Terminated, Unmarked;
    var lines := Split(content);
    JoinSplit(content);
    NothingFound(req, content);
    var gap := FindGap(req, lines, LF);
    assert lines == gap.above + gap.below;
    var above := TerminateLast(gap.above, LF);
    AroundLength(gap.above, gap.below, BlankAbove(req, above, LF), BlankBelow(req, gap.below, LF), LF);
  }

  lemma PartLonger(upper: seq<string>, part: seq<string>, lower: seq<string>)
    requires part != [] && forall i :: 0 <= i < |part| ==> part[i] != ""
    ensures |Join(upper + part + lower)| > |Join(upper)| + |Join(lower)|
  {
    JoinThree(upper, part, lower);
    JoinNonempty(part);
  }

  lemma InitShorter(lines: seq<string>)
    requires lines != [] && lines[|lines| - 1] != ""
    ensures |Join(lines[..|lines| - 1])| < |Join(lines)|
  {
    var n := |lines| - 1;
    assert lines == lines[..n] + [lines[n]];
    JoinConcat(lines[..n], [lines[n]]);
    assert Join([lines[n]]) == lines[n] + "" == lines[n];
  }

  lemma {:induction false} JoinTerminated(lines: seq<string>)
    requires AllTerminated(lines) && lines != []
    ensures Terminated(Join(lines))
  {
    if |lines| > 1 {
      JoinTerminated(lines[1..]);
    } else {
      assert Join(lines) == lines[0] + "" == lines[0];
    }
  }

  /** What is left when the second run takes out the lines from `from` to before `to`. */
  function LeftOf(lines: seq<string>, from: nat, to: nat): seq<string>
    requires from <= to <= |lines|
  {
    lines[..from] + lines[to..]
  }

  lemma LeftInside(upper: seq<string>, block: seq<string>, lower: seq<string>, from: nat)
    requires |upper| < from < |upper| + |block| && AllTerminated(block)
    ensures |Join(LeftOf(upper + block + lower, from, |upper| + |block|))| > |Join(upper)| + |Join(lower)|
  {
    hide Join;
    var part := block[..from - |upper|];
    assert LeftOf(upper + block + lower, from, |upper| + |block|) == upper + part + lower;
    PartLonger(upper, part, lower);
  }

  /** A part of the block that stays makes the file longer than it was ... */
  lemma LeftIsLonger(req: Request, content: string, from: nat)
    requires OneLineMarkers(req) && req.block != "" && Separator(content) == LF && Unmarked(req, content)
    requires |Upper(req, Split(content), LF)| < from < |Upper(req, Split(content), LF)| + |BlockLines(req, LF)|
    ensures var upper, lower := Upper(req, Split(content), LF), Lower(req, Split(content), LF);
      var block := BlockLines(req, LF);
      |Join(LeftOf(upper + block + lower, from, |upper| + |block|))| > |content|
  {
    hide Split, Join, HasCRLF, Unmarked, Upper, Lower, BlockLines, OneLineMarkers, AllTerminated, WellFormed, FindGap,
      LeftOf;
    KeptAround(req, content);
    BlockLinesWellFormed(req, LF);
    LeftInside(Upper(req, Split(content), LF), BlockLines(req, LF), Lower(req, Split(content), LF), from);
  }

  lemma LinesNonempty(lines: seq<string>)
    requires WellFormed(lines)
    ensures forall i :: 0 <= i < |lines| ==> lines[i] != ""
  {
  }

  /** ... a line above it that goes makes it shorter ... */
  lemma LeftIsShorter(req: Request, content: string, from: nat)
    requires Separator(content) == LF && Unmarked(req, content)
    requires var gap, upper := FindGap(req, Split(content), LF), Upper(req, Split(content), LF);
      from + 1 == |gap.above| && from < |upper| && gap.below == [] && upper[..from] == gap.above[..from]
    ensures |Join(Upper(req, Split(content), LF)[..from])| < |content|
  {
    hide Split, Join, HasCRLF, Unmarked, FindGap, Upper, WellFormed;
    KeptAround(req, content);
    SplitWellFormed(content);
    GapWellFormed(req, Split(content), LF);
    var above := FindGap(req, Split(content), LF).above;
    assert above + [] == above;
    LinesNonempty(above);
    InitShorter(above);
  }

  lemma EmptyJoin()
    ensures Join([]) == ""
  {
  }

  /** ... and if it goes together with everything below, an unterminated last line is lost. */
  lemma LeftIsTerminated(lines: seq<string>, from: nat, content: string)
    requires WellFormed(lines) && from < |lines| && content != "" && !Terminated(content)
    ensures Join(LeftOf(lines, from, |lines|)) != content
  {
    hide Join;
    assert LeftOf(lines, from, |lines|) == lines[..from];
    if from > 0 {
      JoinTerminated(lines[..from]);
    } else {
      EmptyJoin();
    }
  }

  lemma UpperReads(req: Request, content: string, i: nat, marker: string)
    requires !HasCRLF(content) && AllTerminated(Upper(req, Split(content), LF)) && EndsInReturn(marker)
    requires i < |Upper(req, Split(content), LF)| && Plain(Upper(req, Split(content), LF)[i]) == marker
    ensures var gap, upper := FindGap(req, Split(content), LF), Upper(req, Split(content), LF);
      && i + 1 == |gap.above| && upper[..i] == gap.above[..i]
      && gap.below == [] && Lower(req, Split(content), LF) == []
  {
    hide FindGap, Split, HasCRLF, Plain;
    ReadsReturn(Upper(req, Split(content), LF)[i], marker);
    UpperReturn(req, content, i);
  }

  /** If no CRLF is left, those that were there have been taken out. */
  lemma CutCovers(lines: seq<string>, from: nat, to: nat, x: nat)
    requires WellFormed(lines) && from < to <= |lines| && x < |lines| && HasCRLF(lines[x])
    ensures !(from <= x < to) ==> HasCRLF(Join(LeftOf(lines, from, to)))
  {
    hide Join, HasCRLF;
    var left := LeftOf(lines, from, to);
    assert WellFormed(left);
    CRLFInLines(left);
    if x < from {
      assert left[x] == lines[x];
    } else if x >= to {
      assert left[x - (to - from)] == lines[x];
    }
  }

  /** The first and the last line taken out. */
  ghost predicate Taken(req: Request, lines: seq<string>, from: nat, to: nat) {
    var n0, n1 := LastMarker(lines, Begin(req)), LastMarker(lines, Finish(req));
    && n0 >= 0 && n1 >= 0 && from + 1 < to <= |lines|
    && if n0 < n1 then n0 == from && n1 == to - 1 else n1 == from && n0 == to - 1
  }

  lemma LeftAbove(upper: seq<string>, block: seq<string>, from: nat)
    requires from <= |upper|
    ensures LeftOf(upper + block, from, |upper + block|) == upper[..from]
  {
  }

  lemma FinishReturns(req: Request, content: string, from: nat, to: nat)
    requires OneLineMarkers(req) && EndsInReturn(Finish(req)) && req.block != ""
    requires !HasCRLF(content) && Unmarked(req, content) && Taken(req, Split(Present(req, content)), from, to)
    ensures Join(LeftOf(Split(Present(req, content)), from, to)) != content
  {
    hide Split, Join, Present, BlockText, Begin, Finish, OneLine, Plain, FindGap, HasCRLF, LinesHaveCRLF,
      BlockLines, WellFormed, Upper, Lower, Unmarked, LeftOf, LastMarker, Terminated;
    FirstRun(req, content);
    BlockParts(req, LF);
    MarkerCRLF(Finish(req), LF);
    WrittenReads(Begin(req));
    WrittenReads(Finish(req));
    var upper, block, lower := Upper(req, Split(content), LF), BlockLines(req, LF), Lower(req, Split(content), LF);
    var all, u, x := upper + block + lower, |upper|, |upper| + |block| - 1;
    assert all[u] == block[0] && all[x] == block[|block| - 1];
    CutCovers(all, from, to, x);
    if from <= x < to - 1 {
      assert all[to - 1] == lower[to - 1 - u - |block|];
      LowerReads(req, content, to - 1 - u - |block|, Plain(all[to - 1]));
      LeftIsTerminated(all, from, content);
    } else if from <= x < to {
      assert |Plain(all[x])| < |Finish(req)| && |Plain(all[u])| <= |Begin(req)|;
      assert Plain(all[from]) == Finish(req);
      assert from != u;
      if from < u {
        assert all[from] == upper[from];
        UpperReads(req, content, from, Finish(req));
        LeftIsShorter(req, content, from);
        LeftAbove(upper, block, from);
        assert all == upper + block;
      } else {
        LeftIsLonger(req, content, from);
      }
    }
  }

  lemma BeginReturns(req: Request, content: string, from: nat, to: nat)
    requires OneLineMarkers(req) && EndsInReturn(Begin(req)) && !EndsInReturn(Finish(req)) && req.block != ""
    requires !HasCRLF(content) && Unmarked(req, content) && Taken(req, Split(Present(req, content)), from, to)
    ensures Join(LeftOf(Split(Present(req, content)), from, to)) != content
  {
    hide Split, Join, Present, BlockText, Begin, Finish, OneLine, Plain, FindGap, HasCRLF, LinesHaveCRLF,
      BlockLines, WellFormed, Upper, Lower, Unmarked, LeftOf, LastMarker, Terminated;
    FirstRun(req, content);
    BlockParts(req, LF);
    MarkerCRLF(Begin(req), LF);
    WrittenReads(Begin(req));
    WrittenReads(Finish(req));
    var upper, block, lower := Upper(req, Split(content), LF), BlockLines(req, LF), Lower(req, Split(content), LF);
    var all, u, n1 := upper + block + lower, |upper|, LastMarker(Split(Present(req, content)), Finish(req));
    assert all[u] == block[0] && all[u + |block| - 1] == block[|block| - 1];
    CutCovers(all, from, to, u);
    if n1 >= u + |block| {
      assert all[n1] == lower[n1 - u - |block|];
      LowerReads(req, content, n1 - u - |block|, Finish(req));
    } else if from <= u < to {
      assert |Plain(all[u])| < |Begin(req)|;
      assert from < u && Plain(all[from]) == Begin(req);
      assert all[from] == upper[from];
      UpperReads(req, content, from, Begin(req));
      LeftIsShorter(req, content, from);
      LeftAbove(upper, block, from);
      assert all == upper + block;
    }
  }

  lemma AbsentTakes(req: Request, lines: seq<string>)
    requires OneLineMarkers(req) && WellFormed(lines)
    ensures var span := FindSpan(req, lines, CRLF);
      span.to - span.from >= 2 ==>
        Taken(req, lines, span.from, span.to) && AbsentLines(req, lines, CRLF) == LeftOf(lines, span.from, span.to)
  {
    hide Begin, Finish, Plain, OneLineMarkers, LastMarker, FindSpan;
    LongSpan(req, lines);
  }

  /** So the block is never found again as it was written: the edit is not undone. */
  lemma NeverUndone(req: Request, content: string)
    requires OneLineMarkers(req) && !ReturnsKept(req, content) && req.block != "" && Unmarked(req, content)
    ensures Absent(req, Present(req, content)) != content
  {
    hide Split, Join, Present, AbsentLines, Begin, Finish, OneLineMarkers, HasCRLF, EndsInReturn, BlockLines,
      WellFormed, Unmarked, LeftOf, FindSpan, Taken;
    FirstRun(req, content);
    var all := Split(Present(req, content));
    var span := FindSpan(req, all, CRLF);
    AbsentTakes(req, all);
    if span.to - span.from <= 1 {
      StrayIsShort(req, all, CRLF, LF);
      ShortCutStays(req, content);
    } else if EndsInReturn(Finish(req)) {
      FinishReturns(req, content, span.from, span.to);
    } else {
      BeginReturns(req, content, span.from, span.to);
    }
  }
}
