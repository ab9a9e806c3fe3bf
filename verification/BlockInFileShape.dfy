/** What a file looks like that has just received its block, and what the next run finds in it. */
module BlockInFileShape {
  import opened TextLines
  import opened BlockInFile

  predicate OneLine(marker: string) {
    '\n' !in marker
  }

  predicate EndsInReturn(marker: string) {
    marker != "" && marker[|marker| - 1] == '\r'
  }

  /** A marker that, written with the line ending `sep`, is one line and is read back. */
  predicate Clean(marker: string, sep: string) {
    OneLine(marker) && (sep == LF ==> !EndsInReturn(marker))
  }

  predicate OneLineMarkers(req: Request) {
    OneLine(Begin(req)) && OneLine(Finish(req))
  }

  predicate CleanMarkers(req: Request, sep: string): (clean: bool)
    ensures clean ==> OneLineMarkers(req)
  {
    Clean(Begin(req), sep) && Clean(Finish(req), sep)
  }

  ghost predicate IsSeparator(sep: string) {
    sep == LF || sep == CRLF
  }

  lemma MarkerPlain(marker: string, sep: string)
    requires Clean(marker, sep) && IsSeparator(sep)
    ensures Plain(marker + sep) == marker && IsLine(marker + sep) && Terminated(marker + sep)
  {
    var line := marker + sep;
    assert forall i :: 0 <= i < |marker| ==> marker[i] in marker;
    if sep == LF {
      assert line[..|line| - 1] == marker;
    } else {
      assert line[..|line| - 1] == marker + "\r" && (marker + "\r")[..|marker|] == marker;
    }
  }

  lemma MarkerCRLF(marker: string, sep: string)
    requires OneLine(marker) && IsSeparator(sep)
    ensures HasCRLF(marker + sep) <==> sep == CRLF || EndsInReturn(marker)
  {
    CRLFConcat(marker, sep);
    assert forall i :: 0 <= i < |marker| ==> marker[i] in marker;
    assert sep == CRLF ==> sep[0] == '\r' && sep[0 + 1] == '\n';
  }

  lemma MarkerLine(marker: string, sep: string)
    requires Clean(marker, sep) && IsSeparator(sep)
    ensures Plain(marker + sep) == marker && IsLine(marker + sep) && Terminated(marker + sep)
    ensures HasCRLF(marker + sep) <==> sep == CRLF
  {
    MarkerPlain(marker, sep);
    MarkerCRLF(marker, sep);
  }

  lemma MarkersNonempty(req: Request)
    ensures Begin(req) != "" && Finish(req) != ""
  {
    var template := if req.marker == "" then "# {mark} DIBRA MANAGED BLOCK" else req.marker;
    var begin, finish := if req.markerBegin == "" then "BEGIN" else req.markerBegin,
                         if req.markerEnd == "" then "END" else req.markerEnd;
    MarkersDiffer(template, begin, finish);
    MarkersDiffer(template, finish, begin);
  }

  lemma BlankIsPlain(sep: string)
    requires IsSeparator(sep)
    ensures Plain(sep) == "" && IsLine(sep) && Terminated(sep)
  {
    MarkerLine("", sep);
    assert "" + sep == sep;
  }

  lemma BlockTextTerminated(block: string, sep: string)
    requires block != "" && IsSeparator(sep)
    ensures Terminated(BlockText(block, sep))
  {
  }

  lemma MarkerIsLine(marker: string, sep: string)
    requires OneLine(marker) && IsSeparator(sep)
    ensures WellFormed([marker + sep]) && AllTerminated([marker + sep])
  {
    assert forall i :: 0 <= i < |marker| ==> marker[i] in marker;
  }

  lemma BlockLinesWellFormed(req: Request, sep: string)
    requires OneLineMarkers(req) && req.block != "" && IsSeparator(sep)
    ensures WellFormed(BlockLines(req, sep)) && AllTerminated(BlockLines(req, sep))
    ensures |BlockLines(req, sep)| >= 3
  {
    hide Begin, Finish, BlockText, Split, OneLine, WellFormed, Terminated;
    var inner := Split(BlockText(req.block, sep));
    MarkerIsLine(Begin(req), sep);
    MarkerIsLine(Finish(req), sep);
    BlockTextTerminated(req.block, sep);
    SplitTerminated(BlockText(req.block, sep));
    SplitWellFormed(BlockText(req.block, sep));
    WellFormedConcat([Begin(req) + sep], inner);
    WellFormedConcat([Begin(req) + sep] + inner, [Finish(req) + sep]);
  }

  // ----- The shape of a file that has just received its block

  ghost predicate NoMarkers(req: Request, lines: seq<string>) {
    forall i :: 0 <= i < |lines| ==> Plain(lines[i]) != Begin(req) && Plain(lines[i]) != Finish(req)
  }

  lemma PlainMarkers(req: Request, sep: string)
    requires CleanMarkers(req, sep) && IsSeparator(sep)
    ensures Plain(Begin(req) + sep) == Begin(req) && Plain(Finish(req) + sep) == Finish(req)
  {
    MarkerLine(Begin(req), sep);
    MarkerLine(Finish(req), sep);
  }

  /** Only the last markers matter, so none are left below the cut. */
  lemma NoMarkersBelow(req: Request, lines: seq<string>, sep: string)
    requires CleanMarkers(req, sep) && IsSeparator(sep)
    ensures NoMarkers(req, FindGap(req, lines, sep).below)
  {
    hide Plain, Begin, Finish, Position, LastWhere;
    PlainMarkers(req, sep);
    var span := FindSpan(req, lines, sep);
    forall i | span.to <= i < |lines|
      ensures Plain(lines[i]) != Begin(req) && Plain(lines[i]) != Finish(req)
    {
    }
  }

  /** What is kept is an initial and a final part of the file. */
  lemma GapSlices(req: Request, lines: seq<string>, sep: string)
    ensures var gap := FindGap(req, lines, sep);
      && |gap.above| + |gap.below| <= |lines|
      && gap.above == lines[..|gap.above|] && gap.below == lines[|lines| - |gap.below|..]
  {
    hide FindSpan;
    var span := FindSpan(req, lines, sep);
    assert |lines[span.to..]| == |lines| - span.to;
  }

  lemma SlicesWellFormed(lines: seq<string>, i: nat, j: nat)
    requires WellFormed(lines) && i <= j <= |lines|
    ensures WellFormed(lines[..i]) && WellFormed(lines[j..])
    ensures forall k :: 0 <= k < i && k < |lines| - 1 ==> Terminated(lines[..i][k])
  {
  }

  lemma GapWellFormed(req: Request, lines: seq<string>, sep: string)
    requires WellFormed(lines)
    ensures var gap := FindGap(req, lines, sep);
      && WellFormed(gap.above) && WellFormed(gap.below)
      && (gap.below != [] ==> AllTerminated(gap.above))
  {
    hide FindGap;
    var gap := FindGap(req, lines, sep);
    GapSlices(req, lines, sep);
    SlicesWellFormed(lines, |gap.above|, |lines| - |gap.below|);
  }

  lemma TerminateLastTerminates(lines: seq<string>, sep: string)
    requires WellFormed(lines) && IsSeparator(sep)
    ensures WellFormed(TerminateLast(lines, sep)) && AllTerminated(TerminateLast(lines, sep))
  {
    if lines != [] && !Terminated(lines[|lines| - 1]) {
      var line := lines[|lines| - 1] + sep;
      assert IsLine(line) && Terminated(line);
    }
  }

  lemma UpperShape(req: Request, lines: seq<string>, sep: string)
    requires IsSeparator(sep) && WellFormed(lines)
    ensures WellFormed(Upper(req, lines, sep)) && AllTerminated(Upper(req, lines, sep))
    ensures forall s :: BlankAbove(req, Upper(req, lines, sep), s) == []
  {
    hide FindGap, TerminateLast, Plain;
    GapWellFormed(req, lines, sep);
    TerminateLastTerminates(FindGap(req, lines, sep).above, sep);
    BlankIsPlain(sep);
  }

  lemma LowerShape(req: Request, lines: seq<string>, sep: string)
    requires IsSeparator(sep) && WellFormed(lines)
    ensures WellFormed(Lower(req, lines, sep))
    ensures CleanMarkers(req, sep) ==> NoMarkers(req, Lower(req, lines, sep))
    ensures forall s :: BlankBelow(req, Lower(req, lines, sep), s) == []
  {
    hide FindGap, Plain, Begin, Finish;
    GapWellFormed(req, lines, sep);
    if CleanMarkers(req, sep) {
      NoMarkersBelow(req, lines, sep);
    }
    BlankIsPlain(sep);
    MarkersNonempty(req);
  }

  lemma PresentShape(req: Request, lines: seq<string>, sep: string)
    requires OneLineMarkers(req) && req.block != "" && IsSeparator(sep) && WellFormed(lines)
    ensures WellFormed(Upper(req, lines, sep)) && AllTerminated(Upper(req, lines, sep))
    ensures WellFormed(Lower(req, lines, sep))
    ensures CleanMarkers(req, sep) ==> NoMarkers(req, Lower(req, lines, sep))
    ensures WellFormed(PresentLines(req, lines, sep))
    ensures forall s :: BlankAbove(req, Upper(req, lines, sep), s) == []
    ensures forall s :: BlankBelow(req, Lower(req, lines, sep), s) == []
  {
    hide FindGap, BlockLines, BlankAbove, BlankBelow, Upper, Lower, Clean, NoMarkers;
    UpperShape(req, lines, sep);
    LowerShape(req, lines, sep);
    BlockLinesWellFormed(req, sep);
    WellFormedConcat(Upper(req, lines, sep), BlockLines(req, sep));
    WellFormedConcat(Upper(req, lines, sep) + BlockLines(req, sep), Lower(req, lines, sep));
  }

  // ----- The next run finds the block again

  /** Where, among the lines a run inserts, a later run takes the block to begin: at the top,
      if the last begin marker is the one that was written for it. */
  function FoundAt(req: Request, sep: string): (j: nat)
    ensures j < |BlockLines(req, sep)|
  {
    var lines := BlockLines(req, sep);
    if Begin(req) == Finish(req) then |lines| - 1
    else
      var j := LastMarker(lines[..|lines| - 1], Begin(req));
      if j == -1 then 0 else j
  }

  /** What a later run therefore leaves standing of the block. */
  function Leftover(req: Request, sep: string): seq<string> {
    BlockLines(req, sep)[..FoundAt(req, sep)]
  }

  /** No line of the block reads like the begin marker. */
  ghost predicate NoInnerBegin(req: Request, sep: string) {
    forall i :: 0 <= i < |Split(BlockText(req.block, sep))| ==> Plain(Split(BlockText(req.block, sep))[i]) != Begin(req)
  }

  lemma BlockShape(req: Request, sep: string)
    requires CleanMarkers(req, sep) && req.block != "" && IsSeparator(sep)
    ensures var lines, inner := BlockLines(req, sep), Split(BlockText(req.block, sep));
      && |lines| == |inner| + 2
      && Plain(lines[0]) == Begin(req) && Plain(lines[|lines| - 1]) == Finish(req)
      && forall i :: 0 < i < |lines| - 1 ==> lines[i] == inner[i - 1]
  {
    hide Plain, Begin, Finish, BlockText, Split, Clean;
    PlainMarkers(req, sep);
  }

  lemma FoundAtTop(req: Request, sep: string)
    requires CleanMarkers(req, sep) && req.block != "" && IsSeparator(sep)
    ensures FoundAt(req, sep) == 0 <==> Begin(req) != Finish(req) && NoInnerBegin(req, sep)
    ensures Begin(req) != Finish(req) ==> Plain(BlockLines(req, sep)[FoundAt(req, sep)]) == Begin(req)
    ensures Begin(req) != Finish(req) ==>
      forall i :: FoundAt(req, sep) < i < |BlockLines(req, sep)| ==> Plain(BlockLines(req, sep)[i]) != Begin(req)
  {
    hide Plain, Begin, Finish, BlockLines, LastWhere, BlockText;
    BlockShape(req, sep);
    var lines := BlockLines(req, sep);
    var inner := Split(BlockText(req.block, sep));
    var init := lines[..|lines| - 1];
    if Begin(req) != Finish(req) {
      assert Plain(init[0]) == Begin(req);
      var j := LastMarker(init, Begin(req));
      forall i | j < i < |lines|
        ensures Plain(lines[i]) != Begin(req)
      {
        if i < |init| {
          assert lines[i] == init[i];
        }
      }
      assert forall k :: 0 <= k < |inner| ==> lines[k + 1] == inner[k];
    }
  }

  lemma LastMarkerUnique(lines: seq<string>, marker: string, n: int)
    requires -1 <= n < |lines| && (n >= 0 ==> Plain(lines[n]) == marker)
    requires forall i :: n < i < |lines| ==> Plain(lines[i]) != marker
    ensures LastMarker(lines, marker) == n
  {
  }

  /** The last begin marker of a file with a fresh block is the last one in the block. */
  lemma LastBegin(req: Request, upper: seq<string>, lower: seq<string>, sep: string)
    requires CleanMarkers(req, sep) && req.block != "" && IsSeparator(sep)
    requires NoMarkers(req, lower) && Begin(req) != Finish(req)
    ensures LastMarker(upper + BlockLines(req, sep) + lower, Begin(req)) == |upper| + FoundAt(req, sep)
  {
    hide Plain, Begin, Finish, BlockLines, FoundAt, LastWhere, Clean, NoInnerBegin;
    FoundAtTop(req, sep);
    var block, j := BlockLines(req, sep), FoundAt(req, sep);
    var lines := upper + block + lower;
    forall i | |upper| + j < i < |lines|
      ensures Plain(lines[i]) != Begin(req)
    {
      if i < |upper| + |block| {
        assert lines[i] == block[i - |upper|];
      } else {
        assert lines[i] == lower[i - |upper| - |block|];
      }
    }
    assert lines[|upper| + j] == block[j];
    LastMarkerUnique(lines, Begin(req), |upper| + j);
  }

  lemma LastFinish(req: Request, upper: seq<string>, lower: seq<string>, sep: string)
    requires CleanMarkers(req, sep) && req.block != "" && IsSeparator(sep) && NoMarkers(req, lower)
    ensures LastMarker(upper + BlockLines(req, sep) + lower, Finish(req)) == |upper| + |BlockLines(req, sep)| - 1
  {
    PlainMarkers(req, sep);
    BlockLinesWellFormed(req, sep);
    var block := BlockLines(req, sep);
    var lines := upper + block + lower;
    var n := |upper| + |block| - 1;
    assert lines[n] == block[|block| - 1] == Finish(req) + sep;
    hide Plain, Begin, Finish, BlockLines;
    forall i | n < i < |lines|
      ensures Plain(lines[i]) != Finish(req)
    {
      assert lines[i] == lower[i - |upper| - |block|];
    }
    LastMarkerUnique(lines, Finish(req), n);
  }

  lemma FoundAtBeforeEnd(req: Request, sep: string)
    ensures FoundAt(req, sep) == |BlockLines(req, sep)| - 1 <==> Begin(req) == Finish(req)
  {
  }

  lemma FoundAgain(req: Request, upper: seq<string>, lower: seq<string>, sep: string, sep2: string)
    requires CleanMarkers(req, sep) && CleanMarkers(req, sep2) && req.block != ""
    requires IsSeparator(sep) && IsSeparator(sep2)
    requires NoMarkers(req, lower)
    ensures FindGap(req, upper + BlockLines(req, sep) + lower, sep2) == Gap(upper + Leftover(req, sep), lower)
  {
    hide Plain, Begin, Finish, BlockLines, LastMarker, LastWhere, Clean, NoMarkers, Position, FoundAt;
    PlainMarkers(req, sep2);
    LastFinish(req, upper, lower, sep);
    var block, j := BlockLines(req, sep), FoundAt(req, sep);
    var lines := upper + block + lower;
    var n1 := |upper| + |block| - 1;
    FoundAtBeforeEnd(req, sep);
    if Begin(req) != Finish(req) {
      LastBegin(req, upper, lower, sep);
    }
    assert lines[n1 + 1..] == lower;
    assert lines[..|upper| + j] == upper + block[..j];
  }

  // ----- Line endings

  lemma LinesCRLFConcat(a: seq<string>, b: seq<string>)
    ensures LinesHaveCRLF(a + b) <==> LinesHaveCRLF(a) || LinesHaveCRLF(b)
  {
    if LinesHaveCRLF(a) {
      var i :| 0 <= i < |a| && HasCRLF(a[i]);
      assert HasCRLF((a + b)[i]);
    }
    if LinesHaveCRLF(b) {
      var i :| 0 <= i < |b| && HasCRLF(b[i]);
      assert HasCRLF((a + b)[|a| + i]);
    }
  }

  predicate EndsInCarriageReturn(lines: seq<string>) {
    lines != [] &&
    var last := lines[|lines| - 1];
    last != "" && last[|last| - 1] == '\r'
  }

  /** The last line kept above the block ends in a lone carriage return, which becomes half of
      a line ending when the line is terminated. */
  predicate CarriageReturnAbove(req: Request, content: string) {
    EndsInCarriageReturn(FindGap(req, Split(content), Separator(content)).above)
  }

  /** Putting the block in does not introduce the first CRLF of the file. */
  predicate EndingsStable(req: Request, content: string) {
    HasCRLF(content) || (!HasCRLF(BlockText(req.block, LF)) && !CarriageReturnAbove(req, content))
  }

  lemma BlockCRLF(req: Request, sep: string)
    requires OneLineMarkers(req) && req.block != "" && IsSeparator(sep)
    ensures LinesHaveCRLF(BlockLines(req, sep)) <==>
      sep == CRLF || HasCRLF(BlockText(req.block, sep)) || EndsInReturn(Begin(req)) || EndsInReturn(Finish(req))
  {
    var b, f, inner := [Begin(req) + sep], [Finish(req) + sep], Split(BlockText(req.block, sep));
    MarkerCRLF(Begin(req), sep);
    MarkerCRLF(Finish(req), sep);
    JoinSplit(BlockText(req.block, sep));
    SplitWellFormed(BlockText(req.block, sep));
    CRLFInLines(inner);
    LinesCRLFConcat(b, inner);
    LinesCRLFConcat(b + inner, f);
    assert LinesHaveCRLF(b) <==> HasCRLF(b[0]);
    assert LinesHaveCRLF(f) <==> HasCRLF(f[0]);
  }

  /** Terminating the last of some lines without CRLF creates one only if that line ends in a
      carriage return. */
  lemma TerminateCRLF(lines: seq<string>)
    requires WellFormed(lines) && !LinesHaveCRLF(lines)
    ensures LinesHaveCRLF(TerminateLast(lines, LF)) <==> EndsInCarriageReturn(lines)
  {
    if lines != [] && !Terminated(lines[|lines| - 1]) {
      var n := |lines| - 1;
      var init, last := lines[..n], lines[n];
      assert !LinesHaveCRLF(init) by {
        assert lines == init + [last];
        LinesCRLFConcat(init, [last]);
      }
      assert !HasCRLF(last);
      CRLFConcat(last, LF);
      LinesCRLFConcat(init, [last + LF]);
      assert LinesHaveCRLF([last + LF]) <==> HasCRLF([last + LF][0]);
    }
  }

  lemma BlankHasNoCRLF()
    ensures !LinesHaveCRLF([]) && !LinesHaveCRLF([LF])
  {
    assert !HasCRLF(LF);
    assert forall i :: 0 <= i < |[LF]| ==> [LF][i] == LF;
  }

  lemma SliceCRLF(lines: seq<string>, i: nat, j: nat)
    requires i <= j <= |lines| && !LinesHaveCRLF(lines)
    ensures !LinesHaveCRLF(lines[i..j])
  {
    hide HasCRLF;
    assert forall k :: 0 <= k < j - i ==> lines[i..j][k] == lines[i + k] && !HasCRLF(lines[i + k]);
  }

  lemma GapCRLF(req: Request, content: string)
    requires !HasCRLF(content)
    ensures var gap := FindGap(req, Split(content), LF);
      WellFormed(gap.above) && !LinesHaveCRLF(gap.above) && !LinesHaveCRLF(gap.below)
  {
    hide FindGap, Split, Join, HasCRLF, LinesHaveCRLF, WellFormed;
    var lines := Split(content);
    JoinSplit(content);
    SplitWellFormed(content);
    CRLFInLines(lines);
    var gap := FindGap(req, lines, LF);
    GapWellFormed(req, lines, LF);
    GapSlices(req, lines, LF);
    assert lines[0..|gap.above|] == gap.above && lines[|lines| - |gap.below|..|lines|] == gap.below;
    SliceCRLF(lines, 0, |gap.above|);
    SliceCRLF(lines, |lines| - |gap.below|, |lines|);
  }

  /** In a file without CRLF, the part above the block gets one only by terminating a line
      that ends in a carriage return. */
  lemma UpperCRLF(req: Request, content: string)
    requires !HasCRLF(content)
    ensures LinesHaveCRLF(Upper(req, Split(content), LF)) <==> CarriageReturnAbove(req, content)
  {
    hide FindGap, Split, Join, HasCRLF, LinesHaveCRLF, TerminateLast, WellFormed, Plain, EndsInCarriageReturn;
    GapCRLF(req, content);
    var gap := FindGap(req, Split(content), LF);
    TerminateCRLF(gap.above);
    var above := TerminateLast(gap.above, LF);
    BlankHasNoCRLF();
    LinesCRLFConcat(above, BlankAbove(req, above, LF));
  }

  lemma LowerCRLF(req: Request, content: string)
    requires !HasCRLF(content)
    ensures !LinesHaveCRLF(Lower(req, Split(content), LF))
  {
    hide FindGap, Split, HasCRLF, LinesHaveCRLF, WellFormed, Plain;
    GapCRLF(req, content);
    var gap := FindGap(req, Split(content), LF);
    BlankHasNoCRLF();
    LinesCRLFConcat(BlankBelow(req, gap.below, LF), gap.below);
  }

  /** No marker ends in a carriage return that a line feed would turn into a line ending. */
  predicate ReturnsKept(req: Request, content: string) {
    HasCRLF(content) || (!EndsInReturn(Begin(req)) && !EndsInReturn(Finish(req)))
  }

  /** The next run sees the same line separator exactly when the endings are stable and the
      markers bring none. */
  lemma SeparatorAgain(req: Request, content: string)
    requires OneLineMarkers(req) && req.block != ""
    ensures Separator(Present(req, content)) == Separator(content) <==>
      EndingsStable(req, content) && ReturnsKept(req, content)
    ensures HasCRLF(content) ==> HasCRLF(Present(req, content))
  {
    var lines, sep := Split(content), Separator(content);
    SplitWellFormed(content);
    PresentShape(req, lines, sep);
    var upper, block, lower := Upper(req, lines, sep), BlockLines(req, sep), Lower(req, lines, sep);
    CRLFInLines(upper + block + lower);
    LinesCRLFConcat(upper, block);
    LinesCRLFConcat(upper + block, lower);
    BlockCRLF(req, sep);
    if !HasCRLF(content) {
      UpperCRLF(req, content);
      LowerCRLF(req, content);
    }
  }

  // ----- Lengths

  lemma JoinThree(a: seq<string>, b: seq<string>, c: seq<string>)
    ensures Join(a + b + c) == Join(a) + Join(b) + Join(c)
  {
    JoinConcat(a, b);
    JoinConcat(a + b, c);
  }

  lemma BlockLength(req: Request, sep: string)
    ensures |Join(BlockLines(req, sep))| == |Begin(req)| + |Finish(req)| + 2 * |sep| + |BlockText(req.block, sep)|
  {
    JoinThree([Begin(req) + sep], Split(BlockText(req.block, sep)), [Finish(req) + sep]);
    JoinSplit(BlockText(req.block, sep));
    assert Join([Begin(req) + sep]) == Begin(req) + sep;
    assert Join([Finish(req) + sep]) == Finish(req) + sep;
  }

  lemma LongerWithCRLF(req: Request)
    ensures |Join(BlockLines(req, LF))| < |Join(BlockLines(req, CRLF))|
  {
    BlockLength(req, LF);
    BlockLength(req, CRLF);
  }

  lemma LeftoverLength(req: Request, sep: string)
    requires CleanMarkers(req, sep) && req.block != "" && IsSeparator(sep)
    ensures |Join(Leftover(req, sep))| > 0 <==> Leftover(req, sep) != []
  {
    BlockLinesWellFormed(req, sep);
    if Leftover(req, sep) != [] {
      JoinNonempty(Leftover(req, sep));
    }
  }
}
