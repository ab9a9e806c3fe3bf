/** Keeping a marked block of lines in a text file. */
module BlockInFile {
  import opened Values
  import opened TextLines

  const LF := "\n"
  const CRLF := "\r\n"

  /** Where a new block goes: a regular expression is just a predicate on lines, or, when it
      spans lines, a search that yields the two ends of its first match. */
  datatype Where =
    | Beginning
    | End
    | Pattern(matches: string -> bool, after: bool)
    | Multiline(find: string -> Option<(nat, nat)>, after: bool)

  datatype Request = Request(
    marker: string, markerBegin: string, markerEnd: string,
    block: string, where: Where, prependNewline: bool, appendNewline: bool)

  // ----- Markers

  predicate StartsWithMark(s: string) {
    "{mark}" <= s
  }

  /** The template with its first "{mark}" replaced. */
  function ReplaceMark(template: string, mark: string): string {
    if template == "" then ""
    else if StartsWithMark(template) then mark + template[6..]
    else [template[0]] + ReplaceMark(template[1..], mark)
  }

  predicate HasMark(template: string) {
    template != "" && (StartsWithMark(template) || HasMark(template[1..]))
  }

  /** The two markers differ exactly when the template has a mark and the two words differ. */
  lemma {:induction false} MarkersDiffer(template: string, a: string, b: string)
    ensures ReplaceMark(template, a) != ReplaceMark(template, b) <==> HasMark(template) && a != b
    ensures template != "" && a != "" ==> ReplaceMark(template, a) != ""
  {
    if template != "" {
      var x, y := ReplaceMark(template, a), ReplaceMark(template, b);
      if StartsWithMark(template) {
        if x == y {
          assert |a| == |b|;
          assert a == x[..|a|] && b == y[..|b|];
        }
      } else {
        MarkersDiffer(template[1..], a, b);
        assert x[1..] == ReplaceMark(template[1..], a) && y[1..] == ReplaceMark(template[1..], b);
      }
    }
  }

  function Begin(req: Request): string {
    ReplaceMark(if req.marker == "" then "# {mark} DIBRA MANAGED BLOCK" else req.marker,
                if req.markerBegin == "" then "BEGIN" else req.markerBegin)
  }

  function Finish(req: Request): string {
    ReplaceMark(if req.marker == "" then "# {mark} DIBRA MANAGED BLOCK" else req.marker,
                if req.markerEnd == "" then "END" else req.markerEnd)
  }

  /** The first "{mark}" of the template stands between `a` and `b`. */
  ghost predicate FirstMark(template: string, a: string, b: string) {
    template == a + ("{mark}" + b) && forall i :: 0 <= i < |a| ==> !("{mark}" <= template[i..])
  }

  /** The first "{mark}" is replaced, and the rest of the template stays. */
  lemma {:induction false} MarkReplaced(template: string, a: string, b: string, mark: string)
    requires FirstMark(template, a, b)
    ensures ReplaceMark(template, mark) == a + (mark + b)
    decreases a
  {
    if a == "" {
      assert template == "{mark}" + b && template[6..] == b;
      assert "" + (mark + b) == mark + b;
    } else {
      assert template[0..] == template && !StartsWithMark(template);
      var rest := template[1..];
      assert rest == a[1..] + ("{mark}" + b);
      forall i | 0 <= i < |a[1..]|
        ensures !("{mark}" <= rest[i..])
      {
        assert rest[i..] == template[i + 1..];
      }
      MarkReplaced(rest, a[1..], b, mark);
      assert a == [a[0]] + a[1..];
    }
  }

  lemma {:induction false} NothingReplaced(template: string, mark: string)
    requires forall i :: 0 <= i < |template| ==> !("{mark}" <= template[i..])
    ensures ReplaceMark(template, mark) == template
  {
    if template != "" {
      var rest := template[1..];
      assert template[0..] == template;
      forall i | 0 <= i < |rest|
        ensures !("{mark}" <= rest[i..])
      {
        assert rest[i..] == template[i + 1..];
      }
      NothingReplaced(rest, mark);
      assert template == [template[0]] + rest;
    }
  }

  /** The markers of a request: the first mark of its template is replaced by the word that is asked for,
      or by "BEGIN" and "END"; without a template there is one of the program's own. */
  lemma MarkersOf(req: Request, a: string, b: string)
    ensures var template := if req.marker == "" then "# {mark} DIBRA MANAGED BLOCK" else req.marker;
      && (FirstMark(template, a, b) ==>
            && Begin(req) == a + ((if req.markerBegin == "" then "BEGIN" else req.markerBegin) + b)
            && Finish(req) == a + ((if req.markerEnd == "" then "END" else req.markerEnd) + b))
      && ((forall i :: 0 <= i < |template| ==> !("{mark}" <= template[i..])) ==>
            Begin(req) == template && Finish(req) == template)
  {
    hide ReplaceMark, FirstMark;
    var template := if req.marker == "" then "# {mark} DIBRA MANAGED BLOCK" else req.marker;
    var begin := if req.markerBegin == "" then "BEGIN" else req.markerBegin;
    var finish := if req.markerEnd == "" then "END" else req.markerEnd;
    if FirstMark(template, a, b) {
      MarkReplaced(template, a, b, begin);
      MarkReplaced(template, a, b, finish);
    }
    if forall i :: 0 <= i < |template| ==> !("{mark}" <= template[i..]) {
      NothingReplaced(template, begin);
      NothingReplaced(template, finish);
    }
  }

  // ----- Line endings

  function Separator(content: string): string {
    if HasCRLF(content) then CRLF else LF
  }

  function TrimSuffix(s: string, c: char): string {
    if s != "" && s[|s| - 1] == c then s[..|s| - 1] else s
  }

  /** A line without its ending. */
  function Plain(line: string): string {
    TrimSuffix(TrimSuffix(line, '\n'), '\r')
  }

  /** Of its ending a line loses one line feed, and then one carriage return. */
  lemma PlainIs(text: string)
    ensures Plain(text + "\r\n") == Plain(text + "\r") == text
    ensures text == "" || text[|text| - 1] != '\r' ==> Plain(text + "\n") == text
    ensures text == "" || text[|text| - 1] !in {'\r', '\n'} ==> Plain(text) == text
  {
    assert text + "\r\n" == (text + "\r") + "\n";
    assert (text + "\r" + "\n")[..|text| + 1] == text + "\r" && (text + "\r")[..|text|] == text;
    assert (text + "\n")[..|text|] == text;
  }

  /** Lines end with a carriage return and a line feed if that is found anywhere in the file. */
  lemma SeparatorIs(content: string)
    ensures Separator(content) ==
      if exists above, below :: content == above + "\r\n" + below then "\r\n" else "\n"
  {
    if HasCRLF(content) {
      var i :| 0 <= i < |content| - 1 && content[i] == '\r' && content[i + 1] == '\n';
      assert content == content[..i] + "\r\n" + content[i + 2..];
    }
    if above, below :| content == above + "\r\n" + below {
      assert content[|above|] == '\r' && content[|above| + 1] == '\n';
    }
  }

  predicate EndsWithCRLF(s: string) {
    |s| >= 2 && s[|s| - 2..] == CRLF
  }

  function BlockText(block: string, sep: string): string {
    if !Terminated(block) then block + sep
    else if sep == CRLF && !EndsWithCRLF(block) then TrimSuffix(block, '\n') + sep
    else block
  }

  /** The lines that are inserted: the block between its two markers. */
  function BlockLines(req: Request, sep: string): seq<string> {
    [Begin(req) + sep] + Split(BlockText(req.block, sep)) + [Finish(req) + sep]
  }

  // ----- What an edit does, in terms of the lines above and below the block

  /** The last index whose line satisfies `p`, or -1. */
  function LastWhere(lines: seq<string>, p: string -> bool): (r: int)
    ensures -1 <= r < |lines|
    ensures r >= 0 ==> p(lines[r])
    ensures forall i :: r < i < |lines| ==> !p(lines[i])
  {
    if lines == [] then -1
    else if p(lines[|lines| - 1]) then |lines| - 1
    else LastWhere(lines[..|lines| - 1], p)
  }

  function LastMarker(lines: seq<string>, marker: string): (r: int)
    ensures -1 <= r < |lines|
    ensures r >= 0 ==> Plain(lines[r]) == marker
    ensures forall i :: r < i < |lines| ==> Plain(lines[i]) != marker
  {
    LastWhere(lines, line => Plain(line) == marker)
  }

  /** The first line at whose end at least `target` characters have been seen. */
  function LineAt(lines: seq<string>, target: int): (r: nat)
    ensures r <= |lines|
  {
    if lines == [] then 0
    else if |lines[0]| >= target then 0
    else 1 + LineAt(lines[1..], target - |lines[0]|)
  }

  /** Where a block goes that is not in the file yet. */
  function Position(lines: seq<string>, where: Where): (r: nat)
    ensures r <= |lines|
  {
    match where
    case Beginning => 0
    case End => |lines|
    case Pattern(matches, after) =>
      var last := LastWhere(lines, line => matches(Plain(line)));
      if last == -1 then |lines| else if after then last + 1 else last
    case Multiline(find, after) =>
      match find(Join(lines))
      case None => |lines|
      case Some(ends) =>
        var i := LineAt(lines, if after then ends.1 else ends.0);
        if i == |lines| then |lines| else if after then i + 1 else i
  }

  /** A stretch of lines, from the first to before the second index. */
  datatype Span = Span(from: nat, to: nat)

  /** The lines that make room for the block: an old block, whichever way round its last
      markers stand, or a single stray marker line, or nothing. */
  function FindSpan(req: Request, lines: seq<string>, sep: string): (r: Span)
    ensures r.from <= r.to <= |lines|
  {
    var n0, n1 := LastMarker(lines, Plain(Begin(req) + sep)), LastMarker(lines, Plain(Finish(req) + sep));
    if n0 == -1 && n1 == -1 then
      var n := Position(lines, req.where);
      Span(n, n)
    else if n0 == -1 then Span(n1, n1 + 1)
    else if n1 == -1 then Span(n0, n0 + 1)
    else if n0 < n1 then Span(n0, n1 + 1)
    else Span(n1, n0 + 1)
  }

  datatype Gap = Gap(above: seq<string>, below: seq<string>)

  /** The lines kept above and below the block. */
  function FindGap(req: Request, lines: seq<string>, sep: string): Gap {
    var span := FindSpan(req, lines, sep);
    Gap(lines[..span.from], lines[span.to..])
  }

  function TerminateLast(lines: seq<string>, sep: string): seq<string> {
    if lines != [] && !Terminated(lines[|lines| - 1])
    then lines[..|lines| - 1] + [lines[|lines| - 1] + sep]
    else lines
  }

  function BlankAbove(req: Request, above: seq<string>, sep: string): seq<string> {
    if req.prependNewline && above != [] && Plain(above[|above| - 1]) != "" then [sep] else []
  }

  function BlankBelow(req: Request, below: seq<string>, sep: string): seq<string> {
    if req.appendNewline && below != [] && Plain(below[0]) != "" then [sep] else []
  }

  /** Everything above the block once it is in place ... */
  function Upper(req: Request, lines: seq<string>, sep: string): seq<string> {
    var above := TerminateLast(FindGap(req, lines, sep).above, sep);
    above + BlankAbove(req, above, sep)
  }

  /** ... and everything below it. */
  function Lower(req: Request, lines: seq<string>, sep: string): seq<string> {
    var below := FindGap(req, lines, sep).below;
    BlankBelow(req, below, sep) + below
  }

  function PresentLines(req: Request, lines: seq<string>, sep: string): seq<string> {
    Upper(req, lines, sep) + BlockLines(req, sep) + Lower(req, lines, sep)
  }

  function AbsentLines(req: Request, lines: seq<string>, sep: string): seq<string> {
    var gap := FindGap(req, lines, sep);
    TerminateLast(gap.above, sep) + gap.below
  }

  function Absent(req: Request, content: string): string {
    Join(AbsentLines(req, Split(content), Separator(content)))
  }

  /** The file after `state: present`; an empty block counts as absent. */
  function Present(req: Request, content: string): string {
    if req.block != "" then Join(PresentLines(req, Split(content), Separator(content))) else Absent(req, content)
  }

  // ----- The same edit, told from the file and the text that comes of it

  /** Where a new block stands between the lines above and below it.  A pattern is looked for from
      the end; a match across lines ends, or begins, at most in the line next to the block. */
  ghost predicate Stands(where: Where, above: seq<string>, below: seq<string>) {
    match where
    case Beginning => above == []
    case End => below == []
    case Pattern(matches, after) =>
      if forall line <- above + below :: !matches(Plain(line)) then below == []
      else if after then
        above != [] && matches(Plain(above[|above| - 1])) && forall line <- below :: !matches(Plain(line))
      else
        below != [] && matches(Plain(below[0])) && forall line <- below[1..] :: !matches(Plain(line))
    case Multiline(find, after) =>
      match find(Join(above + below))
      case None => below == []
      case Some(ends) =>
        var at := if after then ends.1 else ends.0;
        if |Join(above + below)| < at then below == []
        else if after then
          above + below != [] ==>
            above != [] && |Join(above)| >= at && (|above| > 1 ==> |Join(above[..|above| - 1])| < at)
        else
          && (above != [] ==> |Join(above)| < at)
          && (above + below != [] ==> below != [] && |Join(above)| + |below[0]| >= at)
  }

  lemma LinesBefore(lines: seq<string>, k: nat)
    requires k < |lines|
    ensures Join(lines[..k + 1]) == Join(lines[..k]) + lines[k]
  {
    assert lines[..k + 1] == lines[..k] + [lines[k]];
    JoinConcat(lines[..k], [lines[k]]);
    assert Join([lines[k]]) == lines[k] + "" == lines[k];
  }

  /** The line found is the first at whose end so many characters have been seen. */
  lemma {:induction false} LineAtIs(lines: seq<string>, target: int)
    ensures var i := LineAt(lines, target);
      && (i < |lines| ==> |Join(lines[..i + 1])| >= target)
      && (i == |lines| ==> lines == [] || |Join(lines)| < target)
      && (i > 0 ==> |Join(lines[..i])| < target)
  {
    if lines != [] {
      var i := LineAt(lines, target);
      LinesBefore(lines, 0);
      assert lines[..0] == [];
      if |lines[0]| < target {
        LineAtIs(lines[1..], target - |lines[0]|);
        assert i < |lines| ==> lines[..i + 1][1..] == lines[1..][..i];
        assert lines[..i][1..] == lines[1..][..i - 1];
      }
    }
  }

  lemma PatternStands(lines: seq<string>, matches: string -> bool, after: bool)
    ensures var n := Position(lines, Pattern(matches, after)); Stands(Pattern(matches, after), lines[..n], lines[n..])
  {
    hide Plain;
    var n := Position(lines, Pattern(matches, after));
    var last := LastWhere(lines, line => matches(Plain(line)));
    assert lines[..n] + lines[n..] == lines;
    if last >= 0 {
      assert lines[last] in lines;
    } else {
      forall line <- lines
        ensures !matches(Plain(line))
      {
        var i :| 0 <= i < |lines| && lines[i] == line;
      }
    }
  }

  lemma EmptyText()
    ensures Join([]) == ""
  {
  }

  lemma MultilineStands(lines: seq<string>, find: string -> Option<(nat, nat)>, after: bool, ends: (nat, nat))
    requires find(Join(lines)) == Some(ends)
    ensures var where := Multiline(find, after);
      var n := Position(lines, where); Stands(where, lines[..n], lines[n..])
  {
    hide Join, LineAt;
    var at := if after then ends.1 else ends.0;
    var i := LineAt(lines, at);
    LineAtIs(lines, at);
    var n := Position(lines, Multiline(find, after));
    assert lines[..n] + lines[n..] == lines;
    if i < |lines| {
      LinesBefore(lines, i);
      assert after ==> lines[..n][..|lines[..n]| - 1] == lines[..i];
      JoinConcat(lines[..i + 1], lines[i + 1..]);
      assert lines[..i + 1] + lines[i + 1..] == lines;
    } else {
      assert lines[..i] == lines;
      EmptyText();
    }
  }

  lemma PositionStands(lines: seq<string>, where: Where)
    ensures var n := Position(lines, where); Stands(where, lines[..n], lines[n..])
  {
    hide Plain, Join;
    var n := Position(lines, where);
    assert lines[..n] + lines[n..] == lines;
    match where
    case Beginning =>
    case End =>
    case Pattern(matches, after) =>
      PatternStands(lines, matches, after);
    case Multiline(find, after) =>
      match find(Join(lines)) {
        case None =>
        case Some(ends) =>
          MultilineStands(lines, find, after, ends);
      }
  }

  /** The `i`-th line is the last that reads `text`. */
  ghost predicate LastReading(lines: seq<string>, i: nat, text: string) {
    i < |lines| && Plain(lines[i]) == text && forall k :: i < k < |lines| ==> Plain(lines[k]) != text
  }

  ghost predicate NoneReads(lines: seq<string>, text: string) {
    forall line <- lines :: Plain(line) != text
  }

  /** The lines that go: from the last begin marker to the last end marker, whichever comes first; a
      stray one of them alone; or none, where a new block belongs. */
  ghost predicate MakesRoom(req: Request, sep: string, lines: seq<string>, from: nat, to: nat) {
    var begin, finish := Plain(Begin(req) + sep), Plain(Finish(req) + sep);
    && from <= to <= |lines|
    && if NoneReads(lines, begin) && NoneReads(lines, finish) then
         from == to && Stands(req.where, lines[..from], lines[to..])
       else if NoneReads(lines, begin) || NoneReads(lines, finish) then
         to == from + 1 && (LastReading(lines, from, begin) || LastReading(lines, from, finish))
       else
         && to > from
         && ((LastReading(lines, from, begin) && LastReading(lines, to - 1, finish))
             || (LastReading(lines, from, finish) && LastReading(lines, to - 1, begin)))
  }

  lemma NotLast(lines: seq<string>, text: string)
    ensures LastMarker(lines, text) == -1 <==> NoneReads(lines, text)
    ensures LastMarker(lines, text) >= 0 ==> LastReading(lines, LastMarker(lines, text), text)
  {
    var n := LastMarker(lines, text);
    if n == -1 {
      forall line <- lines
        ensures Plain(line) != text
      {
        var i :| 0 <= i < |lines| && lines[i] == line;
      }
    } else {
      assert lines[n] in lines;
    }
  }

  lemma SpanMakesRoom(req: Request, sep: string, lines: seq<string>)
    ensures var span := FindSpan(req, lines, sep); MakesRoom(req, sep, lines, span.from, span.to)
  {
    hide Begin, Finish, Plain, Position, Stands, LastMarker, NoneReads, LastReading;
    NotLast(lines, Plain(Begin(req) + sep));
    NotLast(lines, Plain(Finish(req) + sep));
    PositionStands(lines, req.where);
  }

  /** A block as it is written: its own last line ending becomes that of the file if it can, and
      one is added if there is none. */
  ghost function Body(block: string, sep: string): string {
    if block == "" || block[|block| - 1] != '\n' then block + sep
    else if sep == "\r\n" && !(|block| >= 2 && block[|block| - 2] == '\r') then block[..|block| - 1] + "\r\n"
    else block
  }

  /** The text that comes of the lines above and below the gap: a last line that is not blank is
      kept apart by a blank one if that is asked for, and so is the first line below. */
  ghost predicate Edited(req: Request, present: bool, sep: string, above: seq<string>, below: seq<string>,
                         text: string)
  {
    var open := above != [] && !Terminated(above[|above| - 1]);
    var last := if above == [] then "\n" else if open then above[|above| - 1] + sep else above[|above| - 1];
    var next := if below == [] then "\n" else below[0];
    var upper := Join(above) + (if open then sep else "");
    if !present then text == upper + Join(below)
    else
      text == upper
        + (if req.prependNewline && last != "\n" && last != "\r\n" then sep else "")
        + (Begin(req) + sep + Body(req.block, sep) + (Finish(req) + sep))
        + (if req.appendNewline && next != "\n" && next != "\r\n" && next != "\r" && next != "" then sep else "")
        + Join(below)
  }

  lemma BodyIs(block: string, sep: string)
    requires sep == LF || sep == CRLF
    ensures BlockText(block, sep) == Body(block, sep)
  {
    if Terminated(block) {
      assert |block| >= 2 ==> (block[|block| - 2..] == CRLF <==> block[|block| - 2] == '\r');
    }
  }

  lemma JoinOne(line: string)
    ensures Join([line]) == line
  {
    assert line + "" == line;
  }

  lemma JoinedBlock(req: Request, sep: string)
    requires sep == LF || sep == CRLF
    ensures Join(BlockLines(req, sep)) == Begin(req) + sep + Body(req.block, sep) + (Finish(req) + sep)
  {
    hide Begin, Finish, Split, Join, BlockText, Body;
    var text := BlockText(req.block, sep);
    BodyIs(req.block, sep);
    JoinSplit(text);
    JoinOne(Begin(req) + sep);
    JoinOne(Finish(req) + sep);
    JoinConcat([Begin(req) + sep], Split(text));
    JoinConcat([Begin(req) + sep] + Split(text), [Finish(req) + sep]);
  }

  lemma LastGrows(init: seq<string>, last: string, sep: string)
    ensures Join(init + [last + sep]) == Join(init + [last]) + sep
  {
    hide Join;
    JoinOne(last);
    JoinOne(last + sep);
    JoinConcat(init, [last]);
    JoinConcat(init, [last + sep]);
    ConcatThree(Join(init), last, sep);
  }

  lemma JoinedOpen(above: seq<string>, sep: string)
    requires above != []
    ensures Join(above[..|above| - 1] + [above[|above| - 1] + sep]) == Join(above) + sep
  {
    hide Join;
    var n := |above| - 1;
    assert above == above[..n] + [above[n]];
    LastGrows(above[..n], above[n], sep);
  }

  lemma JoinedAbove(above: seq<string>, sep: string)
    ensures Join(TerminateLast(above, sep)) ==
      Join(above) + (if above != [] && !Terminated(above[|above| - 1]) then sep else "")
  {
    hide Join, Terminated;
    if above == [] || Terminated(above[|above| - 1]) {
      assert Join(above) + "" == Join(above);
    } else {
      JoinedOpen(above, sep);
    }
  }

  lemma BlankLine(line: string)
    ensures Plain(line) == "" <==> line == "" || line == "\n" || line == "\r" || line == "\r\n"
  {
    var once := TrimSuffix(line, '\n');
    assert line == once || line == once + "\n";
    assert "\r\n"[..1] == "\r";
    if Plain(line) == "" {
      assert once == "" || once == "\r";
    }
  }

  lemma JoinedBlank(blank: seq<string>, sep: string)
    requires blank == [] || blank == [sep]
    ensures Join(blank) == if blank == [] then "" else sep
  {
    JoinOne(sep);
  }

  lemma UpperText(req: Request, sep: string, lines: seq<string>)
    requires sep == LF || sep == CRLF
    ensures var above := FindGap(req, lines, sep).above;
      var open := above != [] && !Terminated(above[|above| - 1]);
      var last := if above == [] then "\n" else if open then above[|above| - 1] + sep else above[|above| - 1];
      Join(Upper(req, lines, sep)) == Join(above) + (if open then sep else "")
        + (if req.prependNewline && last != "\n" && last != "\r\n" then sep else "")
  {
    hide Plain, Join, FindGap;
    var above := FindGap(req, lines, sep).above;
    var terminated := TerminateLast(above, sep);
    JoinedAbove(above, sep);
    if above != [] {
      BlankLine(terminated[|terminated| - 1]);
    }
    JoinedBlank(BlankAbove(req, terminated, sep), sep);
    JoinConcat(terminated, BlankAbove(req, terminated, sep));
  }

  lemma LowerText(req: Request, sep: string, lines: seq<string>)
    ensures var below := FindGap(req, lines, sep).below;
      var next := if below == [] then "\n" else below[0];
      Join(Lower(req, lines, sep)) ==
        (if req.appendNewline && next != "\n" && next != "\r\n" && next != "\r" && next != "" then sep else "")
        + Join(below)
  {
    hide Plain, Join, FindGap;
    var below := FindGap(req, lines, sep).below;
    if below != [] {
      BlankLine(below[0]);
    }
    JoinedBlank(BlankBelow(req, below, sep), sep);
    JoinConcat(BlankBelow(req, below, sep), below);
  }

  lemma EditedText(req: Request, sep: string, lines: seq<string>)
    requires sep == LF || sep == CRLF
    ensures var gap := FindGap(req, lines, sep);
      && Edited(req, true, sep, gap.above, gap.below, Join(PresentLines(req, lines, sep)))
      && Edited(req, false, sep, gap.above, gap.below, Join(AbsentLines(req, lines, sep)))
  {
    hide Begin, Finish, Join, FindGap, BlockLines, TerminateLast, Body, Upper, Lower;
    var gap := FindGap(req, lines, sep);
    UpperText(req, sep, lines);
    LowerText(req, sep, lines);
    JoinedBlock(req, sep);
    JoinedAbove(gap.above, sep);
    var upper, block, lower := Upper(req, lines, sep), BlockLines(req, sep), Lower(req, lines, sep);
    JoinConcat(upper, block);
    JoinConcat(upper + block, lower);
    JoinConcat(TerminateLast(gap.above, sep), gap.below);
    var next := if gap.below == [] then "\n" else gap.below[0];
    ConcatThree(Join(upper) + Join(block),
                if req.appendNewline && next != "\n" && next != "\r\n" && next != "\r" && next != "" then sep else "",
                Join(gap.below));
  }

  // ----- The edit as it is carried out, on a list of lines and an index into it

  method FindMarkers(lines: seq<string>, marker0: string, marker1: string) returns (n0: int, n1: int)
    ensures n0 == LastMarker(lines, Plain(marker0)) && n1 == LastMarker(lines, Plain(marker1))
  {
    n0, n1 := -1, -1;
    var marker0Plain, marker1Plain := Plain(marker0), Plain(marker1);
    for i := 0 to |lines|
      invariant n0 == LastMarker(lines[..i], marker0Plain)
      invariant n1 == LastMarker(lines[..i], marker1Plain)
    {
      var linePlain := Plain(lines[i]);
      if linePlain == marker0Plain {
        n0 := i;
      }
      if linePlain == marker1Plain {
        n1 := i;
      }
      assert lines[..i + 1][..i] == lines[..i];
    }
    assert lines[..|lines|] == lines;
  }

  method CalculateInsertPosition(lines: seq<string>, where: Where) returns (n: nat)
    ensures n == Position(lines, where)
    ensures n <= |lines| && Stands(where, lines[..n], lines[n..])
  {
    hide Stands, Plain, Join;
    PositionStands(lines, where);
    match where
    case Beginning => return 0;
    case End => return |lines|;
    case Multiline(find, after) =>
      match find(Join(lines)) {
        case None => return |lines|;
        case Some(ends) =>
          var targetPos := if after then ends.1 else ends.0;
          var pos := 0;
          for i := 0 to |lines|
            invariant LineAt(lines, targetPos) == i + LineAt(lines[i..], targetPos - pos)
          {
            pos := pos + |lines[i]|;
            if pos >= targetPos {
              return if after then i + 1 else i;
            }
          }
          return |lines|;
      }
    case Pattern(matches, after) =>
      var lastMatch := -1;
      for i := 0 to |lines|
        invariant lastMatch == LastWhere(lines[..i], line => matches(Plain(line)))
      {
        if matches(Plain(lines[i])) {
          lastMatch := i;
        }
        assert lines[..i + 1][..i] == lines[..i];
      }
      assert lines[..|lines|] == lines;
      return if lastMatch == -1 then |lines| else if after then lastMatch + 1 else lastMatch;
  }

  function InsertAt(lines: seq<string>, index: nat, inserted: seq<string>): seq<string> {
    if index >= |lines| then lines + inserted else lines[..index] + inserted + lines[index..]
  }

  /** Takes the old block out, or finds the place for a new one: afterwards the block belongs
      in front of index `n` of `kept`. */
  method CutOldBlock(req: Request, lines: seq<string>, lineSep: string) returns (kept: seq<string>, n: nat)
    ensures var gap := FindGap(req, lines, lineSep);
      n == |gap.above| && kept == gap.above + gap.below
  {
    hide Begin, Finish, Plain, Position, LastWhere;
    var n0, n1 := FindMarkers(lines, Begin(req) + lineSep, Finish(req) + lineSep);
    kept := lines;
    if n0 != -1 && n1 != -1 {
      if n0 < n1 {
        kept := kept[..n0] + kept[n1 + 1..];
      } else {
        kept := kept[..n1] + kept[n0 + 1..];
        n0 := n1;
      }
    } else if n0 != -1 || n1 != -1 {
      if n0 != -1 {
        kept := kept[..n0] + kept[n0 + 1..];
      } else {
        kept := kept[..n1] + kept[n1 + 1..];
        n0 := n1;
      }
    } else {
      n0 := CalculateInsertPosition(kept, req.where);
      assert kept == kept[..n0] + kept[n0..];
    }
    n := n0;
  }

  lemma AfterBlock(head: seq<string>, block: seq<string>, tail: seq<string>, line: string)
    ensures InsertAt(head + tail, |head|, block) == head + block + tail
    ensures InsertAt(head + block + tail, |head| + |block|, [line]) == head + block + ([line] + tail)
    ensures [] + tail == tail && (tail != [] ==> (head + block + tail)[|head| + |block|] == tail[0])
  {
    assert (head + tail)[..|head|] == head && (head + tail)[|head|..] == tail;
    assert (head + block + tail)[..|head| + |block|] == head + block;
    assert (head + block + tail)[|head| + |block|..] == tail;
  }

  /** Puts a blank line in front of index `n`, if one is asked for; the block then belongs in
      front of index `n0`. */
  method PrependBlank(req: Request, kept: seq<string>, n: nat, lineSep: string) returns (lines: seq<string>, n0: nat)
    requires n <= |kept|
    ensures var head := kept[..n] + BlankAbove(req, kept[..n], lineSep);
      n0 == |head| && lines == head + kept[n..]
  {
    hide Plain;
    lines, n0 := kept, n;
    if req.prependNewline && n0 != 0 && |lines| > 0 {
      if Plain(lines[n0 - 1]) != "" {
        lines := InsertAt(lines, n0, [lineSep]);
        n0 := n0 + 1;
      }
    }
  }

  /** Puts the block, and the blank lines asked for, in front of index `n`. */
  method InsertBlock(req: Request, kept: seq<string>, n: nat, blockLines: seq<string>, lineSep: string)
    returns (lines: seq<string>)
    requires n <= |kept| && blockLines != []
    ensures lines == kept[..n] + BlankAbove(req, kept[..n], lineSep) + blockLines
      + (BlankBelow(req, kept[n..], lineSep) + kept[n..])
  {
    hide Plain, InsertAt, BlankAbove;
    var n0: nat;
    lines, n0 := PrependBlank(req, kept, n, lineSep);
    ghost var head, tail := kept[..n] + BlankAbove(req, kept[..n], lineSep), kept[n..];
    AfterBlock(head, blockLines, tail, lineSep);
    lines := InsertAt(lines, n0, blockLines);
    if req.appendNewline {
      var lineAfterBlock := n0 + |blockLines|;
      if lineAfterBlock < |lines| && Plain(lines[lineAfterBlock]) != "" {
        lines := InsertAt(lines, lineAfterBlock, [lineSep]);
      }
    }
  }

  method TerminateBefore(kept: seq<string>, n0: nat, lineSep: string) returns (lines: seq<string>)
    requires n0 <= |kept|
    ensures lines == TerminateLast(kept[..n0], lineSep) + kept[n0..]
  {
    lines := kept;
    if n0 > 0 && |lines| > 0 && n0 <= |lines| {
      var prevLine := lines[n0 - 1];
      if !Terminated(prevLine) {
        lines := lines[n0 - 1 := prevLine + lineSep];
      }
    }
  }

  /** The whole edit: reads the text, cuts the old block, and puts in the new one. */
  method EditFile(req: Request, statePresent: bool, content: string) returns (newContent: string)
    ensures newContent == if statePresent then Present(req, content) else Absent(req, content)
    ensures exists from: nat, to: nat ::
      && MakesRoom(req, Separator(content), Split(content), from, to)
      && Edited(req, statePresent && req.block != "", Separator(content), Split(content)[..from], Split(content)[to..],
                newContent)
  {
    hide MakesRoom, Edited;
    var lineSep := Separator(content);
    SpanMakesRoom(req, lineSep, Split(content));
    EditedText(req, lineSep, Split(content));
    var lines := SplitLinesKeepEndings(content);
    ghost var gap := FindGap(req, lines, lineSep);
    ghost var above := TerminateLast(gap.above, lineSep);
    var n0: nat;
    lines, n0 := CutOldBlock(req, lines, lineSep);
    assert lines[..n0] == gap.above && lines[n0..] == gap.below;
    lines := TerminateBefore(lines, n0, lineSep);
    assert lines == above + gap.below && |above| == n0;
    if statePresent && req.block != "" {
      var split := SplitLinesKeepEndings(BlockText(req.block, lineSep));
      var blockLines := [Begin(req) + lineSep] + split + [Finish(req) + lineSep];
      assert lines[..n0] == above && lines[n0..] == gap.below;
      lines := InsertBlock(req, lines, n0, blockLines, lineSep);
    }
    newContent := Join(lines);
  }
}
