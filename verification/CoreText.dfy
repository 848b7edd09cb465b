/**
 * Offsets, line and column positions, and source text with replacements
 * (packages/core/src/core.ts). Text is UTF-16 code units.
 */
module CoreText {
  import opened Utf16
  import opened Wrappers

  // ---- lines

  const NEWLINE: nat := 0x0A

  /** `lines.join("\n")`. */
  function Join(lines: seq<Text>): Text {
    if lines == [] then []
    else if |lines| == 1 then lines[0]
    else lines[0] + [NEWLINE] + Join(lines[1..])
  }

  /** `source.split("\n")`. */
  function Split(source: Text): (lines: seq<Text>)
    ensures lines != []
  {
    if source == [] then [[]]
    else
      var rest := Split(source[1..]);
      if source[0] == NEWLINE then [[]] + rest else [[source[0]] + rest[0]] + rest[1..]
  }

  /** No line holds a newline, so the lines are those between newlines. */
  lemma {:induction false} LinesHoldNoNewline(source: Text)
    ensures forall line <- Split(source) :: '\n' as nat !in line
  {
    if source != [] {
      LinesHoldNoNewline(source[1..]);
      var rest := Split(source[1..]);
      assert rest[0] in rest && forall line <- rest[1..] :: line in rest;
      assert forall line <- Split(source) ::
        line == [] || line == [source[0]] + rest[0] || line in rest;
    }
  }

  lemma {:induction false} JoinOfSplit(source: Text)
    ensures Join(Split(source)) == source
  {
    if source != [] {
      var rest := Split(source[1..]);
      JoinOfSplit(source[1..]);
      assert source == [source[0]] + source[1..];
      if source[0] == NEWLINE {
        assert Split(source)[1..] == rest;
      } else {
        JoinHead(rest, source[0]);
      }
    }
  }

  lemma JoinHead(lines: seq<Text>, c: nat)
    requires lines != []
    ensures Join([[c] + lines[0]] + lines[1..]) == [c] + Join(lines)
  {
    var grown := [[c] + lines[0]] + lines[1..];
    if |lines| > 1 {
      assert grown[1..] == lines[1..];
      assert [c] + lines[0] + [NEWLINE] + Join(lines[1..]) == [c] + (lines[0] + [NEWLINE] + Join(lines[1..]));
    }
  }

  /** A 1-based line and a 0-based column. */
  datatype Position = Position(line: nat, column: int)

  function Max(a: int, b: int): int { if a < b then b else a }

  /** The rest of the loop of `positionAtOffset`: `line` starts at `lineStart`. */
  function PositionFrom(lines: seq<Text>, offset: int, line: nat, lineStart: nat, total: nat): Position
    decreases |lines|
  {
    if lines == [] then Position(if total == 0 then 1 else total, Max(0, offset - lineStart))
    else if offset <= lineStart + |lines[0]| then Position(line, offset - lineStart)
    else PositionFrom(lines[1..], offset, line + 1, lineStart + |lines[0]| + 1, total)
  }

  method PositionAtOffset(lines: seq<Text>, offset: int) returns (position: Position)
    ensures position == PositionFrom(lines, offset, 1, 0, |lines|)
  {
    var line: nat, lineStart: nat := 1, 0;
    for i := 0 to |lines|
      invariant PositionFrom(lines[i..], offset, line, lineStart, |lines|) == PositionFrom(lines, offset, 1, 0, |lines|)
    {
      var lineEnd := lineStart + |lines[i]|;
      if offset <= lineEnd { return Position(line, offset - lineStart); }
      assert lines[i..][1..] == lines[i + 1..];
      line := line + 1;
      lineStart := lineEnd + 1;
    }
    position := Position(if |lines| == 0 then 1 else |lines|, Max(0, offset - lineStart));
  }

  /** `text.slice(from, to)` for bounds that are not negative. */
  function Slice(text: Text, from: int, to: int): Text {
    var low, high := if from < |text| then Max(0, from) else |text|, if to < |text| then Max(0, to) else |text|;
    if low <= high then text[low..high] else []
  }

  function LineAt(lines: seq<Text>, line: int): Text {
    if 1 <= line <= |lines| then lines[line - 1] else []
  }

  function SliceLoc(lines: seq<Text>, start: Position, end: Position): Text {
    if start.line == end.line then Slice(LineAt(lines, start.line), start.column, end.column)
    else
      var first, last := LineAt(lines, start.line), LineAt(lines, end.line);
      var middle := if start.line < end.line <= |lines| + 1 then lines[start.line..end.line - 1] else [];
      Join([Slice(first, start.column, |first|)] + middle + [Slice(last, 0, end.column)])
  }

  /** Where `offset` is, in the lines of some text. */
  function At(lines: seq<Text>, offset: int): Position { PositionFrom(lines, offset, 1, 0, |lines|) }

  lemma {:induction false} PositionPast(lines: seq<Text>, offset: int, line: nat, lineStart: nat, total: nat)
    requires lines != [] && offset > lineStart + |Join(lines)| && total > 0
    ensures PositionFrom(lines, offset, line, lineStart, total)
         == Position(total, offset - lineStart - |Join(lines)| - 1)
    decreases |lines|
  {
    if |lines| > 1 {
      PositionPast(lines[1..], offset, line + 1, lineStart + |lines[0]| + 1, total);
    }
  }

  /**
   * An offset past the end is in the last line, counted as if a newline ended
   * it; one before the start is in front of the first line. Without lines
   * everything is in line 1, and nothing before its start.
   */
  lemma PositionsOutside(lines: seq<Text>, offset: int)
    ensures lines != [] && offset > |Join(lines)| ==>
              At(lines, offset) == Position(|lines|, offset - |Join(lines)| - 1)
    ensures lines != [] && offset <= 0 ==> At(lines, offset) == Position(1, offset)
    ensures lines == [] ==> At(lines, offset) == Position(1, if offset < 0 then 0 else offset)
  {
    if lines != [] && offset > |Join(lines)| {
      PositionPast(lines, offset, 1, 0, |lines|);
    }
  }

  /** Counting from another line and start only shifts the answer. */
  lemma {:induction false} PositionShifts(
      lines: seq<Text>, offset: nat, line: nat, lineStart: nat, total: nat, total': nat)
    requires lines != [] && offset <= |Join(lines)|
    ensures PositionFrom(lines, lineStart + offset, line + 1, lineStart, total)
         == var there := PositionFrom(lines, offset, 1, 0, total');
            Position(there.line + line, there.column)
    ensures 1 <= PositionFrom(lines, offset, 1, 0, total').line <= |lines|
    ensures 0 <= PositionFrom(lines, offset, 1, 0, total').column
              <= |LineAt(lines, PositionFrom(lines, offset, 1, 0, total').line)|
    decreases |lines|
  {
    var width := |lines[0]|;
    if offset > width {
      assert |lines| > 1;
      PositionShifts(lines[1..], offset - width - 1, line + 1, lineStart + width + 1, total, total');
      PositionShifts(lines[1..], offset - width - 1, 1, width + 1, total', total');
    }
  }

  /** Below the first line, positions are those of the other lines, one line on. */
  lemma AtBelow(lines: seq<Text>, offset: nat)
    requires |lines| > 1 && |lines[0]| < offset <= |Join(lines)|
    ensures var below := At(lines[1..], offset - |lines[0]| - 1);
            At(lines, offset) == Position(below.line + 1, below.column) &&
            1 <= below.line < |lines| && 0 <= below.column <= |LineAt(lines[1..], below.line)|
  {
    PositionShifts(lines[1..], offset - |lines[0]| - 1, 1, |lines[0]| + 1, |lines|, |lines| - 1);
  }

  lemma SliceLocBelow(lines: seq<Text>, start: Position, end: Position)
    requires |lines| > 1 && 1 <= start.line <= end.line < |lines|
    ensures SliceLoc(lines, Position(start.line + 1, start.column), Position(end.line + 1, end.column))
         == SliceLoc(lines[1..], start, end)
  {
    hide Join, Slice;
    assert LineAt(lines, start.line + 1) == LineAt(lines[1..], start.line);
    assert LineAt(lines, end.line + 1) == LineAt(lines[1..], end.line);
    if start.line < end.line {
      assert lines[start.line + 1..end.line] == lines[1..][start.line..end.line - 1];
    }
  }

  lemma JoinCons(head: Text, tail: seq<Text>)
    requires tail != []
    ensures Join([head] + tail) == head + [NEWLINE] + Join(tail)
  {
    assert ([head] + tail)[1..] == tail;
  }

  /**
   * A slice that leaves the first line is the rest of that line, a newline, and
   * the slice of the rest from its start.
   */
  lemma SliceLocAcross(lines: seq<Text>, column: nat, end: Position)
    requires |lines| > 1 && column <= |lines[0]| && 1 <= end.line < |lines|
    ensures SliceLoc(lines, Position(1, column), Position(end.line + 1, end.column))
         == lines[0][column..] + [NEWLINE] + SliceLoc(lines[1..], Position(1, 0), end)
  {
    var rest := lines[1..];
    var last := Slice(LineAt(rest, end.line), 0, end.column);
    assert LineAt(lines, end.line + 1) == LineAt(rest, end.line);
    assert lines[1..end.line] == rest[..end.line - 1];
    var tail := rest[..end.line - 1] + [last];
    assert [lines[0][column..]] + rest[..end.line - 1] + [last] == [lines[0][column..]] + tail;
    JoinCons(lines[0][column..], tail);
    assert Slice(lines[0], column, |lines[0]|) == lines[0][column..];
    assert SliceLoc(lines, Position(1, column), Position(end.line + 1, end.column))
        == Join([lines[0][column..]] + rest[..end.line - 1] + [last]);
    if end.line == 1 {
      assert tail == [last] && Join(tail) == last;
    } else {
      assert Slice(rest[0], 0, |rest[0]|) == rest[0];
      assert tail == [rest[0]] + rest[1..end.line - 1] + [last];
      assert SliceLoc(rest, Position(1, 0), end) == Join([rest[0]] + rest[1..end.line - 1] + [last]);
    }
  }

  /** The slice between the positions of two offsets is the slice between the offsets. */
  predicate SlicesAlike(lines: seq<Text>, s: nat, e: nat) {
    s <= e <= |Join(lines)| && SliceLoc(lines, At(lines, s), At(lines, e)) == Join(lines)[s..e]
  }

  /** The step of `SliceBetweenPositions` for two offsets below the first line. */
  lemma SliceBelow(lines: seq<Text>, s: nat, e: nat)
    requires |lines| > 1 && |lines[0]| < s <= e <= |Join(lines)|
    requires SlicesAlike(lines[1..], s - |lines[0]| - 1, e - |lines[0]| - 1)
    ensures SlicesAlike(lines, s, e)
  {
    hide SliceLoc, Join, PositionFrom, LineAt;
    var rest, width := lines[1..], |lines[0]|;
    JoinStep(lines);
    CutBelow(lines[0], Join(rest), s - width - 1, e - width - 1);
    AtBelow(lines, s);
    AtBelow(lines, e);
    PositionsGrow(rest, s - width - 1, e - width - 1);
    SliceLocBelow(lines, At(rest, s - width - 1), At(rest, e - width - 1));
  }

  /** The step for an offset on the first line and one below it. */
  lemma SliceAcross(lines: seq<Text>, s: nat, e: nat)
    requires |lines| > 1 && s <= |lines[0]| < e <= |Join(lines)|
    requires SlicesAlike(lines[1..], 0, e - |lines[0]| - 1)
    ensures SlicesAlike(lines, s, e)
  {
    var first, rest, m := lines[0], lines[1..], e - |lines[0]| - 1;
    OnFirstLine(lines, s);
    hide SliceLoc, Join, PositionFrom, LineAt, At;
    JoinStep(lines);
    AtStart(rest);
    AtBelow(lines, e);
    SliceLocAcross(lines, s, At(rest, m));
    FromTheStart(Join(rest), m);
    CutAcross(first, Join(rest), s, m);
  }

  lemma FromTheStart(text: Text, m: nat)
    requires m <= |text|
    ensures text[0..m] == text[..m]
  {
  }

  lemma OnFirstLine(lines: seq<Text>, s: nat)
    requires lines != [] && s <= |lines[0]|
    ensures At(lines, s) == Position(1, s)
  {
  }

  lemma {:induction false} SlicesAreAlike(lines: seq<Text>, s: nat, e: nat)
    requires lines != [] && s <= e <= |Join(lines)|
    ensures SlicesAlike(lines, s, e)
    decreases |lines|
  {
    hide SlicesAlike, Join;
    var width := |lines[0]|;
    if e <= width {
      WithinFirstLine(lines, s, e);
    } else {
      JoinLength(lines);
      if s > width {
        SlicesAreAlike(lines[1..], s - width - 1, e - width - 1);
        SliceBelow(lines, s, e);
      } else {
        SlicesAreAlike(lines[1..], 0, e - width - 1);
        SliceAcross(lines, s, e);
      }
    }
  }

  /** The text between two offsets is the slice between their positions. */
  lemma SliceBetweenPositions(lines: seq<Text>, s: nat, e: nat)
    requires lines != [] && s <= e <= |Join(lines)|
    ensures SliceLoc(lines, At(lines, s), At(lines, e)) == Join(lines)[s..e]
  {
    SlicesAreAlike(lines, s, e);
  }

  lemma JoinLength(lines: seq<Text>)
    requires lines != [] && |lines[0]| < |Join(lines)|
    ensures |lines| > 1 && |Join(lines)| == |lines[0]| + 1 + |Join(lines[1..])|
  {
  }

  lemma JoinStep(lines: seq<Text>)
    requires lines != []
    ensures |lines| == 1 ==> Join(lines) == lines[0]
    ensures |lines| > 1 ==> Join(lines) == lines[0] + [NEWLINE] + Join(lines[1..])
  {
  }

  lemma AtStart(lines: seq<Text>)
    ensures lines != [] ==> At(lines, 0) == Position(1, 0)
  {
  }

  lemma WithinFirstLine(lines: seq<Text>, s: nat, e: nat)
    requires lines != [] && s <= e <= |lines[0]|
    ensures SlicesAlike(lines, s, e)
  {
    if |lines| > 1 {
      assert Join(lines) == lines[0] + ([NEWLINE] + Join(lines[1..]));
    }
  }

  lemma CutAcross(first: Text, below: Text, s: nat, m: nat)
    requires s <= |first| && m <= |below|
    ensures (first + [NEWLINE] + below)[s..|first| + 1 + m] == first[s..] + [NEWLINE] + below[..m]
  {
  }

  lemma CutBelow(first: Text, below: Text, s: nat, m: nat)
    requires s <= m <= |below|
    ensures (first + [NEWLINE] + below)[|first| + 1 + s..|first| + 1 + m] == below[s..m]
  {
  }

  predicate Before(a: Position, b: Position) {
    a.line < b.line || (a.line == b.line && a.column < b.column)
  }

  /** A later offset has a later position, so an offset can be read off its position. */
  lemma {:induction false} PositionsGrow(lines: seq<Text>, s: nat, e: nat)
    requires lines != [] && s <= e <= |Join(lines)|
    ensures s < e ==> Before(At(lines, s), At(lines, e))
    ensures At(lines, s) == At(lines, e) <==> s == e
    ensures 1 <= At(lines, s).line <= At(lines, e).line <= |lines|
    decreases |lines|
  {
    var width := |lines[0]|;
    if e > width {
      AtBelow(lines, e);
      if s > width {
        AtBelow(lines, s);
        PositionsGrow(lines[1..], s - width - 1, e - width - 1);
      }
    }
  }

  /** The two theorems about `ctx.source` and `ctx.lines`. */
  lemma OffsetsAndPositions(source: Text, s: nat, e: nat)
    requires s <= e <= |source|
    ensures var lines := Split(source);
            SliceLoc(lines, At(lines, s), At(lines, e)) == source[s..e] &&
            (s < e ==> Before(At(lines, s), At(lines, e)))
  {
    JoinOfSplit(source);
    SliceBetweenPositions(Split(source), s, e);
    PositionsGrow(Split(source), s, e);
  }

  // ---- splices

  /** A replacement of `[start, end)`; `id` is the object's identity. */
  datatype Splice = Splice(id: nat, start: nat, end: nat, text: Text)

  function Insert(x: Splice, sorted: seq<Splice>): seq<Splice> {
    if sorted == [] || sorted[|sorted| - 1].start <= x.start then sorted + [x]
    else Insert(x, sorted[..|sorted| - 1]) + [sorted[|sorted| - 1]]
  }

  /** `[...splices].sort((a, b) => a.start - b.start)`, which is stable. */
  function Sorted(splices: seq<Splice>): seq<Splice> {
    if splices == [] then [] else Insert(splices[|splices| - 1], Sorted(splices[..|splices| - 1]))
  }

  predicate Ascending(splices: seq<Splice>) {
    forall i, j :: 0 <= i < j < |splices| ==> splices[i].start <= splices[j].start
  }

  lemma {:induction false} InsertAscends(x: Splice, sorted: seq<Splice>)
    requires Ascending(sorted)
    ensures Ascending(Insert(x, sorted)) && multiset(Insert(x, sorted)) == multiset(sorted) + multiset{x}
  {
    if sorted != [] && sorted[|sorted| - 1].start > x.start {
      var n := |sorted| - 1;
      var front, last := sorted[..n], sorted[n];
      InsertAscends(x, front);
      var inserted := Insert(x, front);
      assert sorted == front + [last] && Insert(x, sorted) == inserted + [last];
      hide Insert;
      AppendAscends(front, x, inserted, last);
    }
  }

  lemma AppendAscends(front: seq<Splice>, x: Splice, inserted: seq<Splice>, last: Splice)
    requires Ascending(inserted) && multiset(inserted) == multiset(front) + multiset{x} && x.start <= last.start
    requires forall i :: 0 <= i < |front| ==> front[i].start <= last.start
    ensures Ascending(inserted + [last])
  {
    forall i | 0 <= i < |inserted| ensures inserted[i].start <= last.start {
      assert inserted[i] in multiset(inserted);
      assert inserted[i] == x || inserted[i] in front;
    }
  }

  /** The sort orders the splices by start and loses none. */
  lemma {:induction false} SortedIsSorted(splices: seq<Splice>)
    ensures Ascending(Sorted(splices)) && multiset(Sorted(splices)) == multiset(splices)
  {
    hide *;
    if splices == [] {
      NothingSorted({});
      NoneAscend();
    } else {
      var n := |splices| - 1;
      SortedIsSorted(splices[..n]);
      InsertAscends(splices[n], Sorted(splices[..n]));
      assert splices == splices[..n] + [splices[n]];
      SortOneMore(splices[..n], splices[n]);
    }
  }

  lemma NoneAscend()
    ensures Ascending([])
  {
  }

  /** Where the authored text resumes after the first `k` splices. */
  function ResumeAt(sorted: seq<Splice>, start: nat, k: nat): nat
    requires k <= |sorted|
  {
    if k == 0 then start else sorted[k - 1].end
  }

  /** What the splices before `k`, and the authored text between them, come to. */
  function Printed(source: Text, sorted: seq<Splice>, start: nat, k: nat): Text
    requires k <= |sorted|
  {
    if k == 0 then []
    else Printed(source, sorted, start, k - 1) + Gap(source, sorted, start, k - 1) + sorted[k - 1].text
  }

  /** The authored text in front of splice `k`. */
  function Gap(source: Text, sorted: seq<Splice>, start: nat, k: nat): Text
    requires k < |sorted|
  {
    Slice(source, ResumeAt(sorted, start, k), sorted[k].start)
  }

  datatype Span = Span(start: nat, end: nat)

  function SpanOf(source: Text, sorted: seq<Splice>, start: nat, k: nat): Span
    requires k < |sorted|
  {
    var at := |Printed(source, sorted, start, k)| + |Gap(source, sorted, start, k)|;
    Span(at, at + |sorted[k].text|)
  }

  function Spliced(source: Text, sorted: seq<Splice>, start: nat, end: nat): Text {
    Printed(source, sorted, start, |sorted|) + Slice(source, ResumeAt(sorted, start, |sorted|), end)
  }

  /** The ranges recorded for the splices before `k`; a later entry for one splice replaces an earlier one. */
  function Recorded(source: Text, sorted: seq<Splice>, start: nat, k: nat): map<nat, Span>
    requires k <= |sorted|
  {
    if k == 0 then map[]
    else Recorded(source, sorted, start, k - 1)[sorted[k - 1].id := SpanOf(source, sorted, start, k - 1)]
  }

  lemma {:induction false} RecordedRange(source: Text, sorted: seq<Splice>, start: nat, i: nat, k: nat)
    requires i < k <= |sorted|
    requires forall j :: i < j < k ==> sorted[j].id != sorted[i].id
    ensures sorted[i].id in Recorded(source, sorted, start, k)
    ensures Recorded(source, sorted, start, k)[sorted[i].id] == SpanOf(source, sorted, start, i)
    decreases k
  {
    if i < k - 1 {
      RecordedRange(source, sorted, start, i, k - 1);
    }
  }

  method SpliceSource(source: Text, start: nat, end: nat, splices: seq<Splice>)
    returns (result: Text, printed: map<nat, Span>)
    ensures result == Spliced(source, Sorted(splices), start, end)
    ensures printed == Recorded(source, Sorted(splices), start, |Sorted(splices)|)
  {
    var sorted := Sorted(splices);
    result, printed := [], map[];
    var lastEnd := start;
    for i := 0 to |sorted|
      invariant lastEnd == ResumeAt(sorted, start, i)
      invariant result == Printed(source, sorted, start, i)
      invariant printed == Recorded(source, sorted, start, i)
    {
      var r := sorted[i];
      result := result + Slice(source, lastEnd, r.start);
      printed := printed[r.id := Span(|result|, |result| + |r.text|)];
      result := result + r.text;
      lastEnd := r.end;
    }
    result := result + Slice(source, lastEnd, end);
  }

  lemma {:induction false} PrintedGrows(source: Text, sorted: seq<Splice>, start: nat, k: nat, n: nat)
    requires k <= n <= |sorted|
    ensures Printed(source, sorted, start, k) <= Printed(source, sorted, start, n)
    decreases n
  {
    if k < n {
      PrintedGrows(source, sorted, start, k, n - 1);
    }
  }

  lemma PiecesOf(before: Text, gap: Text, text: Text, result: Text)
    requires before + gap + text <= result
    ensures var from, to := |before| + |gap|, |before| + |gap| + |text|;
            |before| <= from <= to <= |result| && result[from..to] == text && result[|before|..from] == gap
  {
    assert result == before + gap + text + result[|before| + |gap| + |text|..];
  }

  /** In order, each splice begins where the one before has ended, or later. */
  predicate Apart(sorted: seq<Splice>, start: nat, end: nat, length: nat) {
    start <= end <= length &&
    (forall i :: 0 <= i < |sorted| ==> start <= sorted[i].start <= sorted[i].end <= end) &&
    forall i, j :: 0 <= i < j < |sorted| ==> sorted[i].end <= sorted[j].start
  }

  /** Where the text in front of splice `k` begins in the result. */
  function GapStart(source: Text, sorted: seq<Splice>, start: nat, k: nat): nat
    requires k <= |sorted|
  {
    if k == 0 then 0 else SpanOf(source, sorted, start, k - 1).end
  }

  lemma GapStartIsPrinted(source: Text, sorted: seq<Splice>, start: nat, k: nat)
    requires k <= |sorted|
    ensures GapStart(source, sorted, start, k) == |Printed(source, sorted, start, k)|
  {
  }

  lemma GapIsAuthored(source: Text, sorted: seq<Splice>, start: nat, end: nat, k: nat)
    requires Apart(sorted, start, end, |source|) && k < |sorted|
    ensures ResumeAt(sorted, start, k) <= sorted[k].start <= |source|
    ensures Gap(source, sorted, start, k) == source[ResumeAt(sorted, start, k)..sorted[k].start]
  {
  }

  lemma SplicedHolds(source: Text, sorted: seq<Splice>, start: nat, end: nat, k: nat)
    requires k < |sorted|
    ensures Printed(source, sorted, start, k) + Gap(source, sorted, start, k) + sorted[k].text <=
      Spliced(source, sorted, start, end)
  {
    PrintedGrows(source, sorted, start, k + 1, |sorted|);
    hide Gap, Slice;
    assert Printed(source, sorted, start, k + 1) ==
             Printed(source, sorted, start, k) + Gap(source, sorted, start, k) + sorted[k].text;
  }

  /**
   * The recorded range of each splice selects exactly its text in the result,
   * and what stands in front of it, back to the range before, is the authored
   * text between the two splices.
   */
  lemma SplicedPieces(source: Text, sorted: seq<Splice>, start: nat, end: nat, k: nat)
    requires Apart(sorted, start, end, |source|) && k < |sorted|
    ensures var result, span := Spliced(source, sorted, start, end), SpanOf(source, sorted, start, k);
            GapStart(source, sorted, start, k) <= span.start <= span.end <= |result| &&
            result[span.start..span.end] == sorted[k].text &&
            ResumeAt(sorted, start, k) <= sorted[k].start <= |source| &&
            result[GapStart(source, sorted, start, k)..span.start] ==
              source[ResumeAt(sorted, start, k)..sorted[k].start]
  {
    GapStartIsPrinted(source, sorted, start, k);
    GapIsAuthored(source, sorted, start, end, k);
    SplicedHolds(source, sorted, start, end, k);
    hide Printed, Gap, GapStart, ResumeAt, Spliced, Apart;
    var result := Spliced(source, sorted, start, end);
    var before, gap := Printed(source, sorted, start, k), Gap(source, sorted, start, k);
    PiecesOf(before, gap, sorted[k].text, result);
  }

  /** After the last splice the authored text goes on to the end. */
  lemma SplicedEnd(source: Text, sorted: seq<Splice>, start: nat, end: nat)
    requires Apart(sorted, start, end, |source|)
    ensures var result, from := Spliced(source, sorted, start, end), GapStart(source, sorted, start, |sorted|);
            from <= |result| && ResumeAt(sorted, start, |sorted|) <= end <= |source| &&
            result[from..] == source[ResumeAt(sorted, start, |sorted|)..end]
  {
    GapStartIsPrinted(source, sorted, start, |sorted|);
  }

  /** The recorded ranges are in order and apart. */
  lemma SpansAreApart(source: Text, sorted: seq<Splice>, start: nat, j: nat, k: nat)
    requires j < k < |sorted|
    ensures SpanOf(source, sorted, start, j).end <= SpanOf(source, sorted, start, k).start
  {
    PrintedGrows(source, sorted, start, j + 1, k);
  }

  // ---- the nodes of an expression

  /** The triggers inside `[start, end)`, in the order given. */
  function Inside(triggers: seq<Splice>, start: nat, end: nat): seq<Splice> {
    if triggers == [] then []
    else
      var last := triggers[|triggers| - 1];
      Inside(triggers[..|triggers| - 1], start, end) + if last.start >= start && last.end <= end then [last] else []
  }

  // Which triggers these are, and in which order

  predicate IsInside(t: Splice, start: nat, end: nat) { start <= t.start && t.end <= end }

  /** Where each of `picked` stands among `triggers`: by start, and equal starts in the order given. */
  ghost predicate InOrder(picked: seq<Splice>, triggers: seq<Splice>, places: seq<nat>) {
    |places| == |picked| &&
    (forall i :: 0 <= i < |picked| ==> places[i] < |triggers| && picked[i] == triggers[places[i]]) &&
    forall i, j :: 0 <= i < j < |picked| ==>
      picked[i].start < picked[j].start || (picked[i].start == picked[j].start && places[i] < places[j])
  }

  /** `x` comes after every splice that does not start later. */
  lemma {:induction false} InsertedAt(x: Splice, sorted: seq<Splice>) returns (before: seq<Splice>, after: seq<Splice>)
    requires Ascending(sorted)
    ensures sorted == before + after && Insert(x, sorted) == before + [x] + after
    ensures (forall y <- before :: y.start <= x.start) && forall y <- after :: x.start < y.start
  {
    NoneBeyondLast(sorted);
    if sorted == [] || sorted[|sorted| - 1].start <= x.start {
      hide *;
      before, after := sorted, [];
      InsertLast(x, sorted);
    } else {
      var n := |sorted| - 1;
      var front, last := sorted[..n], sorted[n];
      assert sorted == front + [last];
      hide *;
      FrontAscends(front, last);
      before, after := InsertedAt(x, front);
      InsertBefore(x, front, last);
      OneMoreAfter(before, x, after, last);
      after := after + [last];
    }
  }

  lemma OneMoreAfter(before: seq<Splice>, x: Splice, after: seq<Splice>, last: Splice)
    ensures before + after + [last] == before + (after + [last])
    ensures before + [x] + after + [last] == before + [x] + (after + [last])
  {
  }

  lemma NoneBeyondLast(sorted: seq<Splice>)
    requires Ascending(sorted)
    ensures forall y <- sorted :: y.start <= sorted[|sorted| - 1].start
  {
  }

  lemma FrontAscends(front: seq<Splice>, last: Splice)
    requires Ascending(front + [last])
    ensures Ascending(front)
  {
    assert forall i :: 0 <= i < |front| ==> (front + [last])[i] == front[i];
  }

  lemma NothingPlaced()
    ensures InOrder(Sorted([]), [], [])
  {
  }

  /** The places of a list that is sorted one by one. */
  lemma {:induction false} SortedPlaces(splices: seq<Splice>) returns (places: seq<nat>)
    ensures InOrder(Sorted(splices), splices, places)
    ensures forall k :: 0 <= k < |splices| ==> k in places
  {
    hide *;
    if splices == [] {
      places := [];
      NothingPlaced();
    } else {
      var n := |splices| - 1;
      var front, last := splices[..n], splices[n];
      var before := SortedPlaces(front);
      SortedIsSorted(front);
      var earlier, later := InsertedAt(last, Sorted(front));
      var p := |earlier|;
      assert Sorted(front)[..p] == earlier && Sorted(front)[p..] == later;
      AsManyPlaces(Sorted(front), front, before);
      places := before[..p] + [n] + before[p..];
      assert splices == front + [last];
      SortOneMore(front, last);
      PlacedOneMore(Sorted(front), splices, before, p);
    }
  }

  lemma AsManyPlaces(sorted: seq<Splice>, splices: seq<Splice>, places: seq<nat>)
    requires InOrder(sorted, splices, places)
    ensures |places| == |sorted|
  {
  }

  /** What stands at `i` of a list with one more element at `p`. */
  lemma WithOneAt<T>(list: seq<T>, p: nat, x: T, i: nat)
    requires p <= |list| && i <= |list|
    ensures (list[..p] + [x] + list[p..])[i] == if i < p then list[i] else if i == p then x else list[i - 1]
  {
  }

  lemma PlacedOneMore(sorted: seq<Splice>, splices: seq<Splice>, before: seq<nat>, p: nat)
    requires splices != [] && p <= |sorted| && InOrder(sorted, splices[..|splices| - 1], before)
    requires forall k :: 0 <= k < |splices| - 1 ==> k in before
    requires forall y <- sorted[..p] :: y.start <= splices[|splices| - 1].start
    requires forall y <- sorted[p..] :: splices[|splices| - 1].start < y.start
    ensures var n := |splices| - 1;
            InOrder(sorted[..p] + [splices[n]] + sorted[p..], splices, before[..p] + [n] + before[p..]) &&
            forall k :: 0 <= k < |splices| ==> k in before[..p] + [n] + before[p..]
  {
    var n := |splices| - 1;
    var places, more := before[..p] + [n] + before[p..], sorted[..p] + [splices[n]] + sorted[p..];
    AllPlaced(before, n, p);
    assert forall i :: 0 <= i < p ==> sorted[i] in sorted[..p];
    assert forall i :: p <= i < |sorted| ==> sorted[i] == sorted[p..][i - p];
    forall i | 0 <= i < |more| ensures places[i] < |splices| && more[i] == splices[places[i]] {
      WithOneAt(sorted, p, splices[n], i);
      WithOneAt(before, p, n, i);
    }
    forall i, j | 0 <= i < j < |more|
      ensures more[i].start < more[j].start || (more[i].start == more[j].start && places[i] < places[j])
    {
      WithOneAt(sorted, p, splices[n], i);
      WithOneAt(sorted, p, splices[n], j);
      WithOneAt(before, p, n, i);
      WithOneAt(before, p, n, j);
      hide Ascending;
    }
  }

  lemma AllPlaced(before: seq<nat>, n: nat, p: nat)
    requires p <= |before| && forall k :: 0 <= k < n ==> k in before
    ensures forall k :: 0 <= k <= n ==> k in before[..p] + [n] + before[p..]
  {
    var places := before[..p] + [n] + before[p..];
    forall k | 0 <= k <= n ensures k in places {
      if k == n {
        assert places[p] == k;
      } else {
        assert k in before;
        var i :| 0 <= i < |before| && before[i] == k;
        WithOneAt(before, p, n, if i < p then i else i + 1);
      }
    }
  }

  lemma InsideOneMore(triggers: seq<Splice>, start: nat, end: nat)
    requires triggers != []
    ensures var n := |triggers| - 1;
            Inside(triggers, start, end) ==
              Inside(triggers[..n], start, end) + if IsInside(triggers[n], start, end) then [triggers[n]] else []
  {
  }

  lemma NothingInside(start: nat, end: nat)
    ensures Inside([], start, end) == []
  {
  }

  lemma {:induction false} InsidePlaces(triggers: seq<Splice>, start: nat, end: nat) returns (places: seq<nat>)
    ensures |places| == |Inside(triggers, start, end)|
    ensures forall i :: 0 <= i < |places| ==>
      places[i] < |triggers| && Inside(triggers, start, end)[i] == triggers[places[i]] &&
      IsInside(triggers[places[i]], start, end)
    ensures forall i, j :: 0 <= i < j < |places| ==> places[i] < places[j]
    ensures forall k :: 0 <= k < |triggers| && IsInside(triggers[k], start, end) ==> k in places
  {
    hide *;
    places := [];
    NothingInside(start, end);
    if triggers != [] {
      var n := |triggers| - 1;
      InsideOneMore(triggers, start, end);
      places := InsidePlaces(triggers[..n], start, end);
      if IsInside(triggers[n], start, end) {
        places := places + [n];
      }
    }
  }

  /**
   * The triggers of an expression are those inside it, each as often as it is
   * there, by where they start, and equal starts in the order given.
   */
  lemma TriggersAreThoseInside(triggers: seq<Splice>, start: nat, end: nat) returns (places: seq<nat>)
    ensures InOrder(TriggersIn(triggers, start, end), triggers, places)
    ensures forall k :: 0 <= k < |triggers| ==> (k in places <==> IsInside(triggers[k], start, end))
  {
    var inside := Inside(triggers, start, end);
    var within := InsidePlaces(triggers, start, end);
    var sorted := SortedPlaces(inside);
    assert TriggersIn(triggers, start, end) == Sorted(inside);
    hide *;
    PlacesWithin(Sorted(inside), inside, sorted);
    places := Composed(within, sorted);
    ComposedInOrder(Sorted(inside), inside, triggers, within, sorted);
    ComposedCovers(within, sorted);
  }

  /** The places among all of what has places among those picked. */
  function Composed(within: seq<nat>, sorted: seq<nat>): (places: seq<nat>)
    requires forall i :: 0 <= i < |sorted| ==> sorted[i] < |within|
    ensures |places| == |sorted| && forall i :: 0 <= i < |sorted| ==> places[i] == within[sorted[i]]
  {
    seq(|sorted|, i requires 0 <= i < |sorted| => within[sorted[i]])
  }

  lemma PlacesWithin(picked: seq<Splice>, inside: seq<Splice>, sorted: seq<nat>)
    requires InOrder(picked, inside, sorted)
    ensures |sorted| == |picked| && forall i :: 0 <= i < |sorted| ==> sorted[i] < |inside|
  {
  }

  lemma ComposedInOrder(
      picked: seq<Splice>, inside: seq<Splice>, triggers: seq<Splice>, within: seq<nat>, sorted: seq<nat>)
    requires InOrder(picked, inside, sorted) && |within| == |inside|
    requires forall i :: 0 <= i < |sorted| ==> sorted[i] < |within|
    requires forall i :: 0 <= i < |within| ==> within[i] < |triggers| && inside[i] == triggers[within[i]]
    requires forall i, j :: 0 <= i < j < |within| ==> within[i] < within[j]
    ensures InOrder(picked, triggers, Composed(within, sorted))
  {
    hide Composed;
  }

  lemma ComposedCovers(within: seq<nat>, sorted: seq<nat>)
    requires forall i :: 0 <= i < |sorted| ==> sorted[i] < |within|
    requires forall k :: 0 <= k < |within| ==> k in sorted
    ensures forall k :: k in Composed(within, sorted) <==> k in within
  {
    hide Composed;
    var places := Composed(within, sorted);
    forall k ensures k in places <==> k in within {
      if k in within {
        var w :| 0 <= w < |within| && within[w] == k;
        assert w in sorted;
        var i :| 0 <= i < |sorted| && sorted[i] == w;
        assert places[i] == k;
      }
    }
  }

  /** `triggerSplicesIn` */
  function TriggersIn(triggers: seq<Splice>, start: nat, end: nat): seq<Splice> { Sorted(Inside(triggers, start, end)) }

  /** Splices in order stay as they are when they are sorted again. */
  lemma {:induction false} SortedTwice(sorted: seq<Splice>)
    requires Ascending(sorted)
    ensures Sorted(sorted) == sorted
  {
    if sorted != [] {
      var n := |sorted| - 1;
      SortedTwice(sorted[..n]);
      assert sorted == sorted[..n] + [sorted[n]];
      assert n > 0 ==> sorted[..n][n - 1] == sorted[n - 1];
    }
  }

  /** The splices that carry a node, in order. */
  function WithNodes(splices: seq<Splice>, carries: set<nat>): seq<Splice> {
    if splices == [] then []
    else
      var last := splices[|splices| - 1];
      WithNodes(splices[..|splices| - 1], carries) + if last.id in carries then [last] else []
  }

  /** How often a node is listed. */
  function Listed(nodes: seq<ExprNode>, id: nat): nat {
    if nodes == [] then 0 else Listed(nodes[..|nodes| - 1], id) + if nodes[|nodes| - 1].id == id then 1 else 0
  }

  predicate HasId(splices: seq<Splice>, id: nat) { exists s <- splices :: s.id == id }

  /** One of the triggers inside the expression has that identity. */
  predicate HasInside(triggers: seq<Splice>, start: nat, end: nat, id: nat) {
    exists t <- triggers :: IsInside(t, start, end) && t.id == id
  }

  lemma {:induction false} ListedOnce(splices: seq<Splice>, carries: set<nat>, printed: map<nat, Span>, id: nat)
    requires DistinctSplices(splices)
    ensures Listed(NodesOf(splices, carries, printed), id) ==
      if id in carries && HasId(splices, id) then 1 else 0
  {
    if splices != [] {
      var n := |splices| - 1;
      var front, nodes := splices[..n], NodesOf(splices[..n], carries, printed);
      ListedOnce(front, carries, printed, id);
      assert splices == front + [splices[n]];
      assert forall s :: s in splices <==> s in front || s == splices[n];
      if splices[n].id in carries {
        var last := NodesOf(splices, carries, printed)[|nodes|];
        assert NodesOf(splices, carries, printed) == nodes + [last] && (nodes + [last])[..|nodes|] == nodes;
      } else {
        assert NodesOf(splices, carries, printed) == nodes;
      }
    }
  }

  lemma TriggersAreDistinct(triggers: seq<Splice>, start: nat, end: nat)
    requires DistinctSplices(triggers)
    ensures DistinctSplices(TriggersIn(triggers, start, end))
    ensures forall id :: HasId(TriggersIn(triggers, start, end), id) <==> HasInside(triggers, start, end, id)
  {
    var sorted := TriggersIn(triggers, start, end);
    var places := TriggersAreThoseInside(triggers, start, end);
    hide TriggersIn;
    forall i, j | 0 <= i < j < |sorted| ensures sorted[i].id != sorted[j].id {
      assert places[i] != places[j];
    }
    forall id ensures HasId(sorted, id) <==> HasInside(triggers, start, end, id) {
      if s :| s in sorted && s.id == id {
        var i :| 0 <= i < |sorted| && sorted[i] == s;
        assert triggers[places[i]] in triggers && places[i] in places;
      }
      if t :| t in triggers && IsInside(t, start, end) && t.id == id {
        var k :| 0 <= k < |triggers| && triggers[k] == t;
        assert k in places;
        var i :| 0 <= i < |places| && places[i] == k;
        assert sorted[i] in sorted;
      }
    }
  }

  /** A splice's node with the range its text is printed at, if it has one. */
  datatype ExprNode = ExprNode(id: nat, code: Option<Span>)

  /**
   * What the registered bindings make of an expression: nothing when there are
   * none, the rewrite of an expression that is one name, a splice for each
   * reference, or the generated text of a tree with a reference that has no
   * position.
   */
  datatype References = Unbound | Alone(rewritten: Option<Text>) | Positioned(rewrites: seq<Splice>) |
                        Unpositioned(generated: Text)

  /** The splices that are printed: the triggers and the references together. */
  function Merged(triggers: seq<Splice>, start: nat, end: nat, references: References): seq<Splice> {
    Sorted(TriggersIn(triggers, start, end) + if references.Positioned? then references.rewrites else [])
  }

  predicate Prints(references: References) { references.Unbound? || references.Positioned? }

  ghost predicate DistinctSplices(splices: seq<Splice>) {
    forall i, j :: 0 <= i < j < |splices| ==> splices[i].id != splices[j].id
  }

  /** No splice stands in the list twice, and a reference carries no node. */
  ghost predicate Identified(triggers: seq<Splice>, start: nat, end: nat, references: References, carries: set<nat>) {
    DistinctSplices(Merged(triggers, start, end, references)) &&
    (references.Positioned? ==> forall r <- references.rewrites :: r.id !in carries)
  }

  /** The nodes of the splices that carry one, each with the range recorded for it. */
  function NodesOf(splices: seq<Splice>, carries: set<nat>, printed: map<nat, Span>): seq<ExprNode> {
    if splices == [] then []
    else
      var last := splices[|splices| - 1];
      var at := if last.id in printed then Some(printed[last.id]) else None;
      NodesOf(splices[..|splices| - 1], carries, printed) + if last.id in carries then [ExprNode(last.id, at)] else []
  }

  /** Node by node: each range selects its splice's text in the code, and the ranges are in order and apart. */
  ghost predicate NodesSelect(code: Text, nodes: seq<ExprNode>, carrying: seq<Splice>) {
    |nodes| == |carrying| &&
    (forall i :: 0 <= i < |nodes| ==> nodes[i].id == carrying[i].id && SelectsText(code, nodes[i], carrying[i].text)) &&
    forall i, j :: 0 <= i < j < |nodes| ==> nodes[i].code.value.end <= nodes[j].code.value.start
  }

  ghost predicate SelectsText(code: Text, node: ExprNode, text: Text) {
    node.code.Some? && node.code.value.start <= node.code.value.end <= |code| &&
    code[node.code.value.start..node.code.value.end] == text
  }

  // What carries a node, in the merged order

  lemma {:induction false} WithNodesWithin(splices: seq<Splice>, carries: set<nat>)
    ensures forall w <- WithNodes(splices, carries) :: w in splices && w.id in carries
  {
    if splices != [] {
      var n := |splices| - 1;
      WithNodesWithin(splices[..n], carries);
      assert forall w <- splices[..n] :: w in splices;
    }
  }

  lemma WithOneMore(splices: seq<Splice>, last: Splice, carries: set<nat>)
    ensures WithNodes(splices + [last], carries) ==
      if last.id in carries then WithNodes(splices, carries) + [last] else WithNodes(splices, carries)
  {
    assert (splices + [last])[..|splices|] == splices;
  }

  lemma InsertLast(x: Splice, sorted: seq<Splice>)
    requires forall y <- sorted :: y.start <= x.start
    ensures Insert(x, sorted) == sorted + [x]
  {
    if sorted != [] {
      assert sorted[|sorted| - 1] in sorted;
    }
  }

  lemma InsertBefore(x: Splice, sorted: seq<Splice>, last: Splice)
    requires x.start < last.start
    ensures Insert(x, sorted + [last]) == Insert(x, sorted) + [last]
  {
    assert (sorted + [last])[..|sorted|] == sorted;
  }

  lemma {:induction false} WithNodesInserted(x: Splice, sorted: seq<Splice>, carries: set<nat>)
    requires Ascending(sorted)
    ensures WithNodes(Insert(x, sorted), carries) ==
      if x.id in carries then Insert(x, WithNodes(sorted, carries)) else WithNodes(sorted, carries)
  {
    hide WithNodes, Insert;
    var n := |sorted| - 1;
    if forall y <- sorted :: y.start <= x.start {
      InsertLast(x, sorted);
      WithOneMore(sorted, x, carries);
      WithNodesWithin(sorted, carries);
      InsertLast(x, WithNodes(sorted, carries));
    } else {
      var front, last := sorted[..n], sorted[n];
      assert sorted == front + [last] && x.start < last.start;
      WithNodesInserted(x, front, carries);
      InsertBefore(x, front, last);
      WithOneMore(Insert(x, front), last, carries);
      WithOneMore(front, last, carries);
      InsertBefore(x, WithNodes(front, carries), last);
    }
  }

  lemma SortOneMore(splices: seq<Splice>, last: Splice)
    ensures Sorted(splices + [last]) == Insert(last, Sorted(splices))
  {
    assert (splices + [last])[..|splices|] == splices;
  }

  lemma SortOneMoreKept(front: seq<Splice>, last: Splice, carries: set<nat>)
    requires WithNodes(Sorted(front), carries) == Sorted(WithNodes(front, carries))
    ensures WithNodes(Sorted(front + [last]), carries) == Sorted(WithNodes(front + [last], carries))
  {
    hide *;
    SortedIsSorted(front);
    SortOneMore(front, last);
    WithNodesInserted(last, Sorted(front), carries);
    WithOneMore(front, last, carries);
    SortOneMore(WithNodes(front, carries), last);
  }

  lemma NothingSorted(carries: set<nat>)
    ensures WithNodes([], carries) == [] && Sorted([]) == []
  {
  }

  /** The sort keeps the order of equal starts: the nodes can be picked before it or after it. */
  lemma {:induction false} WithNodesSorted(splices: seq<Splice>, carries: set<nat>)
    ensures WithNodes(Sorted(splices), carries) == Sorted(WithNodes(splices, carries))
  {
    hide *;
    if splices == [] {
      NothingSorted(carries);
    } else {
      var n := |splices| - 1;
      WithNodesSorted(splices[..n], carries);
      SortOneMoreKept(splices[..n], splices[n], carries);
      assert splices == splices[..n] + [splices[n]];
    }
  }

  lemma {:induction false} WithNodesAppended(splices: seq<Splice>, more: seq<Splice>, carries: set<nat>)
    requires forall r <- more :: r.id !in carries
    ensures WithNodes(splices + more, carries) == WithNodes(splices, carries)
  {
    if more == [] {
      assert splices + more == splices;
    } else {
      var n := |more| - 1;
      WithNodesAppended(splices, more[..n], carries);
      assert (splices + more)[..|splices| + n] == splices + more[..n];
    }
  }

  /** Among the merged splices the triggers' nodes stand as they do among the triggers. */
  lemma WithNodesMerged(
      triggers: seq<Splice>, start: nat, end: nat, references: References, carries: set<nat>)
    requires Identified(triggers, start, end, references, carries)
    ensures WithNodes(Merged(triggers, start, end, references), carries) ==
      WithNodes(TriggersIn(triggers, start, end), carries)
  {
    var splices := TriggersIn(triggers, start, end);
    var more := if references.Positioned? then references.rewrites else [];
    WithNodesSorted(splices + more, carries);
    WithNodesAppended(splices, more, carries);
    WithNodesSorted(splices, carries);
    TriggersStaySorted(triggers, start, end);
  }

  lemma TriggersStaySorted(triggers: seq<Splice>, start: nat, end: nat)
    ensures Sorted(TriggersIn(triggers, start, end)) == TriggersIn(triggers, start, end)
  {
    SortedIsSorted(Inside(triggers, start, end));
    SortedTwice(TriggersIn(triggers, start, end));
  }

  /** Where the splices that carry a node stand. */
  function Places(sorted: seq<Splice>, carries: set<nat>): (places: seq<nat>)
    ensures |places| == |WithNodes(sorted, carries)|
    ensures forall i :: 0 <= i < |places| ==>
      places[i] < |sorted| && WithNodes(sorted, carries)[i] == sorted[places[i]]
    ensures forall i, j :: 0 <= i < j < |places| ==> places[i] < places[j]
  {
    if sorted == [] then []
    else
      var n := |sorted| - 1;
      Places(sorted[..n], carries) + if sorted[n].id in carries then [n] else []
  }

  lemma {:induction false} NodeOf(splices: seq<Splice>, carries: set<nat>, printed: map<nat, Span>, i: nat)
    requires i < |WithNodes(splices, carries)| && WithNodes(splices, carries)[i].id in printed
    ensures |NodesOf(splices, carries, printed)| == |WithNodes(splices, carries)|
    ensures NodesOf(splices, carries, printed)[i] ==
      var id := WithNodes(splices, carries)[i].id;
      ExprNode(id, Some(printed[id]))
  {
    NodesCounted(splices, carries, printed);
    var n := |splices| - 1;
    NodesCounted(splices[..n], carries, printed);
    if i < |WithNodes(splices[..n], carries)| {
      NodeOf(splices[..n], carries, printed, i);
    }
  }

  lemma {:induction false} NodesCounted(splices: seq<Splice>, carries: set<nat>, printed: map<nat, Span>)
    ensures |NodesOf(splices, carries, printed)| == |WithNodes(splices, carries)|
  {
    if splices != [] {
      NodesCounted(splices[..|splices| - 1], carries, printed);
    }
  }

  lemma RangeRecorded(source: Text, sorted: seq<Splice>, start: nat, k: nat)
    requires DistinctSplices(sorted) && k < |sorted|
    ensures sorted[k].id in Recorded(source, sorted, start, |sorted|)
    ensures Recorded(source, sorted, start, |sorted|)[sorted[k].id] == SpanOf(source, sorted, start, k)
  {
    RecordedRange(source, sorted, start, k, |sorted|);
  }

  /** The nodes of some of the splices that are printed select their texts, in order and apart. */
  lemma NodesInCode(
      source: Text, sorted: seq<Splice>, start: nat, end: nat, splices: seq<Splice>, carries: set<nat>)
    requires Apart(sorted, start, end, |source|) && DistinctSplices(sorted)
    requires WithNodes(sorted, carries) == WithNodes(splices, carries)
    ensures NodesSelect(
      Spliced(source, sorted, start, end),
      NodesOf(splices, carries, Recorded(source, sorted, start, |sorted|)), WithNodes(splices, carries))
  {
    hide *;
    var places, printed := Places(sorted, carries), Recorded(source, sorted, start, |sorted|);
    var nodes := NodesOf(splices, carries, printed);
    NodesCounted(splices, carries, printed);
    forall i | 0 <= i < |nodes|
      ensures nodes[i] == ExprNode(sorted[places[i]].id, Some(SpanOf(source, sorted, start, places[i])))
    {
      RangeRecorded(source, sorted, start, places[i]);
      NodeOf(splices, carries, printed, i);
    }
    AtPlaces(source, sorted, start, end, nodes, WithNodes(splices, carries), places);
  }

  lemma AtPlaces(
      source: Text, sorted: seq<Splice>, start: nat, end: nat, nodes: seq<ExprNode>, carrying: seq<Splice>,
      places: seq<nat>)
    requires Apart(sorted, start, end, |source|) && |nodes| == |carrying| == |places|
    requires forall i :: 0 <= i < |places| ==> places[i] < |sorted| && carrying[i] == sorted[places[i]]
    requires forall i, j :: 0 <= i < j < |places| ==> places[i] < places[j]
    requires forall i :: 0 <= i < |nodes| ==>
      nodes[i] == ExprNode(sorted[places[i]].id, Some(SpanOf(source, sorted, start, places[i])))
    ensures NodesSelect(Spliced(source, sorted, start, end), nodes, carrying)
  {
    hide Spliced, SpanOf, Apart, GapStart, ResumeAt;
    forall i | 0 <= i < |nodes|
      ensures nodes[i].id == carrying[i].id &&
        SelectsText(Spliced(source, sorted, start, end), nodes[i], carrying[i].text)
    {
      SplicedPieces(source, sorted, start, end, places[i]);
    }
    forall i, j | 0 <= i < j < |nodes| ensures nodes[i].code.value.end <= nodes[j].code.value.start {
      SpansAreApart(source, sorted, start, places[i], places[j]);
    }
  }

  lemma NothingSpliced(source: Text, start: nat, end: nat)
    ensures Spliced(source, [], start, end) == Slice(source, start, end) && Recorded(source, [], start, 0) == map[]
  {
  }

  lemma MergedTriggers(triggers: seq<Splice>, start: nat, end: nat, references: References)
    requires !references.Positioned?
    ensures Merged(triggers, start, end, references) == TriggersIn(triggers, start, end)
    ensures Sorted(TriggersIn(triggers, start, end)) == TriggersIn(triggers, start, end)
  {
    TriggersStaySorted(triggers, start, end);
    assert TriggersIn(triggers, start, end) + [] == TriggersIn(triggers, start, end);
  }

  method ListNodes(splices: seq<Splice>, carries: set<nat>, printed: map<nat, Span>) returns (nodes: seq<ExprNode>)
    ensures nodes == NodesOf(splices, carries, printed)
  {
    nodes := [];
    for k := 0 to |splices|
      invariant nodes == NodesOf(splices[..k], carries, printed)
    {
      assert splices[..k + 1][..k] == splices[..k];
      if splices[k].id in carries {
        var at := if splices[k].id in printed then Some(printed[splices[k].id]) else None;
        nodes := nodes + [ExprNode(splices[k].id, at)];
      }
    }
    assert splices[..|splices|] == splices;
  }

  /**
   * `exprWithNodes` of a positioned expression. What is spliced is the triggers
   * and the references in one order, and each trigger's node has the range of
   * its text. An expression that is one name, and one that is generated, are
   * printed without the triggers, and their nodes have no ranges.
   */
  method ExprWithNodes(
      source: Text, start: nat, end: nat, triggers: seq<Splice>, carries: set<nat>, references: References)
    returns (code: Text, nodes: seq<ExprNode>)
    requires DistinctSplices(triggers) && Identified(triggers, start, end, references, carries)
    ensures forall id ::
      Listed(nodes, id) == if id in carries && HasInside(triggers, start, end, id) then 1 else 0
    ensures Prints(references) ==> code == Spliced(source, Merged(triggers, start, end, references), start, end)
    ensures references.Alone? ==>
      code == (if references.rewritten.Some? then references.rewritten.value else Slice(source, start, end))
    ensures references.Unpositioned? ==> code == references.generated
    ensures Prints(references) && Apart(Merged(triggers, start, end, references), start, end, |source|) ==>
      NodesSelect(code, nodes, WithNodes(TriggersIn(triggers, start, end), carries))
    ensures !Prints(references) ==> nodes == NodesOf(TriggersIn(triggers, start, end), carries, map[])
  {
    hide Sorted, Spliced, Recorded, Apart, NodesSelect, WithNodes, NodesOf, TriggersIn, Slice, DistinctSplices, HasId,
      HasInside, Listed;
    var splices := TriggersIn(triggers, start, end);
    NothingSpliced(source, start, end);
    var printed := map[];
    match references {
      case Unbound =>
        MergedTriggers(triggers, start, end, references);
        if splices == [] {
          code := Slice(source, start, end);
        } else {
          code, printed := SpliceSource(source, start, end, splices);
        }
      case Alone(rewritten) =>
        code := if rewritten.Some? then rewritten.value else Slice(source, start, end);
      case Unpositioned(generated) =>
        code := generated;
      case Positioned(rewrites) =>
        if splices + rewrites == [] {
          SortedTwice([]);
          code := Slice(source, start, end);
        } else {
          code, printed := SpliceSource(source, start, end, splices + rewrites);
        }
    }
    nodes := ListNodes(splices, carries, printed);
    TriggersAreDistinct(triggers, start, end);
    forall id
      ensures Listed(nodes, id) == if id in carries && HasInside(triggers, start, end, id) then 1 else 0
    {
      ListedOnce(splices, carries, printed, id);
    }
    if Prints(references) && Apart(Merged(triggers, start, end, references), start, end, |source|) {
      WithNodesMerged(triggers, start, end, references, carries);
      NodesInCode(source, Merged(triggers, start, end, references), start, end, splices, carries);
    }
  }
}
