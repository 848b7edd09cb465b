/**
 * The markup of the home page's example (apps/docs/scripts/home-example.ts):
 * what a reader of the emitted spans sees around every character.
 */
module HomeHighlight {
  import opened Wrappers
  import opened CoreText
  import opened HomeExample
  import opened Utf16

  // ---- escaping

  const AMP: nat := 0x26
  const LT: nat := 0x3C
  const GT: nat := 0x3E
  const QUOT: nat := 0x22

  /** `&amp;`, `&lt;`, `&gt;` and `&quot;`. */
  const AMP_REF: Text := [AMP, 0x61, 0x6D, 0x70, 0x3B]
  const LT_REF: Text := [AMP, 0x6C, 0x74, 0x3B]
  const GT_REF: Text := [AMP, 0x67, 0x74, 0x3B]
  const QUOT_REF: Text := [AMP, 0x71, 0x75, 0x6F, 0x74, 0x3B]

  function ReplaceAll(text: Text, c: nat, by': Text): Text {
    if text == [] then [] else (if text[0] == c then by' else [text[0]]) + ReplaceAll(text[1..], c, by')
  }

  function EscapeHtml(text: Text): Text {
    ReplaceAll(ReplaceAll(ReplaceAll(ReplaceAll(text, AMP, AMP_REF), LT, LT_REF), GT, GT_REF), QUOT, QUOT_REF)
  }

  /** What a browser reads a character reference as. */
  function Unescape(html: Text): Text
    decreases |html|
  {
    if html == [] then []
    else if AMP_REF <= html then [AMP] + Unescape(html[5..])
    else if LT_REF <= html then [LT] + Unescape(html[4..])
    else if GT_REF <= html then [GT] + Unescape(html[4..])
    else if QUOT_REF <= html then [QUOT] + Unescape(html[6..])
    else [html[0]] + Unescape(html[1..])
  }

  function Entity(c: nat): Text {
    if c == AMP then AMP_REF else if c == LT then LT_REF else if c == GT then GT_REF else if c == QUOT then QUOT_REF
      else [c]
  }

  function Escaped(text: Text): Text {
    if text == [] then [] else Entity(text[0]) + Escaped(text[1..])
  }

  lemma {:induction false} ReplaceSum(a: Text, b: Text, c: nat, by': Text)
    ensures ReplaceAll(a + b, c, by') == ReplaceAll(a, c, by') + ReplaceAll(b, c, by')
  {
    if a == [] {
      assert a + b == b;
    } else {
      assert (a + b)[1..] == a[1..] + b;
      ReplaceSum(a[1..], b, c, by');
    }
  }

  lemma {:induction false} ReplaceNothing(text: Text, c: nat, by': Text)
    requires c !in text
    ensures ReplaceAll(text, c, by') == text
  {
    if text != [] {
      ReplaceNothing(text[1..], c, by');
      assert text == [text[0]] + text[1..];
    }
  }

  lemma ReplaceOne(c: nat, by': Text)
    ensures ReplaceAll([c], c, by') == by'
  {
  }

  lemma EscapeOne(c: nat)
    ensures EscapeHtml([c]) == Entity(c)
  {
    hide ReplaceAll;
    if c == AMP {
      ReplaceOne(c, AMP_REF);
      ReplaceNothing(AMP_REF, LT, LT_REF);
      ReplaceNothing(AMP_REF, GT, GT_REF);
      ReplaceNothing(AMP_REF, QUOT, QUOT_REF);
    } else {
      ReplaceNothing([c], AMP, AMP_REF);
      if c == LT {
        ReplaceOne(c, LT_REF);
        ReplaceNothing(LT_REF, GT, GT_REF);
        ReplaceNothing(LT_REF, QUOT, QUOT_REF);
      } else {
        ReplaceNothing([c], LT, LT_REF);
        if c == GT {
          ReplaceOne(c, GT_REF);
          ReplaceNothing(GT_REF, QUOT, QUOT_REF);
        } else {
          ReplaceNothing([c], GT, GT_REF);
          if c == QUOT { ReplaceOne(c, QUOT_REF); } else { ReplaceNothing([c], QUOT, QUOT_REF); }
        }
      }
    }
  }

  lemma EscapeSum(a: Text, b: Text)
    ensures EscapeHtml(a + b) == EscapeHtml(a) + EscapeHtml(b)
  {
    hide ReplaceAll;
    ReplaceSum(a, b, AMP, AMP_REF);
    var a1, b1 := ReplaceAll(a, AMP, AMP_REF), ReplaceAll(b, AMP, AMP_REF);
    ReplaceSum(a1, b1, LT, LT_REF);
    var a2, b2 := ReplaceAll(a1, LT, LT_REF), ReplaceAll(b1, LT, LT_REF);
    ReplaceSum(a2, b2, GT, GT_REF);
    ReplaceSum(ReplaceAll(a2, GT, GT_REF), ReplaceAll(b2, GT, GT_REF), QUOT, QUOT_REF);
  }

  /** The four passes escape character by character: no pass touches what an earlier one wrote. */
  lemma {:induction false} EscapesByCharacter(text: Text)
    ensures EscapeHtml(text) == Escaped(text)
  {
    hide EscapeHtml, Entity;
    if text == [] {
      EscapeSum([], []);
      assert [] + [] == text;
    } else {
      EscapesByCharacter(text[1..]);
      EscapeOne(text[0]);
      EscapeSum([text[0]], text[1..]);
      assert [text[0]] + text[1..] == text;
    }
  }

  lemma UnescapeEntity(c: nat, rest: Text)
    ensures Unescape(Entity(c) + rest) == [c] + Unescape(rest)
  {
    var html := Entity(c) + rest;
    assert html[|Entity(c)|..] == rest;
    if |Entity(c)| == 1 {
      assert html[0] == c && c != AMP;
    }
  }

  /** Escaped text reads as the text. */
  lemma {:induction false} EscapeRoundTrip(text: Text)
    ensures Unescape(EscapeHtml(text)) == text
  {
    hide Unescape, EscapeHtml;
    EscapesByCharacter(text);
    if text == [] {
      UnescapeNothing();
    } else {
      EscapeRoundTrip(text[1..]);
      EscapesByCharacter(text[1..]);
      UnescapeEntity(text[0], Escaped(text[1..]));
    }
  }

  lemma UnescapeNothing()
    ensures Unescape([]) == []
  {
  }

  // ---- markup

  datatype Tag = LineTag(index: nat) | MarkTag(marker: nat) | ClassTag(name: string)

  datatype Piece = Open(tag: Tag) | Close | Chunk(html: Text)

  /** A character as the page shows it, with the tags open around it, outermost first. */
  datatype Shown = Shown(c: nat, around: seq<Tag>)

  datatype Reader = Malformed | Reading(open: seq<Tag>, shown: seq<Shown>)

  function Under(text: Text, around: seq<Tag>): seq<Shown> {
    if text == [] then [] else Under(text[..|text| - 1], around) + [Shown(text[|text| - 1], around)]
  }

  function Step(reader: Reader, piece: Piece): Reader {
    if reader == Malformed then Malformed
    else match piece
      case Open(tag) => reader.(open := reader.open + [tag])
      case Close => if reader.open == [] then Malformed else reader.(open := reader.open[..|reader.open| - 1])
      case Chunk(html) => reader.(shown := reader.shown + Under(Unescape(html), reader.open))
  }

  function Read(reader: Reader, html: seq<Piece>): Reader {
    if html == [] then reader else Step(Read(reader, html[..|html| - 1]), html[|html| - 1])
  }

  lemma ReadMore(reader: Reader, html: seq<Piece>, piece: Piece)
    ensures Read(reader, html + [piece]) == Step(Read(reader, html), piece)
  {
    assert (html + [piece])[..|html|] == html;
  }

  lemma {:induction false} ReadSum(reader: Reader, a: seq<Piece>, b: seq<Piece>)
    ensures Read(reader, a + b) == Read(Read(reader, a), b)
  {
    if b == [] {
      assert a + b == a;
    } else {
      ReadSum(reader, a, b[..|b| - 1]);
      assert a + b == a + b[..|b| - 1] + [b[|b| - 1]];
      ReadMore(reader, a + b[..|b| - 1], b[|b| - 1]);
    }
  }

  function MarkOf(owner: Option<nat>): seq<Tag> { if owner.Some? then [MarkTag(owner.value)] else [] }

  function ClassOf(cls: Option<string>): seq<Tag> { if cls.Some? then [ClassTag(cls.value)] else [] }

  /** The text with, per character, the marker that owns it and its class. */
  datatype Painted = Painted(text: Text, owners: seq<Option<nat>>, classes: seq<Option<string>>)
  {
    predicate Valid() { |owners| == |classes| == |text| }
  }

  function ShownAt(page: Painted, index: nat, k: nat): Shown
    requires page.Valid() && k < |page.text|
  {
    Shown(page.text[k], [LineTag(index)] + MarkOf(page.owners[k]) + ClassOf(page.classes[k]))
  }

  /** The columns of one line before `at`, each inside its line, its owner and its class. */
  function LineShown(page: Painted, index: nat, from: nat, at: nat): seq<Shown>
    requires page.Valid() && from <= at <= |page.text|
  {
    if at == from then []
    else LineShown(page, index, from, at - 1) + [ShownAt(page, index, at - 1)]
  }

  lemma UnderGrows(text: Text, at: nat, end: nat, around: seq<Tag>)
    requires at <= end <= |text|
    ensures Under(text[at..end], around) ==
              if at == end then [] else Under(text[at..end - 1], around) + [Shown(text[end - 1], around)]
  {
    if at < end {
      assert text[at..end][..end - 1 - at] == text[at..end - 1];
    }
  }

  lemma LineShownGrows(page: Painted, index: nat, from: nat, end: nat)
    requires page.Valid() && from < end <= |page.text|
    ensures LineShown(page, index, from, end) == LineShown(page, index, from, end - 1) + [ShownAt(page, index, end - 1)]
  {
    hide ShownAt;
  }

  lemma {:induction false} RunShown(page: Painted, index: nat, from: nat, at: nat, end: nat)
    requires page.Valid() && from <= at <= end <= |page.text|
    requires at < |page.text|
    requires forall k :: at <= k < end ==> page.owners[k] == page.owners[at] && page.classes[k] == page.classes[at]
    ensures LineShown(page, index, from, end) == LineShown(page, index, from, at) +
              Under(page.text[at..end], [LineTag(index)] + MarkOf(page.owners[at]) + ClassOf(page.classes[at]))
    decreases end
  {
    hide LineShown, Under;
    var around := [LineTag(index)] + MarkOf(page.owners[at]) + ClassOf(page.classes[at]);
    UnderGrows(page.text, at, end, around);
    if at < end {
      RunShown(page, index, from, at, end - 1);
      LineShownGrows(page, index, from, end);
      assert ShownAt(page, index, end - 1) == Shown(page.text[end - 1], around);
    } else {
      assert LineShown(page, index, from, at) + [] == LineShown(page, index, from, at);
    }
  }

  method HighlightLine(page: Painted, index: nat, from: nat, to: nat, ghost shown: seq<Shown>)
    returns (html: seq<Piece>)
    requires page.Valid() && from <= to <= |page.text|
    ensures Read(Reading([LineTag(index)], shown), html) ==
      Reading([LineTag(index)], shown + LineShown(page, index, from, to))
  {
    hide Read, LineShown, EscapeHtml, Unescape, Under;
    html := [];
    ghost var line := [LineTag(index)];
    ghost var start := Reading(line, shown);
    Starts(page, index, from, start);
    var open: Option<nat> := None;
    var at := from;
    while at < to
      invariant from <= at <= to
      invariant Read(start, html) == Reading(line + MarkOf(open), shown + LineShown(page, index, from, at))
    {
      var owner, cls := page.owners[at], page.classes[at];
      var end := at + 1;
      while end < to && page.classes[end] == cls && page.owners[end] == owner
        invariant at < end <= to
        invariant forall k :: at <= k < end ==> page.owners[k] == owner && page.classes[k] == cls
      {
        end := end + 1;
      }
      ghost var before := shown + LineShown(page, index, from, at);
      if owner != open {
        if open.Some? {
          ReadMore(start, html, Close);
          html := html + [Close];
          assert (line + MarkOf(open))[..1] == line;
          assert Read(start, html) == Reading(line, before);
        }
        assert line + [] == line;
        assert Read(start, html) == Reading(line, before);
        if owner.Some? {
          ReadMore(start, html, Open(MarkTag(owner.value)));
          html := html + [Open(MarkTag(owner.value))];
        }
        open := owner;
      }
      assert Read(start, html) == Reading(line + MarkOf(owner), before);
      html := EmitChunk(start, html, cls, page.text[at..end]);
      RunShown(page, index, from, at, end);
      assert before + Under(page.text[at..end], line + MarkOf(owner) + ClassOf(cls)) ==
        shown + LineShown(page, index, from, end);
      at := end;
    }
    if open.Some? {
      ReadMore(start, html, Close);
      html := html + [Close];
      assert (line + MarkOf(open))[..1] == line;
    }
    assert line + [] == line;
  }

  lemma Starts(page: Painted, index: nat, from: nat, start: Reader)
    requires page.Valid() && from <= |page.text|
    ensures Read(start, []) == start && LineShown(page, index, from, from) == []
  {
  }

  /** A chunk shows its text inside what is open and its class, and leaves open what was. */
  method EmitChunk(ghost start: Reader, html: seq<Piece>, cls: Option<string>, text: Text) returns (html': seq<Piece>)
    requires Read(start, html).Reading?
    ensures var before := Read(start, html);
            Read(start, html') == before.(shown := before.shown + Under(text, before.open + ClassOf(cls)))
  {
    hide Read, EscapeHtml, Unescape, Under;
    ghost var before := Read(start, html);
    var chunk := EscapeHtml(text);
    EscapeRoundTrip(text);
    if cls.Some? {
      var inside := html + [Open(ClassTag(cls.value))];
      var written := inside + [Chunk(chunk)];
      html' := written + [Close];
      ReadMore(start, html, Open(ClassTag(cls.value)));
      ReadMore(start, inside, Chunk(chunk));
      ReadMore(start, written, Close);
      assert (before.open + ClassOf(cls))[..|before.open|] == before.open;
    } else {
      html' := html + [Chunk(chunk)];
      ReadMore(start, html, Chunk(chunk));
      assert before.open + ClassOf(cls) == before.open;
    }
  }

  // ---- the whole text

  /** Where line `i`, counted from 0, starts. */
  function StartOf(lines: seq<Text>, i: nat): nat
    requires i <= |lines|
  {
    if i == 0 then 0 else StartOf(lines, i - 1) + |lines[i - 1]| + 1
  }

  method LineStarts(lines: seq<Text>) returns (starts: seq<nat>)
    ensures |starts| == |lines| && forall i :: 0 <= i < |lines| ==> starts[i] == StartOf(lines, i)
  {
    starts := [];
    var offset: nat := 0;
    for i := 0 to |lines|
      invariant |starts| == i && offset == StartOf(lines, i)
      invariant forall k :: 0 <= k < i ==> starts[k] == StartOf(lines, k)
    {
      starts := starts + [offset];
      offset := offset + |lines[i]| + 1;
    }
  }

  lemma {:induction false} StartBelow(lines: seq<Text>, i: nat)
    requires 1 <= i <= |lines|
    ensures StartOf(lines, i) == |lines[0]| + 1 + StartOf(lines[1..], i - 1)
  {
    if i > 1 {
      StartBelow(lines, i - 1);
    }
  }

  /** Each line stands at its start; a newline follows every line but the last. */
  lemma {:induction false} LineInText(lines: seq<Text>, i: nat)
    requires i < |lines|
    ensures var text, start := Join(lines), StartOf(lines, i);
            start + |lines[i]| <= |text| && text[start..start + |lines[i]|] == lines[i] &&
            (if i + 1 < |lines| then start + |lines[i]| < |text| && text[start + |lines[i]|] == NEWLINE
             else start + |lines[i]| == |text|)
    decreases |lines|
  {
    JoinStep(lines);
    if i > 0 {
      var below, head := Join(lines[1..]), lines[0] + [NEWLINE];
      LineInText(lines[1..], i - 1);
      StartBelow(lines, i);
      var start := StartOf(lines[1..], i - 1);
      assert Join(lines)[|head|..] == below;
      assert Join(lines)[|head| + start..|head| + start + |lines[i]|] == below[start..start + |lines[i]|];
    }
  }

  lemma {:induction false} StartsGrow(lines: seq<Text>, i: nat, j: nat)
    requires i < j <= |lines|
    ensures StartOf(lines, i) + |lines[i]| < StartOf(lines, j)
    decreases j
  {
    if i < j - 1 {
      StartsGrow(lines, i, j - 1);
    }
  }

  /** Whether the range takes in offset `at` of the text. */
  predicate Holds(lines: seq<Text>, range: Range, at: int)
    requires InBounds(lines, range)
  {
    var base := StartOf(lines, range.line - 1);
    base + range.from <= at < base + range.to
  }

  predicate AnyHolds(lines: seq<Text>, ranges: seq<Range>, at: int)
    requires AllInBounds(lines, ranges)
  {
    exists k :: 0 <= k < |ranges| && Holds(lines, ranges[k], at)
  }

  predicate Placed(lines: seq<Text>, markers: seq<Marker>) {
    forall m :: 0 <= m < |markers| ==> AllInBounds(lines, markers[m].ranges)
  }

  /** The last of the first `n` markers with a range there. */
  function OwnerAt(lines: seq<Text>, markers: seq<Marker>, n: nat, at: int): Option<nat>
    requires Placed(lines, markers) && n <= |markers|
  {
    if n == 0 then None
    else if AnyHolds(lines, markers[n - 1].ranges, at) then Some(n - 1)
    else OwnerAt(lines, markers, n - 1, at)
  }

  lemma RangeInText(lines: seq<Text>, range: Range)
    requires InBounds(lines, range)
    ensures var start := StartOf(lines, range.line - 1);
            0 <= start + range.from <= start + range.to <= |Join(lines)|
  {
    LineInText(lines, range.line - 1);
  }

  method OwnersOf(lines: seq<Text>, starts: seq<nat>, markers: seq<Marker>, length: nat)
    returns (owners: seq<Option<nat>>)
    requires |starts| == |lines| && forall i :: 0 <= i < |lines| ==> starts[i] == StartOf(lines, i)
    requires Placed(lines, markers) && length == |Join(lines)|
    ensures |owners| == length
    ensures forall at :: 0 <= at < length ==> owners[at] == OwnerAt(lines, markers, |markers|, at)
  {
    var slots := new Option<nat>[length](_ => None);
    for m: nat := 0 to |markers|
      invariant forall at :: 0 <= at < length ==> slots[at] == OwnerAt(lines, markers, m, at)
    {
      assert AllInBounds(lines, markers[m].ranges);
      ClaimAll(lines, starts, markers[m].ranges, m, slots);
    }
    owners := slots[..];
  }

  /** Gives every offset the ranges take in to marker `m`. */
  method ClaimAll(lines: seq<Text>, starts: seq<nat>, ranges: seq<Range>, m: nat, slots: array<Option<nat>>)
    requires |starts| == |lines| && forall i :: 0 <= i < |lines| ==> starts[i] == StartOf(lines, i)
    requires AllInBounds(lines, ranges) && slots.Length == |Join(lines)|
    modifies slots
    ensures forall at :: 0 <= at < slots.Length ==>
              slots[at] == if AnyHolds(lines, ranges, at) then Some(m) else old(slots[at])
  {
    for r := 0 to |ranges|
      invariant forall at :: 0 <= at < slots.Length ==>
                  slots[at] == if (exists k :: 0 <= k < r && Holds(lines, ranges[k], at)) then Some(m)
                    else old(slots[at])
    {
      assert InBounds(lines, ranges[r]);
      RangeInText(lines, ranges[r]);
      ghost var before := slots[..];
      var base := starts[ranges[r].line - 1];
      for at := base + ranges[r].from to base + ranges[r].to
        invariant forall k :: 0 <= k < slots.Length ==>
                    slots[k] == if base + ranges[r].from <= k < at then Some(m) else before[k]
      {
        slots[at] := Some(m);
      }
      assert forall at :: 0 <= at < slots.Length ==>
               slots[at] == if Holds(lines, ranges[r], at) then Some(m) else before[at];
    }
  }

  /** Ranges of one text that share an offset share a line. */
  lemma SharedOffsetMeets(lines: seq<Text>, a: Range, b: Range, at: int)
    requires InBounds(lines, a) && InBounds(lines, b) && Holds(lines, a, at) && Holds(lines, b, at)
    ensures Meet(a, b)
  {
    if a.line < b.line {
      StartsGrow(lines, a.line - 1, b.line - 1);
    } else if b.line < a.line {
      StartsGrow(lines, b.line - 1, a.line - 1);
    }
  }

  lemma {:induction false} RangeAmongAll(markers: seq<Marker>, m: nat, k: nat) returns (i: nat)
    requires m < |markers| && k < |markers[m].ranges|
    ensures i < |AllRanges(markers)| && AllRanges(markers)[i] == markers[m].ranges[k]
    ensures |AllRanges(markers[..m])| <= i < |AllRanges(markers[..m + 1])|
    decreases |markers|
  {
    var n := |markers| - 1;
    if m == n {
      assert markers[..m + 1] == markers;
      i := |AllRanges(markers[..n])| + k;
    } else {
      i := RangeAmongAll(markers[..n], m, k);
      assert markers[..n][..m] == markers[..m] && markers[..n][..m + 1] == markers[..m + 1];
    }
  }

  lemma {:induction false} AllRangesGrow(markers: seq<Marker>, m: nat, n: nat)
    requires m <= n <= |markers|
    ensures |AllRanges(markers[..m])| <= |AllRanges(markers[..n])|
    decreases n
  {
    if m < n {
      AllRangesGrow(markers, m, n - 1);
      assert markers[..n][..n - 1] == markers[..n - 1];
    }
  }

  /** Disjoint markers never share an offset. */
  lemma OneMarkerHolds(lines: seq<Text>, markers: seq<Marker>, m: nat, n: nat, at: int)
    requires Placed(lines, markers) && Disjoint(AllRanges(markers)) && m < n < |markers|
    ensures !(AnyHolds(lines, markers[m].ranges, at) && AnyHolds(lines, markers[n].ranges, at))
  {
    hide InBounds, Holds, AllRanges;
    if AnyHolds(lines, markers[m].ranges, at) && AnyHolds(lines, markers[n].ranges, at) {
      var k :| 0 <= k < |markers[m].ranges| && Holds(lines, markers[m].ranges[k], at);
      var l :| 0 <= l < |markers[n].ranges| && Holds(lines, markers[n].ranges[l], at);
      SharedOffsetMeets(lines, markers[m].ranges[k], markers[n].ranges[l], at);
      var i := RangeAmongAll(markers, m, k);
      var j := RangeAmongAll(markers, n, l);
      AllRangesGrow(markers, m + 1, n);
    }
  }

  /** With disjoint markers, the owner of an offset is the one marker with a range there. */
  lemma {:induction false} OwnerIsTheHolder(lines: seq<Text>, markers: seq<Marker>, n: nat, at: int, m: nat)
    requires Placed(lines, markers) && Disjoint(AllRanges(markers)) && n <= |markers| && m < n
    ensures OwnerAt(lines, markers, n, at) == Some(m) <==> AnyHolds(lines, markers[m].ranges, at)
    decreases n
  {
    hide AnyHolds, Disjoint, Placed;
    if m < n - 1 {
      OneMarkerHolds(lines, markers, m, n - 1, at);
      OwnerIsTheHolder(lines, markers, n - 1, at, m);
    } else {
      OwnerIsBefore(lines, markers, n - 1, at);
    }
  }

  lemma {:induction false} OwnerIsBefore(lines: seq<Text>, markers: seq<Marker>, n: nat, at: int)
    requires Placed(lines, markers) && n <= |markers|
    ensures var owner := OwnerAt(lines, markers, n, at);
            owner.Some? ==> owner.value < n && AnyHolds(lines, markers[owner.value].ranges, at)
  {
    if n > 0 {
      OwnerIsBefore(lines, markers, n - 1, at);
    }
  }

  /** What the whole page shows of the first `n` lines. */
  function PageShown(page: Painted, lines: seq<Text>, n: nat): seq<Shown>
    requires page.Valid() && page.text == Join(lines) && n <= |lines|
  {
    if n == 0 then []
    else
      LineInText(lines, n - 1);
      var start := StartOf(lines, n - 1);
      PageShown(page, lines, n - 1) + LineShown(page, n - 1, start, start + |lines[n - 1]|) +
      if n < |lines| then [Shown(NEWLINE, [LineTag(n - 1)])] else []
  }

  /** The example's text: the source without its final newline. */
  function Trimmed(source: Text): Text {
    if source != [] && source[|source| - 1] == NEWLINE then source[..|source| - 1] else source
  }

  method HighlightExample(source: Text, markers: seq<Marker>, classes: seq<Option<string>>) returns (html: seq<Piece>)
    requires |classes| == |Trimmed(source)| && Placed(Split(Trimmed(source)), markers)
    ensures var lines := Split(Trimmed(source));
            Join(lines) == Trimmed(source) &&
            exists owners ::
              |owners| == |classes| &&
              (forall at :: 0 <= at < |owners| ==> owners[at] == OwnerAt(lines, markers, |markers|, at)) &&
              Read(Reading([], []), html) ==
                Reading([], PageShown(Painted(Join(lines), owners, classes), lines, |lines|))
  {
    hide Read, OwnerAt, LineShown, InBounds;
    var text := Trimmed(source);
    var lines := Split(text);
    JoinOfSplit(text);
    var starts := LineStarts(lines);
    var owners := OwnersOf(lines, starts, markers, |text|);
    var page := Painted(text, owners, classes);
    html := [];
    ghost var start := Reading([], []);
    ReadNothing(start);
    for n := 0 to |lines|
      invariant Read(start, html) == Reading([], PageShown(page, lines, n))
    {
      LineInText(lines, n);
      html := EmitLine(page, lines, starts[n], n, html, start);
    }
  }

  lemma ReadNothing(reader: Reader)
    ensures Read(reader, []) == reader
  {
  }

  method EmitLine(page: Painted, lines: seq<Text>, from: nat, index: nat, html: seq<Piece>, ghost start: Reader)
    returns (html': seq<Piece>)
    requires page.Valid() && page.text == Join(lines) && index < |lines| && from == StartOf(lines, index)
    requires Read(start, html) == Reading([], PageShown(page, lines, index))
    ensures Read(start, html') == Reading([], PageShown(page, lines, index + 1))
  {
    hide Read, LineShown, Unescape, StartOf;
    LineInText(lines, index);
    ghost var shown := PageShown(page, lines, index);
    var line := HighlightLine(page, index, from, from + |lines[index]|, shown);
    var begun := html + [Open(LineTag(index))];
    ReadMore(start, html, Open(LineTag(index)));
    assert [] + [LineTag(index)] == [LineTag(index)];
    ReadSum(start, begun, line);
    var written := begun + line;
    ghost var inLine := shown + LineShown(page, index, from, from + |lines[index]|);
    assert Read(start, written) == Reading([LineTag(index)], inLine);
    if index < |lines| - 1 {
      ReadMore(start, written, Chunk([NEWLINE]));
      NewlineIsItself(index);
      written := written + [Chunk([NEWLINE])];
    }
    ReadMore(start, written, Close);
    html' := written + [Close];
    assert inLine + [] == inLine;
  }

  lemma NewlineIsItself(index: nat)
    ensures Under(Unescape([NEWLINE]), [LineTag(index)]) == [Shown(NEWLINE, [LineTag(index)])]
  {
    assert [NEWLINE][1..] == [];
    UnescapeNothing();
    assert Unescape([NEWLINE]) == [NEWLINE];
    assert [NEWLINE][..0] == [];
  }

  // ---- what is shown

  lemma {:induction false} LineShownAt(page: Painted, index: nat, from: nat, end: nat, k: nat)
    requires page.Valid() && from <= end <= |page.text|
    ensures |LineShown(page, index, from, end)| == end - from
    ensures from <= k < end ==> LineShown(page, index, from, end)[k - from] == ShownAt(page, index, k)
    decreases end
  {
    if from < end {
      LineShownAt(page, index, from, end - 1, k);
    }
  }

  lemma PageGrowsBy(page: Painted, lines: seq<Text>, n: nat)
    requires page.Valid() && page.text == Join(lines) && 0 < n <= |lines|
    ensures StartOf(lines, n - 1) + |lines[n - 1]| <= |page.text|
    ensures |PageShown(page, lines, n)| == |PageShown(page, lines, n - 1)| +
              |LineShown(page, n - 1, StartOf(lines, n - 1), StartOf(lines, n - 1) + |lines[n - 1]|)| +
              if n < |lines| then 1 else 0
  {
    LineInText(lines, n - 1);
    hide LineShown, StartOf, Join;
  }

  lemma {:induction false} PageLength(page: Painted, lines: seq<Text>, n: nat)
    requires page.Valid() && page.text == Join(lines) && n <= |lines| && lines != []
    ensures |PageShown(page, lines, n)| == if n < |lines| then StartOf(lines, n) else |page.text|
    decreases n
  {
    hide LineShown, Join;
    if n > 0 {
      LineInText(lines, n - 1);
      PageLength(page, lines, n - 1);
      var start := StartOf(lines, n - 1);
      LineShownAt(page, n - 1, start, start + |lines[n - 1]|, start);
      hide PageShown;
      PageGrowsBy(page, lines, n);
    }
  }

  lemma {:induction false} PageGrows(page: Painted, lines: seq<Text>, m: nat, n: nat)
    requires page.Valid() && page.text == Join(lines) && m <= n <= |lines|
    ensures PageShown(page, lines, m) <= PageShown(page, lines, n)
    decreases n
  {
    if m < n {
      PageGrows(page, lines, m, n - 1);
    }
  }

  /**
   * The page shows the text, character for character: one of a line's columns
   * inside the line, its owner and its class; the newline after it in the line
   * alone.
   */
  lemma PageShowsTheText(page: Painted, lines: seq<Text>, index: nat, column: nat)
    requires page.Valid() && page.text == Join(lines)
    requires index < |lines| && (column < |lines[index]| || (column == |lines[index]| && index + 1 < |lines|))
    ensures var k := StartOf(lines, index) + column;
            |PageShown(page, lines, |lines|)| == |page.text| && k < |page.text| &&
            PageShown(page, lines, |lines|)[k] ==
              Shown(page.text[k], [LineTag(index)] +
                    if column < |lines[index]| then MarkOf(page.owners[k]) + ClassOf(page.classes[k]) else [])
  {
    hide LineShown, StartOf;
    PageLength(page, lines, |lines|);
    PageLength(page, lines, index);
    PageGrows(page, lines, index + 1, |lines|);
    LineInText(lines, index);
    var start := StartOf(lines, index);
    var k, end := start + column, start + |lines[index]|;
    LineShownAt(page, index, start, end, k);
    assert PageShown(page, lines, |lines|)[k] == PageShown(page, lines, index + 1)[k];
    if column < |lines[index]| {
      assert PageShown(page, lines, index + 1)[k] == LineShown(page, index, start, end)[column];
      assert [LineTag(index)] + MarkOf(page.owners[k]) + ClassOf(page.classes[k])
          == [LineTag(index)] + (MarkOf(page.owners[k]) + ClassOf(page.classes[k]));
    } else {
      assert [LineTag(index)] + [] == [LineTag(index)];
    }
  }

  lemma {:induction false} SplitLine(text: Text)
    ensures Split(text + [NEWLINE]) == Split(text) + [[]]
  {
    if text == [] {
      assert (text + [NEWLINE])[1..] == [];
      assert Split([]) == [[]];
    } else {
      assert (text + [NEWLINE])[1..] == text[1..] + [NEWLINE];
      SplitLine(text[1..]);
    }
  }

  /** Accepted markers lie in the lines that are shown: the final empty line has no room for one. */
  lemma AcceptedArePlaced(source: Text, markers: seq<Marker>, links: Links)
    requires Accepted(Split(source), markers, links)
    ensures Placed(Split(Trimmed(source)), markers) && Disjoint(AllRanges(markers))
  {
    var text := Trimmed(source);
    if source != text {
      SplitLine(text);
      assert source == text + [NEWLINE];
    }
    forall m, k | 0 <= m < |markers| && 0 <= k < |markers[m].ranges|
      ensures InBounds(Split(text), markers[m].ranges[k])
    {
      var i := RangeAmongAll(markers, m, k);
      assert InBounds(Split(source), AllRanges(markers)[i]);
    }
  }

  /** For accepted markers, a character is shown inside a marker's span exactly when that marker has a range there. */
  lemma ShownInItsMarker(
      source: Text, markers: seq<Marker>, links: Links, page: Painted, index: nat, column: nat, m: nat)
    requires Accepted(Split(source), markers, links) && m < |markers|
    requires page.Valid() && page.text == Join(Split(Trimmed(source)))
    requires index < |Split(Trimmed(source))| && column < |Split(Trimmed(source))[index]|
    requires Placed(Split(Trimmed(source)), markers)
    requires forall at :: 0 <= at < |page.owners| ==>
               page.owners[at] == OwnerAt(Split(Trimmed(source)), markers, |markers|, at)
    ensures var lines := Split(Trimmed(source));
            var k := StartOf(lines, index) + column;
            |PageShown(page, lines, |lines|)| == |page.text| && k < |page.text| &&
            (MarkTag(m) in PageShown(page, lines, |lines|)[k].around <==> AnyHolds(lines, markers[m].ranges, k))
  {
    hide PageShown, AnyHolds, OwnerAt, Split, Join, StartOf, Accepted, Placed;
    var lines := Split(Trimmed(source));
    var k := StartOf(lines, index) + column;
    AcceptedArePlaced(source, markers, links);
    PageShowsTheText(page, lines, index, column);
    OwnerIsTheHolder(lines, markers, |markers|, k, m);
  }
}
