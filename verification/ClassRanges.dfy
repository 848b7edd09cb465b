/**
 * The characters a row's `chars` spells, and the class they are meant to be
 * (packages/core/src/dialect-marks.ts, `rangesOf`). The parser reads `chars` as
 * the inside of a class, `[...]`, so a leading `^` negates it.
 */
module ClassRanges {
  import opened Utf16
  import opened RegexSyntax

  type Range = (nat, nat)

  // ---- the characters `chars` spells

  /** One character at the start of `s`, past an escaping backslash, and its width. */
  function CharAt(s: Text): (r: (nat, nat))
    requires s != []
    ensures 1 <= r.1 <= |s|
  {
    if s[0] == BACKSLASH && |s| > 1 then (s[1], 2) else (s[0], 1)
  }

  /** The range at the start of `s` and its width. */
  function RangeAt(s: Text): (r: (Range, nat))
    requires s != []
    ensures 1 <= r.1 <= |s|
  {
    var (low, k) := CharAt(s);
    if |s| > k + 1 && s[k] == DASH then
      var (high, w) := CharAt(s[k + 1..]);
      ((low, high), k + 1 + w)
    else ((low, low), k)
  }

  function ReadRanges(s: Text): seq<Range>
    decreases |s|
  {
    if s == [] then [] else var (range, width) := RangeAt(s); [range] + ReadRanges(s[width..])
  }

  lemma ReadStep(points: Text, i: nat, before: seq<Range>, range: Range, width: nat)
    requires i < |points| && RangeAt(points[i..]) == (range, width)
    ensures i + width <= |points|
    ensures before + ReadRanges(points[i..]) == before + [range] + ReadRanges(points[i + width..])
  {
    assert points[i..][width..] == points[i + width..];
    assert before + ([range] + ReadRanges(points[i + width..])) == before + [range] + ReadRanges(points[i + width..]);
  }

  /** `RangeAt`, told by positions in the whole text: the low character ends before `next`. */
  lemma RangeByPosition(points: Text, start: nat, next: nat)
    requires start < next <= |points| && CharAt(points[start..]) == (points[next - 1], next - start)
    ensures RangeAt(points[start..]) ==
              if next + 1 < |points| && points[next] == DASH then
                var (high, width) := CharAt(points[next + 1..]);
                ((points[next - 1], high), next + 1 + width - start)
              else ((points[next - 1], points[next - 1]), next - start)
  {
    if next + 1 < |points| {
      assert points[start..][next - start + 1..] == points[next + 1..];
    }
  }

  lemma CharByPosition(points: Text, i: nat)
    requires i < |points|
    ensures CharAt(points[i..]) ==
              if points[i] == BACKSLASH && i + 1 < |points| then (points[i + 1], 2) else (points[i], 1)
  {
  }

  lemma NothingToRead(points: Text, i: nat)
    ensures i == |points| ==> ReadRanges(points[i..]) == []
  {
  }

  method RangesOf(chars: Text) returns (ranges: seq<Range>)
    ensures ranges == ReadRanges(Points(chars))
  {
    var points := Points(chars);
    hide ReadRanges, CharAt, RangeAt, Points;
    ranges := [];
    var i := 0;
    assert points[0..] == points;
    while i < |points|
      invariant 0 <= i <= |points|
      invariant ranges + ReadRanges(points[i..]) == ReadRanges(points)
    {
      CharByPosition(points, i);
      ghost var start := i;
      var low, high := points[i], points[i];
      if low == BACKSLASH && i + 1 < |points| {
        i := i + 1;
        low, high := points[i], points[i];
      }
      ghost var next := i + 1;
      if i + 1 < |points| && points[i + 1] == DASH && i + 2 < |points| {
        high := points[i + 2];
        i := i + 2;
        if high == BACKSLASH && i + 1 < |points| {
          i := i + 1;
          high := points[i];
        }
      }
      RangeByPosition(points, start, next);
      if next + 1 < |points| { CharByPosition(points, next + 1); }
      ReadStep(points, start, ranges, (low, high), i + 1 - start);
      ranges := ranges + [(low, high)];
      i := i + 1;
    }
    NothingToRead(points, i);
    assert ranges + [] == ranges;
  }

  predicate Covers(range: Range, p: nat) { range.0 <= p <= range.1 }

  predicate InRanges(ranges: seq<Range>, p: nat) { exists range <- ranges :: Covers(range, p) }

  // ---- the ranges of a printed class

  function Singles(text: Text): seq<Range> {
    if text == [] then [] else [(text[0], text[0])] + Singles(text[1..])
  }

  /** How an item is read: a letter escape is taken for the letters it is written with. */
  function Spelled(item: ClassItem): seq<Range> {
    match item
    case One(a) => [(a.point, a.point)]
    case Span(low, high) => [(low.point, high.point)]
    case Shorthand(letter, tail, _) => Singles([letter] + tail)
  }

  function SpelledAll(items: seq<ClassItem>): seq<Range> {
    if items == [] then [] else Spelled(items[0]) + SpelledAll(items[1..])
  }

  lemma CharAtPrinted(a: ClassAtom, rest: Text)
    requires ValidClassAtom(a)
    ensures CharAt(PrintClassAtom(a) + rest) == (a.point, |PrintClassAtom(a)|)
  {
  }

  /** What stands after a character does not make a span of it. */
  predicate NoSpan(rest: Text) { |rest| > 1 ==> rest[0] != DASH }

  lemma SpanAtPrinted(low: ClassAtom, high: ClassAtom, rest: Text)
    requires ValidClassAtom(low) && ValidClassAtom(high)
    ensures var text := PrintItem(Span(low, high)); RangeAt(text + rest) == ((low.point, high.point), |text|)
  {
    var lowText, highText := PrintClassAtom(low), PrintClassAtom(high);
    var s := PrintItem(Span(low, high)) + rest;
    assert s == lowText + ([DASH] + highText + rest);
    CharAtPrinted(low, [DASH] + highText + rest);
    CharAtPrinted(high, rest);
    assert s[|lowText| + 1..] == highText + rest;
  }

  /** A character written as `text`, and not before a span's dash, is read alone. */
  lemma ReadSingle(text: Text, p: nat, rest: Text)
    requires (text == [p] && p != BACKSLASH) || text == [BACKSLASH, p]
    requires NoSpan(rest)
    ensures ReadRanges(text + rest) == [(p, p)] + ReadRanges(rest)
  {
    var s := text + rest;
    assert CharAt(s) == (p, |text|);
    assert RangeAt(s) == ((p, p), |text|);
    assert s[|text|..] == rest;
  }

  lemma NoSpanBefore(text: Text, rest: Text)
    requires NoSpan(rest) && (text != [] ==> text[0] != DASH)
    ensures NoSpan(text + rest)
  {
    assert text == [] ==> text + rest == rest;
  }

  lemma {:induction false} ReadTail(tail: Text, rest: Text)
    requires NoSpan(rest) && forall i :: 0 <= i < |tail| ==> tail[i] != BACKSLASH && tail[i] != DASH
    ensures ReadRanges(tail + rest) == Singles(tail) + ReadRanges(rest)
  {
    hide ReadRanges;
    if tail == [] {
      assert tail + rest == rest;
      assert Singles([]) + ReadRanges(rest) == ReadRanges(rest);
    } else {
      var first, others := tail[0], tail[1..];
      ReadTail(others, rest);
      NoSpanBefore(others, rest);
      assert tail + rest == [first] + (others + rest);
      ReadSingle([first], first, others + rest);
      assert [(first, first)] + (Singles(others) + ReadRanges(rest)) == Singles(tail) + ReadRanges(rest);
    }
  }

  lemma ReadItem(item: ClassItem, rest: Text)
    requires ValidItem(item) && (item.Span? || NoSpan(rest))
    ensures ReadRanges(PrintItem(item) + rest) == Spelled(item) + ReadRanges(rest)
  {
    match item
    case One(a) => ReadSingle(PrintClassAtom(a), a.point, rest);
    case Span(low, high) =>
      hide PrintItem, RangeAt;
      SpanAtPrinted(low, high, rest);
      assert (PrintItem(item) + rest)[|PrintItem(item)|..] == rest;
    case Shorthand(letter, tail, _) => ReadEscape(letter, tail, rest);
  }

  lemma ReadEscape(letter: nat, tail: Text, rest: Text)
    requires NoSpan(rest) && IsPlain(tail) && DASH !in tail
    ensures ReadRanges([BACKSLASH, letter] + tail + rest) == Singles([letter] + tail) + ReadRanges(rest)
  {
    hide ReadRanges;
    assert forall i :: 0 <= i < |tail| ==> tail[i] in tail;
    ReadTail(tail, rest);
    assert [BACKSLASH, letter] + tail + rest == [BACKSLASH, letter] + (tail + rest);
    assert tail == [] ==> tail + rest == rest;
    ReadSingle([BACKSLASH, letter], letter, tail + rest);
    assert ([letter] + tail)[1..] == tail;
    assert [(letter, letter)] + (Singles(tail) + ReadRanges(rest)) ==
      [(letter, letter)] + Singles(tail) + ReadRanges(rest);
  }

  /** `rangesOf` reads the items of a printed class one by one. */
  lemma {:induction false} RangesOfPrinted(items: seq<ClassItem>)
    requires ValidItems(items)
    ensures ReadRanges(PrintItems(items)) == SpelledAll(items)
  {
    if items != [] {
      NoSpanAfter(items);
      hide PrintItem, ReadRanges, Spelled;
      ReadItem(items[0], PrintItems(items[1..]));
      RangesOfPrinted(items[1..]);
    }
  }

  /** An item that is no span is not followed by a dash and more. */
  lemma NoSpanAfter(items: seq<ClassItem>)
    requires ValidItems(items) && items != []
    ensures ValidItem(items[0]) && ValidItems(items[1..]) && (items[0].Span? || NoSpan(PrintItems(items[1..])))
  {
    var rest := PrintItems(items[1..]);
    assert items[0] in items;
    if |items| > 1 {
      assert items[1] in items && rest == PrintItem(items[1]) + PrintItems(items[2..]) by {
        assert items[1..][1..] == items[2..];
      }
      if !items[0].Span? && rest[0] == DASH {
        assert items[1] == One(Bare(DASH)) && items[2..] == [];
        assert rest == [DASH];
      }
    }
  }

  lemma {:induction false} SpelledSomewhere(items: seq<ClassItem>, p: nat)
    ensures InRanges(SpelledAll(items), p) <==> exists item <- items :: InRanges(Spelled(item), p)
  {
    if items != [] {
      SpelledSomewhere(items[1..], p);
      InEither(Spelled(items[0]), SpelledAll(items[1..]), p);
      assert forall item :: item in items <==> item == items[0] || item in items[1..];
    }
  }

  lemma InEither(a: seq<Range>, b: seq<Range>, p: nat)
    ensures InRanges(a + b, p) <==> InRanges(a, p) || InRanges(b, p)
  {
    if range :| range in a && Covers(range, p) {
      assert range in a + b;
    }
    if range :| range in b && Covers(range, p) {
      assert range in a + b;
    }
  }

  lemma {:induction false} SinglesHold(text: Text, p: nat)
    ensures InRanges(Singles(text), p) <==> p in text
  {
    if text != [] {
      SinglesHold(text[1..], p);
      InEither([(text[0], text[0])], Singles(text[1..]), p);
      assert InRanges([(text[0], text[0])], p) <==> p == text[0] by {
        assert (text[0], text[0]) in [(text[0], text[0])];
      }
    }
  }

  lemma SpelledItem(item: ClassItem, p: nat)
    ensures InRanges(Spelled(item), p) <==>
              if item.Shorthand? then p in [item.letter] + item.tail else InItem(item, p)
  {
    match item
    case Shorthand(letter, tail, _) => SinglesHold([letter] + tail, p);
    case _ => assert Spelled(item)[0] in Spelled(item);
  }

  // ---- `chars` as a whole

  /** A row's `chars`: the inside of a class. */
  datatype Chars = Chars(negated: bool, items: seq<ClassItem>)

  function PrintChars(c: Chars): Text { (if c.negated then [CARET] else []) + PrintItems(c.items) }

  predicate ValidChars(c: Chars) { ValidClass(c.negated, c.items) }

  /** The characters the row is armed on. */
  ghost predicate InChars(c: Chars, p: nat) { InClass(c.items, p) != c.negated }

  const LAST_POINT: nat := 0x10FFFF

  /** What `\s` stands for. */
  predicate IsSpace(p: nat) {
    0x09 <= p <= 0x0D || 0x2000 <= p <= 0x200A ||
    p in [0x20, 0xA0, 0x1680, 0x2028, 0x2029, 0x202F, 0x205F, 0x3000, 0xFEFF]
  }

  /** `,;)]}`: they separate or close an expression. */
  const EXPRESSION_REFUSED: Text := [0x2C, 0x3B, 0x29, RBRACKET, RBRACE]

  /**
   * The parser's validation takes these `chars`: the row is armed on no
   * whitespace, and on nothing its list refuses.
   */
  ghost predicate Accepted(c: Chars, refused: Text) {
    PrintChars(c) != [] &&
    forall p: nat :: p < 0x1_0000 && Scalar(p) && InChars(c, p) ==> !IsSpace(p) && p !in refused
  }

  /** `rangesOf` gives exactly the characters the row is armed on. */
  ghost predicate RangesAreRight(c: Chars) {
    forall p: nat :: p <= LAST_POINT ==> (InRanges(ReadRanges(PrintChars(c)), p) <==> InChars(c, p))
  }

  ghost predicate EscapesAreListed(items: seq<ClassItem>) {
    forall item <- items :: item.Shorthand? ==> EscapeIsListed(items, item)
  }

  /** The letters an escape is written with are in the class, and what it stands for is written out. */
  ghost predicate EscapeIsListed(items: seq<ClassItem>, escape: ClassItem)
    requires escape.Shorthand?
  {
    (forall c <- [escape.letter] + escape.tail :: InClass(items, c)) &&
    forall p: nat :: p <= LAST_POINT && p in escape.denotes ==> IsWritten(items, p)
  }

  /** The character, or a span with it, or an escape's letter, is written in the class. */
  ghost predicate IsWritten(items: seq<ClassItem>, p: nat) {
    exists item <- items :: if item.Shorthand? then p in [item.letter] + item.tail else InItem(item, p)
  }

  lemma WrittenIsSpelled(items: seq<ClassItem>, p: nat)
    ensures InRanges(SpelledAll(items), p) <==> IsWritten(items, p)
  {
    SpelledSomewhere(items, p);
    forall item | item in items
      ensures InRanges(Spelled(item), p) <==>
        if item.Shorthand? then p in [item.letter] + item.tail else InItem(item, p)
    {
      SpelledItem(item, p);
    }
  }

  /**
   * Without a leading `^` the ranges are right exactly when every letter escape
   * adds nothing that is not written out, and is written in letters of the class.
   */
  lemma RightUnlessEscaped(items: seq<ClassItem>)
    requires ValidChars(Chars(false, items))
    ensures RangesAreRight(Chars(false, items)) <==> EscapesAreListed(items)
  {
    var c := Chars(false, items);
    assert PrintChars(c) == PrintItems(items);
    RangesOfPrinted(items);
    forall p ensures InRanges(ReadRanges(PrintChars(c)), p) <==> IsWritten(items, p) {
      WrittenIsSpelled(items, p);
    }
    hide PrintChars, ReadRanges;
    if RangesAreRight(c) {
      forall item | item in items && item.Shorthand? ensures EscapeIsListed(items, item) {
        forall p: nat | p in [item.letter] + item.tail ensures InClass(items, p) {
          assert ValidItem(item) && Scalar(p) && IsWritten(items, p);
        }
        forall p: nat | p <= LAST_POINT && p in item.denotes ensures IsWritten(items, p) {
          assert InItem(item, p);
        }
      }
    }
    if EscapesAreListed(items) {
      forall p: nat | p <= LAST_POINT ensures IsWritten(items, p) <==> InClass(items, p) {
        if InClass(items, p) {
          var item :| item in items && InItem(item, p);
          assert item.Shorthand? ==> EscapeIsListed(items, item);
        }
        if IsWritten(items, p) {
          var item :| item in items && if item.Shorthand? then p in [item.letter] + item.tail else InItem(item, p);
          assert item.Shorthand? ==> EscapeIsListed(items, item);
        }
      }
    }
  }

  /** A letter escape is read as the letter: `\d` gives the range of `d` alone, while the class matches digits. */
  lemma LetterEscapeMisread(p: nat)
    ensures var digits := [Shorthand(0x64, [], iset d: nat | IsDigit(d))];
            ValidChars(Chars(false, digits)) && Accepted(Chars(false, digits), EXPRESSION_REFUSED) &&
            (InChars(Chars(false, digits), p) <==> IsDigit(p)) &&
            (InRanges(ReadRanges(PrintChars(Chars(false, digits))), p) <==> p == 0x64)
  {
    var item := Shorthand(0x64, [], iset d: nat | IsDigit(d));
    assert item in [item] && (InItem(item, p) <==> IsDigit(p));
    assert PrintItems([item][1..]) == [];
    RangesOfPrinted([item]);
    assert [item][1..] == [] && SpelledAll([item]) == Spelled(item) + [];
    assert PrintChars(Chars(false, [item])) == PrintItems([item]);
    SpelledItem(item, p);
    assert Spelled(item) + [] == Spelled(item);
    forall q: nat ensures InChars(Chars(false, [item]), q) <==> IsDigit(q) {
      assert item in [item] && (InItem(item, q) <==> IsDigit(q));
    }
  }

  predicate IsDigit(p: nat) { 0x30 <= p <= 0x39 }

  // ---- a leading `^`

  predicate Letterless(items: seq<ClassItem>) { forall item <- items :: !item.Shorthand? }

  /** Read from here, every character the text spells is one of the class's own. */
  ghost predicate SpelledFrom(s: Text, items: seq<ClassItem>)
    decreases |s|
  {
    s == [] || (IsOwn(items, CharAt(s).0) && SpelledFrom(s[CharAt(s).1..], items))
  }

  ghost predicate IsOwn(items: seq<ClassItem>, p: nat) { p <= LAST_POINT && InClass(items, p) }

  lemma {:induction false} EndsAreOwn(s: Text, items: seq<ClassItem>)
    requires SpelledFrom(s, items)
    ensures forall range <- ReadRanges(s) :: IsOwn(items, range.0)
    decreases |s|
  {
    hide IsOwn;
    if s != [] {
      var (low, k) := CharAt(s);
      var (range, width) := RangeAt(s);
      if |s| > k + 1 && s[k] == DASH {
        assert CharAt(s[k..]) == (DASH, 1) && s[k..][1..] == s[k + 1..];
        assert SpelledFrom(s[k + 1..], items);
        var w := CharAt(s[k + 1..]).1;
        assert s[k + 1..][w..] == s[width..] && SpelledFrom(s[k + 1..][w..], items);
      }
      EndsAreOwn(s[width..], items);
      assert range.0 == low;
    }
  }

  lemma SpelledAtom(a: ClassAtom, rest: Text, items: seq<ClassItem>)
    requires ValidClassAtom(a) && IsOwn(items, a.point) && SpelledFrom(rest, items)
    ensures SpelledFrom(PrintClassAtom(a) + rest, items)
  {
    CharAtPrinted(a, rest);
    var s := PrintClassAtom(a) + rest;
    assert s[|PrintClassAtom(a)|..] == rest;
  }

  lemma NothingSpelled(items: seq<ClassItem>)
    ensures SpelledFrom([], items)
  {
  }

  /** When the class has the dash, so the dashes of its spans are its own characters too. */
  lemma {:induction false} AllIsSpelled(tail: seq<ClassItem>, items: seq<ClassItem>)
    requires ValidItems(items) && Letterless(items) && IsOwn(items, DASH)
    requires forall item <- tail :: item in items
    ensures SpelledFrom(PrintItems(tail), items)
  {
    hide SpelledFrom;
    if tail == [] {
      NothingSpelled(items);
    } else {
      AllIsSpelled(tail[1..], items);
      assert tail[0] in tail && ValidItem(tail[0]) && !tail[0].Shorthand?;
      var rest := PrintItems(tail[1..]);
      match tail[0]
      case One(a) =>
        assert InItem(tail[0], a.point);
        SpelledAtom(a, rest, items);
      case Span(low, high) =>
        assert InItem(tail[0], low.point) && InItem(tail[0], high.point);
        SpelledSpan(low, high, rest, items);
    }
  }

  lemma SpelledSpan(low: ClassAtom, high: ClassAtom, rest: Text, items: seq<ClassItem>)
    requires ValidClassAtom(low) && ValidClassAtom(high)
    requires IsOwn(items, low.point) && IsOwn(items, DASH) && IsOwn(items, high.point) && SpelledFrom(rest, items)
    ensures SpelledFrom(PrintItem(Span(low, high)) + rest, items)
  {
    hide IsOwn, SpelledFrom;
    SpelledAtom(high, rest, items);
    SpelledAtom(Bare(DASH), PrintClassAtom(high) + rest, items);
    SpelledAtom(low, [DASH] + (PrintClassAtom(high) + rest), items);
    assert PrintItem(Span(low, high)) + rest == PrintClassAtom(low) + ([DASH] + (PrintClassAtom(high) + rest));
  }

  /** Whether a leading `^` is read as a character of its own, and not as the start of a span. */
  predicate CaretStandsAlone(items: seq<ClassItem>) {
    items == [] || items == [One(Bare(DASH))] || PrintItem(items[0])[0] != DASH
  }

  lemma CaretAlone(items: seq<ClassItem>, p: nat)
    requires ValidItems(items) && CaretStandsAlone(items)
    ensures InRanges(ReadRanges(PrintChars(Chars(true, items))), p) <==> p == CARET || IsWritten(items, p)
  {
    var caret := One(Bare(CARET));
    var all := [caret] + items;
    assert all[1..] == items && ValidItem(caret);
    forall i | 0 <= i < |all| - 1 && !all[i].Span? && PrintItem(all[i + 1])[0] == DASH
      ensures i == |all| - 2 && all[i + 1] == One(Bare(DASH))
    {
      if i > 0 { assert all[i] == items[i - 1] && all[i + 1] == items[i]; }
    }
    RangesOfPrinted(all);
    assert PrintItems(all) == PrintChars(Chars(true, items));
    WrittenIsSpelled(items, p);
    InEither(Spelled(caret), SpelledAll(items), p);
    SpelledItem(caret, p);
  }

  /** With a leading `^` the ranges hold a character the class is to leave out, or hold nothing. */
  lemma CaretMeetsOrIsEmpty(items: seq<ClassItem>)
    requires ValidItems(items) && Letterless(items) && items != []
    ensures var ranges := ReadRanges(PrintChars(Chars(true, items)));
            (exists p: nat :: InRanges(ranges, p) && IsOwn(items, p)) || forall p: nat :: !InRanges(ranges, p)
  {
    var c := Chars(true, items);
    assert items[0] in items && ValidItem(items[0]) && !items[0].Shorthand?;
    if CaretStandsAlone(items) {
      var first := if items[0].One? then items[0].atom.point else items[0].low.point;
      assert InItem(items[0], first);
      CaretAlone(items, first);
      assert IsOwn(items, first);
    } else {
      assert InItem(items[0], DASH);
      AllIsSpelled(items, items);
      CaretBeforeDash(items);
    }
  }

  lemma CaretBeforeDash(items: seq<ClassItem>)
    requires ValidItems(items) && items != [] && !CaretStandsAlone(items) && SpelledFrom(PrintItems(items), items)
    ensures var ranges := ReadRanges(PrintChars(Chars(true, items)));
            (exists p: nat :: InRanges(ranges, p) && IsOwn(items, p)) || forall p: nat :: !InRanges(ranges, p)
  {
    hide IsOwn;
    var printed := PrintItems(items);
    var s := [CARET] + printed;
    DashIsNotAlone(items);
    assert printed[0] == DASH && CharAt(printed) == (DASH, 1) && s[1..] == printed && s[2..] == printed[1..];
    var (high, width) := CharAt(printed[1..]);
    assert RangeAt(s) == ((CARET, high), 2 + width);
    var rest := s[2 + width..];
    assert rest == printed[1..][width..];
    EndsAreOwn(rest, items);
    var ranges := ReadRanges(s);
    assert ranges == [(CARET, high)] + ReadRanges(rest);
    if range :| range in ranges && range.0 <= range.1 {
      var p := if range == (CARET, high) then high else range.0;
      assert Covers(range, p) && InRanges(ranges, p) && IsOwn(items, p);
    } else {
      assert forall range, p: nat :: range in ranges ==> !Covers(range, p);
    }
  }

  lemma DashIsNotAlone(items: seq<ClassItem>)
    requires ValidItems(items) && items != [] && !CaretStandsAlone(items)
    ensures PrintItems(items)[0] == DASH && |PrintItems(items)| > 1
  {
    assert items[0] in items;
    if |items| > 1 {
      assert ValidItem(items[1]) by { assert items[1] in items; }
      assert PrintItems(items[1..]) == PrintItem(items[1]) + PrintItems(items[1..][1..]);
      assert |PrintItem(items[1])| > 0;
    } else {
      assert items == [items[0]] && PrintItems(items[1..]) == [];
    }
  }

  /**
   * Without letter escapes the ranges are right exactly when there is no leading
   * `^`, or the row is armed on nothing and the ranges hold nothing.
   */
  lemma RangesAreRightExactly(c: Chars)
    requires ValidChars(c) && Letterless(c.items)
    ensures RangesAreRight(c) <==>
              !c.negated ||
              forall p: nat :: p <= LAST_POINT ==> !InChars(c, p) && !InRanges(ReadRanges(PrintChars(c)), p)
  {
    if !c.negated {
      RightUnlessEscaped(c.items);
    } else if c.items == [] {
      CaretAlone([], 0);
      assert InChars(c, 0);
    } else {
      CaretMeetsOrIsEmpty(c.items);
      hide PrintChars, ReadRanges;
    }
  }

  /** A negated class that writes out a character or a span is misread, letter escapes or not. */
  lemma CaretIsMisread(items: seq<ClassItem>, item: ClassItem)
    requires ValidItems(items) && CaretStandsAlone(items) && item in items && !item.Shorthand?
    ensures !RangesAreRight(Chars(true, items))
  {
    var first := if item.One? then item.atom.point else item.low.point;
    assert ValidItem(item) && InItem(item, first);
    CaretAlone(items, first);
    hide PrintChars, ReadRanges;
    assert InChars(Chars(true, items), first) == false;
  }

  /**
   * The items are all letter escapes, and stand for exactly what is neither the
   * sign nor a letter they are written with.
   */
  ghost predicate EscapesMissTheCaret(items: seq<ClassItem>) {
    (forall item <- items :: item.Shorthand?) &&
    forall p: nat :: p <= LAST_POINT ==> (InClass(items, p) <==> p != CARET && !IsWritten(items, p))
  }

  /** A negated class is right exactly when it writes out nothing, and its escapes leave out just what is read. */
  lemma CaretIsRightExactly(items: seq<ClassItem>)
    requires ValidItems(items) && CaretStandsAlone(items)
    ensures RangesAreRight(Chars(true, items)) <==> EscapesMissTheCaret(items)
  {
    var c := Chars(true, items);
    forall p: nat ensures InRanges(ReadRanges(PrintChars(c)), p) <==> p == CARET || IsWritten(items, p) {
      CaretAlone(items, p);
    }
    hide ReadRanges, PrintChars, IsWritten;
    if RangesAreRight(c) {
      forall item | item in items ensures item.Shorthand? {
        if !item.Shorthand? { CaretIsMisread(items, item); }
      }
      forall p: nat | p <= LAST_POINT ensures InClass(items, p) <==> p != CARET && !IsWritten(items, p) {
        assert InRanges(ReadRanges(PrintChars(c)), p) <==> InChars(c, p);
      }
    } else {
      var p: nat :| p <= LAST_POINT && !(InRanges(ReadRanges(PrintChars(c)), p) <==> InChars(c, p));
      assert !(InClass(items, p) <==> p != CARET && !IsWritten(items, p));
    }
  }

  /** `^\s,;)\]}`: every character that may arm a row of an expression. */
  ghost const UNREFUSED: seq<ClassItem> := [
    Shorthand(0x73, [], iset p: nat | IsSpace(p)), One(Bare(0x2C)), One(Bare(0x3B)), One(Bare(0x29)),
    One(Quoted(RBRACKET)), One(Bare(RBRACE))]

  lemma Unrefused(p: nat)
    ensures InClass(UNREFUSED, p) <==> IsSpace(p) || p in EXPRESSION_REFUSED
    ensures IsWritten(UNREFUSED, p) <==> p == 0x73 || p in EXPRESSION_REFUSED
  {
    assert forall i :: 0 <= i < 6 ==> UNREFUSED[i] in UNREFUSED;
    assert InItem(UNREFUSED[0], p) <==> IsSpace(p);
    assert forall i :: 0 < i < 6 ==> (InItem(UNREFUSED[i], p) <==> p == EXPRESSION_REFUSED[i - 1]);
    if p in EXPRESSION_REFUSED {
      var i :| 0 <= i < 5 && EXPRESSION_REFUSED[i] == p;
      assert InItem(UNREFUSED[i + 1], p);
    }
  }

  /**
   * `^\s,;)\]}`, which validation accepts, is armed on all characters but
   * whitespace and five more, and is read as `^`, `s` and those five.
   */
  lemma CaretMisread(p: nat)
    ensures var c := Chars(true, UNREFUSED);
            ValidChars(c) && Accepted(c, EXPRESSION_REFUSED) &&
            (InChars(c, p) <==> !IsSpace(p) && p !in EXPRESSION_REFUSED) &&
            (InRanges(ReadRanges(PrintChars(c)), p) <==> p == CARET || p == 0x73 || p in EXPRESSION_REFUSED)
  {
    UnrefusedIsValid();
    UnrefusedIsAccepted();
    CaretAlone(UNREFUSED, p);
    Unrefused(p);
    hide *;
    assert InChars(Chars(true, UNREFUSED), p) <==> !InClass(UNREFUSED, p) by { InNegated(UNREFUSED, p); }
  }

  lemma InNegated(items: seq<ClassItem>, p: nat)
    ensures InChars(Chars(true, items), p) <==> !InClass(items, p)
  {
  }

  lemma UnrefusedIsValid()
    ensures ValidChars(Chars(true, UNREFUSED)) && ValidItems(UNREFUSED) && CaretStandsAlone(UNREFUSED)
  {
    hide IsSpace, PrintItems;
    assert forall i :: 0 <= i < 6 ==> ValidItem(UNREFUSED[i]) && PrintItem(UNREFUSED[i])[0] != DASH;
    assert PrintItems(UNREFUSED)[0] == BACKSLASH by { PrintsFirst(UNREFUSED); }
  }

  lemma PrintsFirst(items: seq<ClassItem>)
    requires items != []
    ensures PrintItem(items[0]) <= PrintItems(items)
  {
  }

  lemma UnrefusedIsAccepted()
    ensures Accepted(Chars(true, UNREFUSED), EXPRESSION_REFUSED)
  {
    assert PrintChars(Chars(true, UNREFUSED))[0] == CARET;
    hide PrintChars, IsSpace, InChars, InClass;
    forall p: nat | InChars(Chars(true, UNREFUSED), p) ensures !IsSpace(p) && p !in EXPRESSION_REFUSED {
      InNegated(UNREFUSED, p);
      Unrefused(p);
    }
  }

  /** The leading dashes of this class and of its spans are taken for the spans' own, each the wrong way round. */
  const EVERYTHING: seq<ClassItem> := [
    Span(Bare(DASH), Bare(LAST_POINT)), One(Bare(DASH)), Span(Bare(0), Bare(DASH)), One(Bare(0x21))]

  lemma EverythingPrints()
    ensures PrintChars(Chars(true, EVERYTHING)) == [CARET, DASH, DASH, LAST_POINT, DASH, 0, DASH, DASH, 0x21]
  {
    assert PrintItems([EVERYTHING[3]]) == [0x21];
    assert PrintItems([EVERYTHING[2], EVERYTHING[3]]) == [0, DASH, DASH, 0x21];
    assert EVERYTHING[1..] == [EVERYTHING[1]] + [EVERYTHING[2], EVERYTHING[3]];
    assert PrintItems(EVERYTHING[1..]) == [DASH, 0, DASH, DASH, 0x21];
  }

  lemma SpanByPosition(text: Text, i: nat)
    requires i + 2 < |text| && text[i + 1] == DASH && text[i] != BACKSLASH && text[i + 2] != BACKSLASH
    ensures ReadRanges(text[i..]) == [(text[i], text[i + 2])] + ReadRanges(text[i + 3..])
  {
    hide ReadRanges, RangeAt, CharAt;
    CharByPosition(text, i);
    CharByPosition(text, i + 2);
    RangeByPosition(text, i, i + 1);
    ReadStep(text, i, [], (text[i], text[i + 2]), 3);
    assert [] + ReadRanges(text[i..]) == ReadRanges(text[i..]);
    assert [] + [(text[i], text[i + 2])] == [(text[i], text[i + 2])];
  }

  lemma EverythingReads()
    ensures ReadRanges([CARET, DASH, DASH, LAST_POINT, DASH, 0, DASH, DASH, 0x21]) ==
      [(CARET, DASH), (LAST_POINT, 0), (DASH, 0x21)]
  {
    hide ReadRanges;
    var text := [CARET, DASH, DASH, LAST_POINT, DASH, 0, DASH, DASH, 0x21];
    SpanByPosition(text, 0);
    SpanByPosition(text, 3);
    SpanByPosition(text, 6);
    NothingToRead(text, 9);
    assert text[0..] == text;
  }

  /** The one way a leading `^` is right: a class of everything, negated, whose ranges are all the wrong way round. */
  lemma EverythingNegated()
    ensures ValidChars(Chars(true, EVERYTHING)) && Accepted(Chars(true, EVERYTHING), EXPRESSION_REFUSED)
    ensures RangesAreRight(Chars(true, EVERYTHING))
  {
    hide ReadRanges, PrintChars, PrintItems;
    EverythingPrints();
    EverythingReads();
    assert EVERYTHING[0] in EVERYTHING && EVERYTHING[2] in EVERYTHING;
    forall p: nat | p <= LAST_POINT ensures InClass(EVERYTHING, p) {
      assert InItem(EVERYTHING[if p < DASH then 2 else 0], p);
    }
  }
}
