/**
 * The literal text a syntax row's `match` must start with, and the check that
 * no two dialects mark the same text (packages/core/src/dialect-marks.ts).
 */
module DialectMarks {
  import opened Utf16
  import opened RegexSyntax

  // ---- splitting a source at its top-level bars

  /** A bar at depth 0 outside a class ends an alternative. */
  predicate Cuts(c: nat, depth: int, inClass: bool) { !inClass && c == BAR && depth == 0 }

  function ClassAfter(c: nat, inClass: bool): bool {
    if inClass then c != RBRACKET else c == LBRACKET
  }

  function DepthAfter(c: nat, depth: int, inClass: bool): int {
    if inClass then depth
    else if c == LPAREN then depth + 1
    else if c == RPAREN then depth - 1
    else depth
  }

  /** The rest of the scan of `alternatives`, in the state the loop has reached. */
  function Scan(s: Text, depth: int, inClass: bool, current: Text): (parts: seq<Text>)
    ensures |parts| > 0
    decreases |s|
  {
    if s == [] then [current]
    else if s[0] == BACKSLASH then
      if |s| > 1 then Scan(s[2..], depth, inClass, current + [s[0], s[1]])
      else [current + [s[0]]]
    else if Cuts(s[0], depth, inClass) then [current] + Scan(s[1..], depth, false, [])
    else Scan(s[1..], DepthAfter(s[0], depth, inClass), ClassAfter(s[0], inClass), current + [s[0]])
  }

  /** One step of the scan, told by positions in the source. */
  lemma ScanAt(source: Text, i: nat, depth: int, inClass: bool, current: Text)
    requires i <= |source|
    ensures i == |source| ==> Scan(source[i..], depth, inClass, current) == [current]
    ensures i < |source| ==>
              var c := source[i];
              Scan(source[i..], depth, inClass, current) ==
                if c == BACKSLASH then
                  if i + 1 < |source| then Scan(source[i + 2..], depth, inClass, current + [c, source[i + 1]])
                  else [current + [c]]
                else if Cuts(c, depth, inClass) then [current] + Scan(source[i + 1..], depth, false, [])
                else Scan(source[i + 1..], DepthAfter(c, depth, inClass), ClassAfter(c, inClass), current + [c])
  {
    if i < |source| {
      assert source[i..][1..] == source[i + 1..];
      assert i + 1 < |source| ==> source[i..][2..] == source[i + 2..];
    }
  }

  method Alternatives(source: Text) returns (parts: seq<Text>)
    ensures parts == Scan(source, 0, false, [])
  {
    hide Scan;
    parts := [];
    var depth, inClass, current := 0, false, [];
    var i := 0;
    while i < |source|
      invariant 0 <= i <= |source|
      invariant parts + Scan(source[i..], depth, inClass, current) == Scan(source, 0, false, [])
    {
      var c := source[i];
      ScanAt(source, i, depth, inClass, current);
      if c == BACKSLASH {
        current := current + [c];
        i := i + 1;
        if i == |source| {
          ScanAt(source, i, depth, inClass, current);
        } else {
          assert current + [source[i]] == current[..|current| - 1] + [c, source[i]];
          current := current + [source[i]];
          i := i + 1;
        }
        continue;
      }
      if inClass {
        if c == RBRACKET { inClass := false; }
      } else if c == LBRACKET {
        inClass := true;
      } else if c == LPAREN {
        depth := depth + 1;
      } else if c == RPAREN {
        depth := depth - 1;
      } else if c == BAR && depth == 0 {
        parts := parts + [current];
        current := [];
        i := i + 1;
        continue;
      }
      current := current + [c];
      i := i + 1;
    }
    ScanAt(source, i, depth, inClass, current);
    parts := parts + [current];
  }

  lemma ScanOne(c: nat, rest: Text, depth: int, inClass: bool, current: Text)
    requires c != BACKSLASH && !Cuts(c, depth, inClass)
    ensures Scan([c] + rest, depth, inClass, current)
         == Scan(rest, DepthAfter(c, depth, inClass), ClassAfter(c, inClass), current + [c])
  {
    assert ([c] + rest)[1..] == rest;
  }

  /** Text without brackets, bars and backslashes is carried over whole. */
  lemma {:induction false} ScanPlain(text: Text, rest: Text, depth: int, current: Text)
    requires forall c <- text :: c !in [BACKSLASH, LBRACKET, RBRACKET, LPAREN, RPAREN, BAR]
    ensures Scan(text + rest, depth, false, current) == Scan(rest, depth, false, current + text)
  {
    if text == [] {
      assert text + rest == rest && current + text == current;
    } else {
      assert text[0] in text && forall c <- text[1..] :: c in text;
      assert (text + rest)[1..] == text[1..] + rest;
      ScanPlain(text[1..], rest, depth, current + [text[0]]);
      assert current + [text[0]] + text[1..] == current + text;
    }
  }

  lemma ScanEscape(c: nat, rest: Text, depth: int, inClass: bool, current: Text)
    ensures Scan([BACKSLASH, c] + rest, depth, inClass, current)
         == Scan(rest, depth, inClass, current + [BACKSLASH, c])
  {
    assert ([BACKSLASH, c] + rest)[2..] == rest;
  }

  lemma {:induction false} ScanInClassPlain(text: Text, rest: Text, depth: int, current: Text)
    requires forall c <- text :: c != BACKSLASH && c != RBRACKET
    ensures Scan(text + rest, depth, true, current) == Scan(rest, depth, true, current + text)
  {
    if text == [] {
      assert text + rest == rest && current + text == current;
    } else {
      assert text[0] in text && forall c <- text[1..] :: c in text;
      assert (text + rest)[1..] == text[1..] + rest;
      ScanInClassPlain(text[1..], rest, depth, current + [text[0]]);
      assert current + [text[0]] + text[1..] == current + text;
    }
  }

  lemma ScanClassAtom(a: ClassAtom, rest: Text, depth: int, current: Text)
    requires ValidClassAtom(a)
    ensures Scan(PrintClassAtom(a) + rest, depth, true, current)
         == Scan(rest, depth, true, current + PrintClassAtom(a))
  {
    match a
    case Bare(p) => ScanInClassPlain([p], rest, depth, current);
    case Quoted(p) => ScanEscape(p, rest, depth, true, current);
  }

  lemma ScanSpan(low: ClassAtom, high: ClassAtom, rest: Text, depth: int, current: Text)
    requires ValidClassAtom(low) && ValidClassAtom(high)
    ensures Scan(PrintClassAtom(low) + ([DASH] + (PrintClassAtom(high) + rest)), depth, true, current)
         == Scan(rest, depth, true, current + PrintClassAtom(low) + [DASH] + PrintClassAtom(high))
  {
    ScanClassAtom(low, [DASH] + (PrintClassAtom(high) + rest), depth, current);
    ScanInClassPlain([DASH], PrintClassAtom(high) + rest, depth, current + PrintClassAtom(low));
    ScanClassAtom(high, rest, depth, current + PrintClassAtom(low) + [DASH]);
  }

  /** A letter escape, inside a class or outside one. */
  lemma ScanLetterEscape(letter: nat, tail: Text, rest: Text, depth: int, inClass: bool, current: Text)
    requires IsPlain(tail)
    ensures Scan([BACKSLASH, letter] + tail + rest, depth, inClass, current)
         == Scan(rest, depth, inClass, current + ([BACKSLASH, letter] + tail))
  {
    assert [BACKSLASH, letter] + tail + rest == [BACKSLASH, letter] + (tail + rest);
    ScanEscape(letter, tail + rest, depth, inClass, current);
    if inClass {
      ScanInClassPlain(tail, rest, depth, current + [BACKSLASH, letter]);
    } else {
      ScanPlain(tail, rest, depth, current + [BACKSLASH, letter]);
    }
    assert current + [BACKSLASH, letter] + tail == current + ([BACKSLASH, letter] + tail);
  }

  lemma ScanItem(item: ClassItem, rest: Text, depth: int, current: Text)
    requires ValidItem(item)
    ensures Scan(PrintItem(item) + rest, depth, true, current)
         == Scan(rest, depth, true, current + PrintItem(item))
  {
    match item
    case One(a) => ScanClassAtom(a, rest, depth, current);
    case Span(low, high) =>
      ScanSpan(low, high, rest, depth, current);
      assert PrintItem(item) + rest == PrintClassAtom(low) + ([DASH] + (PrintClassAtom(high) + rest));
      assert current + PrintClassAtom(low) + [DASH] + PrintClassAtom(high) == current + PrintItem(item);
    case Shorthand(letter, tail, _) => ScanLetterEscape(letter, tail, rest, depth, true, current);
  }

  lemma {:induction false} ScanItems(items: seq<ClassItem>, rest: Text, depth: int, current: Text)
    requires forall item <- items :: ValidItem(item)
    ensures Scan(PrintItems(items) + rest, depth, true, current)
         == Scan(rest, depth, true, current + PrintItems(items))
  {
    if items == [] {
      assert PrintItems(items) + rest == rest && current + PrintItems(items) == current;
    } else {
      var head, tail := PrintItem(items[0]), PrintItems(items[1..]);
      assert items[0] in items;
      assert head + tail + rest == head + (tail + rest);
      ScanItem(items[0], tail + rest, depth, current);
      ScanItems(items[1..], rest, depth, current + head);
      assert current + head + tail == current + (head + tail);
    }
  }

  lemma ScanClass(negated: bool, items: seq<ClassItem>, rest: Text, depth: int, current: Text)
    requires forall item <- items :: ValidItem(item)
    ensures var text := PrintAtom(Class(negated, items));
            Scan(text + rest, depth, false, current) == Scan(rest, depth, false, current + text)
  {
    var sign, body, close := if negated then [CARET] else [], PrintItems(items), [RBRACKET] + rest;
    ScanOne(LBRACKET, sign + (body + close), depth, false, current);
    ScanInClassPlain(sign, body + close, depth, current + [LBRACKET]);
    ScanItems(items, close, depth, current + [LBRACKET] + sign);
    ScanOne(RBRACKET, rest, depth, true, current + [LBRACKET] + sign + body);
    ClassPieces(sign, body, rest, current);
  }

  lemma ClassPieces(sign: Text, body: Text, rest: Text, current: Text)
    ensures [LBRACKET] + sign + body + [RBRACKET] + rest == [LBRACKET] + (sign + (body + ([RBRACKET] + rest)))
    ensures current + [LBRACKET] + sign + body + [RBRACKET] == current + ([LBRACKET] + sign + body + [RBRACKET])
  {
  }

  lemma {:induction false} ScanAtom(a: Atom, rest: Text, depth: nat, current: Text)
    requires ValidAtom(a)
    ensures Scan(PrintAtom(a) + rest, depth, false, current) == Scan(rest, depth, false, current + PrintAtom(a))
    decreases a, 1
  {
    match a
    case Literal(p) => ScanPlain([p], rest, depth, current);
    case Escaped(p) => ScanEscape(p, rest, depth, false, current);
    case LetterEscape(letter, tail, _) => ScanLetterEscape(letter, tail, rest, depth, false, current);
    case Class(negated, items) => ScanClass(negated, items, rest, depth, current);
    case AnyCharacter => ScanPlain([DOT], rest, depth, current);
    case Group(head, body) => ScanGroup(head, body, rest, depth, current);
  }

  lemma {:induction false} ScanGroup(head: Text, body: Branches, rest: Text, depth: nat, current: Text)
    requires IsPlain(head) && ValidBranches(body)
    ensures var text := [LPAREN] + head + PrintBranches(body) + [RPAREN];
            Scan(text + rest, depth, false, current) == Scan(rest, depth, false, current + text)
    decreases body, 2
  {
    var inner, close := PrintBranches(body), [RPAREN] + rest;
    var text := [LPAREN] + head + inner + [RPAREN];
    assert text + rest == [LPAREN] + (head + (inner + close));
    ScanOne(LPAREN, head + (inner + close), depth, false, current);
    ScanPlain(head, inner + close, depth + 1, current + [LPAREN]);
    ScanNested(body, close, depth + 1, current + [LPAREN] + head);
    assert close[1..] == rest;
    assert current + [LPAREN] + head + inner + [RPAREN] == current + text;
  }

  lemma ScanQuantifier(q: Quantifier, rest: Text, depth: int, current: Text)
    requires ValidQuantifier(q)
    ensures Scan(PrintQuantifier(q) + rest, depth, false, current)
         == Scan(rest, depth, false, current + PrintQuantifier(q))
  {
    ScanPlain(PrintQuantifier(q), rest, depth, current);
  }

  lemma {:induction false} ScanTerm(t: Term, rest: Text, depth: nat, current: Text)
    requires ValidTerm(t)
    ensures Scan(PrintTerm(t) + rest, depth, false, current) == Scan(rest, depth, false, current + PrintTerm(t))
    decreases t, 1
  {
    match t
    case Anchor(sign) => ScanPlain([sign], rest, depth, current);
    case Repeat(atom, quantifier) =>
      var head, tail := PrintAtom(atom), PrintQuantifier(quantifier);
      assert head + tail + rest == head + (tail + rest);
      ScanAtom(atom, tail + rest, depth, current);
      ScanQuantifier(quantifier, rest, depth, current + head);
      assert current + head + tail == current + (head + tail);
  }

  /** An alternative is carried over whole at every depth: its bars are all inside groups and classes. */
  lemma {:induction false} ScanTerms(ts: Terms, rest: Text, depth: nat, current: Text)
    requires ValidTerms(ts)
    ensures Scan(PrintTerms(ts) + rest, depth, false, current) == Scan(rest, depth, false, current + PrintTerms(ts))
    decreases ts, 1
  {
    match ts
    case End => assert PrintTerms(ts) + rest == rest && current + PrintTerms(ts) == current;
    case Then(first, others) =>
      var head, tail := PrintTerm(first), PrintTerms(others);
      assert head + tail + rest == head + (tail + rest);
      ScanTerm(first, tail + rest, depth, current);
      ScanTerms(others, rest, depth, current + head);
      assert current + head + tail == current + (head + tail);
  }

  /** Inside a group the bars of a disjunction do not split. */
  lemma {:induction false} ScanNested(bs: Branches, rest: Text, depth: nat, current: Text)
    requires ValidBranches(bs) && depth > 0
    ensures Scan(PrintBranches(bs) + rest, depth, false, current)
         == Scan(rest, depth, false, current + PrintBranches(bs))
    decreases bs, 1
  {
    match bs
    case Only(terms) => ScanTerms(terms, rest, depth, current);
    case Or(terms, others) =>
      var head, tail := PrintTerms(terms), PrintBranches(others);
      assert PrintBranches(bs) + rest == head + ([BAR] + (tail + rest));
      ScanTerms(terms, [BAR] + (tail + rest), depth, current);
      assert ([BAR] + (tail + rest))[1..] == tail + rest;
      ScanNested(others, rest, depth, current + head + [BAR]);
      assert current + head + [BAR] + tail == current + PrintBranches(bs);
  }

  function PrintEach(list: seq<Terms>): (r: seq<Text>)
    ensures |r| == |list|
  {
    if list == [] then [] else [PrintTerms(list[0])] + PrintEach(list[1..])
  }

  /** `alternatives` splits a printed disjunction exactly at its top-level bars. */
  lemma {:induction false} SplitsAtTopLevelBars(bs: Branches)
    requires ValidBranches(bs)
    ensures Scan(PrintBranches(bs), 0, false, []) == PrintEach(BranchList(bs))
  {
    match bs
    case Only(terms) =>
      ScanTerms(terms, [], 0, []);
      assert PrintTerms(terms) + [] == PrintTerms(terms) == [] + PrintTerms(terms);
    case Or(terms, others) =>
      var head, tail := PrintTerms(terms), PrintBranches(others);
      assert PrintBranches(bs) == head + ([BAR] + tail);
      ScanTerms(terms, [BAR] + tail, 0, []);
      assert [] + head == head && ([BAR] + tail)[1..] == tail;
      SplitsAtTopLevelBars(others);
      assert BranchList(bs)[1..] == BranchList(others);
  }

  // ---- the literal text one alternative starts with

  /** `?`, `*` or `{`: the literal before it may be absent from a match. */
  predicate Droppable(c: nat) { c == QUESTION || c == STAR || c == LBRACE }

  datatype Head = Stop | Take(literal: nat, width: nat)

  /** What the scan reads at the start of `s`: a literal and its width in the source, or nothing. */
  function HeadOf(s: Text): (h: Head)
    requires s != []
    ensures h.Take? ==> 1 <= h.width <= |s|
  {
    if s[0] == BACKSLASH then
      if |s| < 2 || IsAlphanumeric(s[1]) then Stop else Take(s[1], 2)
    else if IsStop(s[0]) then Stop
    else Take(s[0], 1)
  }

  function LeadFrom(s: Text): Text
    decreases |s|
  {
    if s == [] then []
    else match HeadOf(s)
      case Stop => []
      case Take(literal, width) =>
        if |s| > width && Droppable(s[width]) then [] else [literal] + LeadFrom(s[width..])
  }

  function LeadingText(s: Text): Text {
    LeadFrom(if s != [] && s[0] == CARET then s[1..] else s)
  }

  /** One step of the scan, told by positions in the whole text. */
  lemma LeadStep(points: Text, i: nat, read: Text)
    requires i < |points|
    ensures HeadOf(points[i..]).Stop? ==> LeadFrom(points[i..]) == []
    ensures HeadOf(points[i..]).Take? ==>
              var Take(literal, width) := HeadOf(points[i..]);
              if i + width < |points| && Droppable(points[i + width]) then LeadFrom(points[i..]) == []
              else read + LeadFrom(points[i..]) == (read + [literal]) + LeadFrom(points[i + width..])
  {
    if HeadOf(points[i..]).Take? {
      var Take(literal, width) := HeadOf(points[i..]);
      assert points[i..][width..] == points[i + width..];
      assert read + ([literal] + LeadFrom(points[i + width..])) == (read + [literal]) + LeadFrom(points[i + width..]);
    }
  }

  lemma LeadAtEnd(points: Text, i: nat)
    ensures i == |points| ==> LeadFrom(points[i..]) == []
  {
  }

  lemma HeadAt(points: Text, i: nat)
    requires i < |points|
    ensures HeadOf(points[i..]) ==
              if points[i] == BACKSLASH then
                if i + 1 >= |points| || IsAlphanumeric(points[i + 1]) then Stop else Take(points[i + 1], 2)
              else if IsStop(points[i]) then Stop
              else Take(points[i], 1)
  {
  }

  method AlternativePrefix(source: Text) returns (out: Text)
    ensures out == Encode(LeadingText(Points(source)))
  {
    hide HeadOf, LeadFrom, IsStop, IsAlphanumeric, Droppable, Points, EncodePoint;
    var points := Points(source);
    out := [];
    var i := 0;
    if |points| > 0 && points[0] == CARET { i := i + 1; }
    ghost var lead := LeadingText(points);
    ghost var read: Text := [];
    assert points[i..] == if i == 0 then points else points[1..];
    while i < |points|
      invariant i <= |points|
      invariant out == Encode(read)
      invariant read + LeadFrom(points[i..]) == lead
    {
      HeadAt(points, i);
      LeadStep(points, i, read);
      var c := points[i];
      var literal: nat;
      var width := 1;
      if c == BACKSLASH {
        if i + 1 >= |points| || IsAlphanumeric(points[i + 1]) { break; }
        literal := points[i + 1];
        width := 2;
      } else if IsStop(c) {
        break;
      } else {
        literal := c;
      }
      if i + width < |points| && Droppable(points[i + width]) { break; }
      EncodeConcat(read, [literal]);
      EncodeOne(literal);
      out := out + EncodePoint(literal);
      read := read + [literal];
      i := i + width;
    }
    LeadAtEnd(points, i);
    assert read + [] == read;
  }

  /** The characters an alternative's leading terms spell: literals that occur, up to the first other term. */
  function Literals(ts: Terms): Text {
    match ts
    case End => []
    case Then(first, rest) =>
      if first.Repeat? && (first.atom.Literal? || first.atom.Escaped?) then
        match first.quantifier
        case Once => [first.atom.point] + Literals(rest)
        case OneOrMore(_) => [first.atom.point]
        case _ => []
      else []
  }

  /** As `Literals`, past one leading `^`. */
  function LiteralStart(ts: Terms): Text {
    if ts.Then? && ts.first == Anchor(CARET) then Literals(ts.rest) else Literals(ts)
  }

  lemma NoQuantifierFirst(ts: Terms)
    requires ValidTerms(ts)
    ensures var s := PrintTerms(ts); s == [] || !Droppable(s[0])
  {
    match ts
    case End =>
    case Then(Anchor(sign), rest) => assert PrintTerms(ts) == [sign] + PrintTerms(rest);
    case Then(Repeat(atom, quantifier), rest) =>
      AtomStart(atom);
      hide PrintAtom, Droppable;
      var head := PrintAtom(atom);
      assert PrintTerms(ts) == head + PrintQuantifier(quantifier) + PrintTerms(rest);
      assert (head + PrintQuantifier(quantifier) + PrintTerms(rest))[0] == head[0];
  }

  lemma AtomStart(atom: Atom)
    requires ValidAtom(atom)
    ensures PrintAtom(atom) != [] && !Droppable(PrintAtom(atom)[0])
  {
    match atom
    case Literal(p) => assert PrintAtom(atom) == [p];
    case Escaped(p) => assert PrintAtom(atom) == [BACKSLASH, p];
    case LetterEscape(letter, tail, _) => assert PrintAtom(atom)[0] == BACKSLASH;
    case Class(_, _) => assert PrintAtom(atom)[0] == LBRACKET;
    case AnyCharacter => assert PrintAtom(atom) == [DOT];
    case Group(_, _) => assert PrintAtom(atom)[0] == LPAREN;
  }

  lemma HeadOfAtom(atom: Atom, rest: Text)
    requires ValidAtom(atom)
    ensures var head := PrintAtom(atom);
            HeadOf(head + rest) == if atom.Literal? || atom.Escaped? then Take(atom.point, |head|) else Stop
  {
    var head := PrintAtom(atom);
    assert (head + rest)[0] == head[0];
    if atom.Escaped? || atom.LetterEscape? {
      assert (head + rest)[1] == head[1];
    }
  }

  lemma LeadFromTerm(atom: Atom, quantifier: Quantifier, rest: Text)
    requires ValidAtom(atom) && (rest == [] || !Droppable(rest[0]))
    ensures LeadFrom(PrintAtom(atom) + (PrintQuantifier(quantifier) + rest))
         == if !atom.Literal? && !atom.Escaped? then []
            else if quantifier.Once? then [atom.point] + LeadFrom(rest)
            else if quantifier.OneOrMore? then [atom.point]
            else []
  {
    var head, tail := PrintAtom(atom), PrintQuantifier(quantifier) + rest;
    HeadOfAtom(atom, tail);
    assert (head + tail)[|head|..] == tail;
    if quantifier.Once? {
      assert tail == rest;
    } else {
      assert tail[0] == PrintQuantifier(quantifier)[0];
      assert tail[0] != BACKSLASH && IsStop(tail[0]);
    }
  }

  /** The scan reads a printed alternative exactly as its tree says. */
  lemma {:induction false} LeadFromPrinted(ts: Terms)
    requires ValidTerms(ts)
    ensures LeadFrom(PrintTerms(ts)) == Literals(ts)
  {
    match ts
    case End =>
    case Then(Anchor(sign), rest) =>
      assert PrintTerms(ts)[0] == sign;
    case Then(Repeat(atom, quantifier), rest) =>
      var head, mark, tail := PrintAtom(atom), PrintQuantifier(quantifier), PrintTerms(rest);
      assert (head + mark) + tail == head + (mark + tail);
      NoQuantifierFirst(rest);
      LeadFromTerm(atom, quantifier, tail);
      LeadFromPrinted(rest);
  }

  lemma LeadingTextPrinted(ts: Terms)
    requires ValidTerms(ts)
    ensures LeadingText(PrintTerms(ts)) == LiteralStart(ts)
  {
    LeadFromPrinted(ts);
    if ts.Then? && ts.first == Anchor(CARET) {
      LeadFromPrinted(ts.rest);
      assert PrintTerms(ts)[1..] == PrintTerms(ts.rest);
    } else if ts.Then? && ts.first.Repeat? {
      assert PrintTerms(ts)[0] == PrintAtom(ts.first.atom)[0];
    }
  }

  /** Every word an alternative matches starts with the literals that lead it. */
  lemma {:induction false} LiteralsStartEveryMatch(ts: Terms, w: Text)
    requires MatchesTerms(ts, w)
    ensures Literals(ts) <= w
  {
    if Literals(ts) != [] {
      var k :| 0 <= k <= |w| && MatchesTerm(ts.first, w[..k]) && MatchesTerms(ts.rest, w[k..]);
      var n: nat :| Allows(ts.first.quantifier, n) && MatchesTimes(ts.first.atom, n, w[..k]);
      var j :| 0 <= j <= k && MatchesAtom(ts.first.atom, w[..k][..j]) &&
        MatchesTimes(ts.first.atom, n - 1, w[..k][j..]);
      assert w[..k][..j] == [ts.first.atom.point];
      if ts.first.quantifier.Once? {
        LiteralsStartEveryMatch(ts.rest, w[k..]);
        assert w[..k][1..] == [];
        assert w == [w[0]] + w[k..];
      }
    }
  }

  lemma LiteralStartSound(ts: Terms, w: Text)
    requires MatchesTerms(ts, w)
    ensures LiteralStart(ts) <= w
  {
    if ts.Then? && ts.first == Anchor(CARET) {
      var k :| 0 <= k <= |w| && MatchesTerm(ts.first, w[..k]) && MatchesTerms(ts.rest, w[k..]);
      assert w[k..] == w;
      LiteralsStartEveryMatch(ts.rest, w);
    } else {
      LiteralsStartEveryMatch(ts, w);
    }
  }

  // ---- the prefix all alternatives share

  function CommonPrefix(a: Text, b: Text): Text {
    if a == [] || b == [] || a[0] != b[0] then [] else [a[0]] + CommonPrefix(a[1..], b[1..])
  }

  lemma {:induction false} CommonPrefixIsLongest(a: Text, b: Text, p: Text)
    ensures p <= CommonPrefix(a, b) <==> p <= a && p <= b
  {
    if a == [] || b == [] || a[0] != b[0] || p == [] {
    } else {
      CommonPrefixIsLongest(a[1..], b[1..], p[1..]);
      assert p == [p[0]] + p[1..] && a == [a[0]] + a[1..] && b == [b[0]] + b[1..];
    }
  }

  /** The shared prefix of the leading texts of all `parts`, read left to right. */
  function SharedLead(parts: seq<Text>): Text
    requires |parts| > 0
  {
    var last := Encode(LeadingText(Points(parts[|parts| - 1])));
    if |parts| == 1 then last else CommonPrefix(SharedLead(parts[..|parts| - 1]), last)
  }

  lemma SharedLeadStep(parts: seq<Text>, k: nat)
    requires 0 < k < |parts|
    ensures SharedLead(parts[..k + 1])
         == CommonPrefix(SharedLead(parts[..k]), Encode(LeadingText(Points(parts[k]))))
  {
    assert parts[..k + 1][..k] == parts[..k];
  }

  function LiteralPrefixOf(source: Text): Text { SharedLead(Scan(source, 0, false, [])) }

  method SharedStart(common: Text, each: Text) returns (shared: Text)
    ensures shared == CommonPrefix(common, each)
  {
    var n := 0;
    while n < |common| && n < |each| && common[n] == each[n]
      invariant n <= |common| && n <= |each|
      invariant common[..n] + CommonPrefix(common[n..], each[n..]) == CommonPrefix(common, each)
    {
      assert common[n..][1..] == common[n + 1..] && each[n..][1..] == each[n + 1..];
      assert common[..n] + ([common[n]] + CommonPrefix(common[n + 1..], each[n + 1..]))
          == common[..n + 1] + CommonPrefix(common[n + 1..], each[n + 1..]);
      n := n + 1;
    }
    assert CommonPrefix(common[n..], each[n..]) == [];
    shared := common[..n];
  }

  method LiteralPrefix(source: Text) returns (common: Text)
    ensures common == LiteralPrefixOf(source)
  {
    var parts := Alternatives(source);
    common := AlternativePrefix(parts[0]);
    for k := 1 to |parts|
      invariant common == SharedLead(parts[..k])
    {
      var each := AlternativePrefix(parts[k]);
      SharedLeadStep(parts, k);
      common := SharedStart(common, each);
    }
    assert parts[..|parts|] == parts;
  }

  // ---- what the literal prefix means

  function EncodeEach(parts: seq<Text>): (r: seq<Text>)
    ensures |r| == |parts|
    ensures forall i :: 0 <= i < |parts| ==> r[i] == Encode(parts[i])
  {
    seq(|parts|, i requires 0 <= i < |parts| => Encode(parts[i]))
  }

  lemma ScanEncodedPoint(point: nat, rest: Text, depth: int, inClass: bool, current: Text)
    requires Scalar(point) && point >= 0x1_0000
    ensures Scan(EncodePoint(point) + rest, depth, inClass, current)
         == Scan(rest, depth, inClass, current + EncodePoint(point))
  {
    var u := EncodePoint(point);
    EncodePointPair(point);
    assert u + rest == [u[0]] + ([u[1]] + rest);
    ScanOne(u[0], [u[1]] + rest, depth, inClass, current);
    ScanOne(u[1], rest, depth, inClass, current + [u[0]]);
    assert current + [u[0]] + [u[1]] == current + u;
  }

  lemma ScanEncodedEscape(point: nat, rest: Text, depth: int, inClass: bool, current: Text)
    requires Scalar(point)
    ensures Scan([BACKSLASH] + EncodePoint(point) + rest, depth, inClass, current)
         == Scan(rest, depth, inClass, current + ([BACKSLASH] + EncodePoint(point)))
  {
    var u := EncodePoint(point);
    if point < 0x1_0000 {
      assert [BACKSLASH] + u + rest == [BACKSLASH, point] + rest;
      ScanEscape(point, rest, depth, inClass, current);
    } else {
      EncodePointPair(point);
      assert [BACKSLASH] + u + rest == [BACKSLASH, u[0]] + ([u[1]] + rest);
      ScanEscape(u[0], [u[1]] + rest, depth, inClass, current);
      ScanOne(u[1], rest, depth, inClass, current + [BACKSLASH, u[0]]);
      assert current + [BACKSLASH, u[0]] + [u[1]] == current + ([BACKSLASH] + u);
    }
  }

  lemma EncodeAppendEach(part: Text, parts: seq<Text>)
    ensures EncodeEach([part] + parts) == [Encode(part)] + EncodeEach(parts)
  {
  }

  lemma EncodeHead(s: Text)
    requires s != [] && s[0] < 0x1_0000
    ensures Encode(s) == [s[0]] + Encode(s[1..]) && Encode(s)[0] == s[0] && Encode(s)[1..] == Encode(s[1..])
  {
    assert EncodePoint(s[0]) == [s[0]];
  }

  lemma EncodeEscape(s: Text)
    requires |s| > 1 && s[0] == BACKSLASH
    ensures Encode(s) == [BACKSLASH] + EncodePoint(s[1]) + Encode(s[2..])
    ensures Encode([s[0], s[1]]) == [BACKSLASH] + EncodePoint(s[1])
  {
    assert EncodePoint(s[0]) == [s[0]];
    hide Encode, EncodePoint;
    EncodeOne(s[0]);
    EncodeOne(s[1]);
    var two := [s[0], s[1]];
    assert two == [s[0]] + [s[1]];
    EncodeConcat([s[0]], [s[1]]);
    assert s == two + s[2..];
    EncodeConcat(two, s[2..]);
  }

  /** Splitting the stored code units splits the characters: no bar or bracket hides in a surrogate pair. */
  lemma {:induction false} ScanEncoded(s: Text, depth: int, inClass: bool, current: Text)
    requires Scalars(s)
    ensures Scan(Encode(s), depth, inClass, Encode(current)) == EncodeEach(Scan(s, depth, inClass, current))
    decreases |s|
  {
    if s == [] {
    } else if s[0] == BACKSLASH && |s| > 1 {
      assert s[1] in s;
      EncodeEscape(s);
      ScanEncodedEscape(s[1], Encode(s[2..]), depth, inClass, Encode(current));
      EncodeConcat(current, [s[0], s[1]]);
      ScanEncoded(s[2..], depth, inClass, current + [s[0], s[1]]);
    } else {
      assert s[0] in s;
      EncodeConcat(current, [s[0]]);
      assert Encode([s[0]]) == EncodePoint(s[0]);
      var next := current + [s[0]];
      if s[0] >= 0x1_0000 {
        ScanEncodedPoint(s[0], Encode(s[1..]), depth, inClass, Encode(current));
        ScanEncoded(s[1..], depth, inClass, next);
      } else {
        EncodeHead(s);
        if s[0] == BACKSLASH {
        } else if Cuts(s[0], depth, inClass) {
          ScanEncoded(s[1..], depth, false, []);
          EncodeAppendEach(current, Scan(s[1..], depth, false, []));
        } else {
          ScanEncoded(s[1..], DepthAfter(s[0], depth, inClass), ClassAfter(s[0], inClass), next);
        }
      }
    }
  }

  lemma {:induction false} SharedLeadIsLongest(parts: seq<Text>, p: Text)
    requires |parts| > 0
    ensures p <= SharedLead(parts) <==> forall i :: 0 <= i < |parts| ==> p <= Encode(LeadingText(Points(parts[i])))
  {
    hide Encode, LeadingText, Points, CommonPrefix;
    var n := |parts| - 1;
    if n > 0 {
      SharedLeadIsLongest(parts[..n], p);
      CommonPrefixIsLongest(SharedLead(parts[..n]), Encode(LeadingText(Points(parts[n]))), p);
      assert forall i :: 0 <= i < n ==> parts[..n][i] == parts[i];
    }
  }

  lemma {:induction false} PrintEachAt(list: seq<Terms>, i: nat)
    requires i < |list|
    ensures PrintEach(list)[i] == PrintTerms(list[i])
  {
    if i > 0 {
      PrintEachAt(list[1..], i - 1);
    }
  }

  lemma {:induction false} BranchListValid(bs: Branches, i: nat)
    requires ValidBranches(bs) && i < |BranchList(bs)|
    ensures ValidTerms(BranchList(bs)[i])
  {
    if bs.Or? && i > 0 {
      BranchListValid(bs.others, i - 1);
    }
  }

  function LiteralStarts(list: seq<Terms>): (r: seq<Text>)
    ensures |r| == |list|
    ensures forall i :: 0 <= i < |list| ==> r[i] == Encode(LiteralStart(list[i]))
  {
    seq(|list|, i requires 0 <= i < |list| => Encode(LiteralStart(list[i])))
  }

  /** Each printed branch is read back as the literals that lead it. */
  lemma PartLeads(bs: Branches, i: nat)
    requires ValidBranches(bs) && i < |BranchList(bs)|
    ensures Encode(LeadingText(Points(Encode(PrintEach(BranchList(bs))[i])))) == LiteralStarts(BranchList(bs))[i]
  {
    var branch := BranchList(bs)[i];
    BranchListValid(bs, i);
    PrintEachAt(BranchList(bs), i);
    PrintTermsScalars(branch);
    PointsOfEncode(PrintTerms(branch));
    LeadingTextPrinted(branch);
  }

  /** The parts of a printed source are its printed branches. */
  lemma SplitsStoredText(bs: Branches)
    requires ValidBranches(bs)
    ensures Scan(Encode(PrintBranches(bs)), 0, false, []) == EncodeEach(PrintEach(BranchList(bs)))
  {
    PrintBranchesScalars(bs);
    SplitsAtTopLevelBars(bs);
    ScanEncoded(PrintBranches(bs), 0, false, []);
  }

  /**
   * `literalPrefix` of any printed expression is the longest text that starts
   * the leading literals of every top-level alternative.
   */
  lemma LiteralPrefixExact(bs: Branches, p: Text)
    requires ValidBranches(bs)
    ensures p <= LiteralPrefixOf(Encode(PrintBranches(bs)))
       <==> forall i :: 0 <= i < |BranchList(bs)| ==> p <= LiteralStarts(BranchList(bs))[i]
  {
    hide Scan, SharedLead, Encode, LeadingText, Points, PrintBranches, ValidBranches, LiteralStarts;
    var printed := PrintEach(BranchList(bs));
    SplitsStoredText(bs);
    SharedLeadIsLongest(EncodeEach(printed), p);
    forall i | 0 <= i < |printed|
      ensures Encode(LeadingText(Points(EncodeEach(printed)[i]))) == LiteralStarts(BranchList(bs))[i]
    {
      PartLeads(bs, i);
    }
  }

  lemma {:induction false} SomeBranchMatches(bs: Branches, w: Text) returns (branch: Terms)
    requires MatchesBranches(bs, w)
    ensures branch in BranchList(bs) && MatchesTerms(branch, w)
  {
    if MatchesTerms(bs.terms, w) {
      branch := bs.terms;
    } else {
      branch := SomeBranchMatches(bs.others, w);
    }
  }

  /** `literalPrefix` is sound: whatever an expression matches starts with it. */
  lemma LiteralPrefixSound(bs: Branches, w: Text)
    requires ValidBranches(bs) && MatchesBranches(bs, w)
    ensures LiteralPrefixOf(Encode(PrintBranches(bs))) <= Encode(w)
  {
    var branch := SomeBranchMatches(bs, w);
    LiteralPrefixExact(bs, LiteralPrefixOf(Encode(PrintBranches(bs))));
    var i :| 0 <= i < |BranchList(bs)| && BranchList(bs)[i] == branch;
    assert LiteralStarts(BranchList(bs))[i] == Encode(LiteralStart(branch));
    LiteralStartSound(branch, w);
    EncodePrefix(LiteralStart(branch), w);
  }
}
