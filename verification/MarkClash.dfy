/**
 * The marks of a dialect's rows and the search for one that two tables share
 * (packages/core/src/dialect-marks.ts).
 */
module MarkClash {
  import opened Utf16
  import opened ClassRanges
  import opened RegexSyntax
  import opened Wrappers
  import DialectMarks

  // ---- marks

  datatype ListName = ExpressionTriggers | AttributeTriggers | LineTriggers | ValueTriggers | TextTriggers

  /** A row; `chars` or `match` is absent when it is not a string. */
  datatype Row = Row(id: string, chars: Option<Text>, source: Option<Text>)

  datatype Table = Table(
    expression: seq<Row>, attribute: seq<Row>, line: seq<Row>, value: seq<Row>, text: seq<Row>)
  {
    function Rows(list: ListName): seq<Row> {
      match list
      case ExpressionTriggers => expression
      case AttributeTriggers => attribute
      case LineTriggers => line
      case ValueTriggers => value
      case TextTriggers => text
    }
  }

  const LISTS := [ExpressionTriggers, AttributeTriggers, LineTriggers, ValueTriggers, TextTriggers]

  datatype Mark = Mark(row: string, list: ListName, index: int, prefix: Text, ranges: seq<Range>)

  function MarkOf(row: Row, list: ListName, index: nat): Option<Mark> {
    if row.chars.None? || row.source.None? then None
    else
      var prefix := DialectMarks.LiteralPrefixOf(row.source.value);
      Some(Mark(row.id, list, index, prefix, if prefix == [] then ReadRanges(Points(row.chars.value)) else []))
  }

  function RowMarks(rows: seq<Row>, list: ListName): seq<Mark> {
    if rows == [] then []
    else
      var last := |rows| - 1;
      RowMarks(rows[..last], list) +
      match MarkOf(rows[last], list, last) { case None => [] case Some(mark) => [mark] }
  }

  function TableMarks(table: Table, lists: seq<ListName>): seq<Mark> {
    if lists == [] then []
    else TableMarks(table, lists[..|lists| - 1]) + RowMarks(table.Rows(lists[|lists| - 1]), lists[|lists| - 1])
  }

  /** The marks of a table in list and row order; none without a table. */
  function Marks(table: Option<Table>): seq<Mark> {
    if table.None? then [] else TableMarks(table.value, LISTS)
  }

  lemma MarksStart(table: Table, lists: seq<ListName>)
    ensures TableMarks(table, lists[..0]) == [] && forall list :: RowMarks([], list) == []
  {
  }

  lemma TableMarksStep(table: Table, lists: seq<ListName>, l: nat)
    requires l < |lists|
    ensures TableMarks(table, lists[..l + 1]) ==
      TableMarks(table, lists[..l]) + RowMarks(table.Rows(lists[l]), lists[l])
  {
    assert lists[..l + 1][..l] == lists[..l];
  }

  lemma RowMarksStep(rows: seq<Row>, list: ListName, index: nat)
    requires index < |rows|
    ensures var mark := MarkOf(rows[index], list, index);
            RowMarks(rows[..index + 1], list) == RowMarks(rows[..index], list) + if mark.Some? then [mark.value] else []
  {
    hide MarkOf;
    assert rows[..index + 1][..index] == rows[..index];
  }

  method MarksOf(table: Option<Table>) returns (marks: seq<Mark>)
    ensures marks == Marks(table)
  {
    hide RowMarks, TableMarks;
    marks := [];
    if table.None? { return; }
    MarksStart(table.value, LISTS);
    for l := 0 to |LISTS|
      invariant marks == TableMarks(table.value, LISTS[..l])
    {
      var rows := table.value.Rows(LISTS[l]);
      ghost var before := marks;
      TableMarksStep(table.value, LISTS, l);
      MarksStart(table.value, LISTS);
      assert rows[..0] == [] && before + [] == before;
      for index := 0 to |rows|
        invariant marks == before + RowMarks(rows[..index], LISTS[l])
      {
        var row := rows[index];
        RowMarksStep(rows, LISTS[l], index);
        if row.chars.None? || row.source.None? { continue; }
        var prefix := DialectMarks.LiteralPrefix(row.source.value);
        var ranges := [];
        if prefix == [] { ranges := RangesOf(row.chars.value); }
        marks := marks + [Mark(row.id, LISTS[l], index, prefix, ranges)];
      }
      assert rows[..|rows|] == rows;
    }
    assert LISTS[..|LISTS|] == LISTS;
  }

  // ---- the marks, told of the table alone

  function Rank(list: ListName): nat {
    match list
    case ExpressionTriggers => 0
    case AttributeTriggers => 1
    case LineTriggers => 2
    case ValueTriggers => 3
    case TextTriggers => 4
  }

  predicate Before(a: Mark, b: Mark) {
    Rank(a.list) < Rank(b.list) || (a.list == b.list && a.index < b.index)
  }

  /** The mark of the row at its index, whose armed characters and whose match are both strings. */
  ghost predicate MarksRow(mark: Mark, rows: seq<Row>) {
    0 <= mark.index < |rows| &&
    var row := rows[mark.index];
    row.chars.Some? && row.source.Some? && mark.row == row.id &&
    mark.prefix == DialectMarks.LiteralPrefixOf(row.source.value) &&
    mark.ranges == if mark.prefix == [] then ReadRanges(Points(row.chars.value)) else []
  }

  ghost predicate IsMarkOf(mark: Mark, table: Table) {
    match mark.list
    case ExpressionTriggers => MarksRow(mark, table.expression)
    case AttributeTriggers => MarksRow(mark, table.attribute)
    case LineTriggers => MarksRow(mark, table.line)
    case ValueTriggers => MarksRow(mark, table.value)
    case TextTriggers => MarksRow(mark, table.text)
  }

  ghost predicate Ordered(marks: seq<Mark>) { forall i, j :: 0 <= i < j < |marks| ==> Before(marks[i], marks[j]) }

  lemma {:induction false} RowMarksAre(rows: seq<Row>, list: ListName)
    ensures Ordered(RowMarks(rows, list))
    ensures forall mark :: mark in RowMarks(rows, list) <==> mark.list == list && MarksRow(mark, rows)
  {
    if rows != [] {
      var n := |rows| - 1;
      RowMarksAre(rows[..n], list);
      var own := MarkOf(rows[n], list, n);
      forall mark: Mark ensures mark in RowMarks(rows, list) <==> mark.list == list && MarksRow(mark, rows) {
        assert mark in RowMarks(rows, list) <==> mark in RowMarks(rows[..n], list) || own == Some(mark);
        assert own == Some(mark) <==> mark.list == list && mark.index == n && MarksRow(mark, rows);
      }
    }
  }

  lemma {:induction false} TableMarksAre(table: Table, lists: seq<ListName>)
    requires forall i, j :: 0 <= i < j < |lists| ==> Rank(lists[i]) < Rank(lists[j])
    ensures Ordered(TableMarks(table, lists))
    ensures forall mark :: mark in TableMarks(table, lists) <==> mark.list in lists && IsMarkOf(mark, table)
  {
    hide RowMarks, MarksRow;
    if lists != [] {
      var n := |lists| - 1;
      TableMarksAre(table, lists[..n]);
      RowMarksAre(table.Rows(lists[n]), lists[n]);
      var before, own := TableMarks(table, lists[..n]), RowMarks(table.Rows(lists[n]), lists[n]);
      assert forall mark <- before + own :: mark in before || mark in own;
      forall mark: Mark ensures mark in before + own <==> mark.list in lists && IsMarkOf(mark, table) {
        assert mark.list in lists <==> mark.list in lists[..n] || mark.list == lists[n];
      }
    }
  }

  /** Every row of every list with both strings has its mark, and nothing else has; they come in list and row order. */
  lemma MarksAreTheRows(table: Table)
    ensures Ordered(Marks(Some(table)))
    ensures forall mark :: mark in Marks(Some(table)) <==> IsMarkOf(mark, table)
  {
    hide TableMarks, IsMarkOf;
    TableMarksAre(table, LISTS);
    forall mark: Mark ensures mark.list in LISTS {
      assert mark.list == LISTS[Rank(mark.list)];
    }
  }

  function HasCode(mark: Mark, code: nat): bool { InRanges(mark.ranges, code) }

  /**
   * When two marks are identical, as the module's comment defines it: the same
   * literal, two sets that share a character, or a literal that is one
   * character of the other's set.
   */
  ghost predicate Identical(a: Mark, b: Mark) {
    if a.prefix != [] && b.prefix != [] then a.prefix == b.prefix
    else if a.prefix == [] && b.prefix == [] then exists p: nat :: HasCode(a, p) && HasCode(b, p)
    else
      var (prefixed, set') := if a.prefix != [] then (a, b) else (b, a);
      |Points(prefixed.prefix)| == 1 && HasCode(set', Points(prefixed.prefix)[0])
  }

  /** The text two identical marks share. */
  ghost predicate Shares(a: Mark, b: Mark, text: Text) {
    if a.prefix == [] && b.prefix == [] then exists p: nat :: text == EncodePoint(p) && HasCode(a, p) && HasCode(b, p)
    else text == (if a.prefix != [] then a.prefix else b.prefix)
  }

  method Overlap(a: Mark, b: Mark) returns (text: Option<Text>)
    ensures text.Some? <==> Identical(a, b)
    ensures text.Some? ==> Shares(a, b, text.value)
  {
    if a.prefix != [] && b.prefix != [] {
      return if a.prefix == b.prefix then Some(a.prefix) else None;
    }
    if a.prefix == [] && b.prefix == [] {
      for i := 0 to |a.ranges|
        invariant forall k, p: nat :: 0 <= k < i && Covers(a.ranges[k], p) ==> !HasCode(b, p)
      {
        var (from, to') := a.ranges[i];
        for j := 0 to |b.ranges|
          invariant forall k, p: nat :: 0 <= k < j && Covers(a.ranges[i], p) ==> !Covers(b.ranges[k], p)
        {
          var (from2, to2) := b.ranges[j];
          var low := if from < from2 then from2 else from;
          if low <= (if to' < to2 then to' else to2) {
            assert a.ranges[i] in a.ranges && b.ranges[j] in b.ranges;
            assert Covers(a.ranges[i], low) && Covers(b.ranges[j], low);
            assert HasCode(a, low) && HasCode(b, low);
            return Some(EncodePoint(low));
          }
        }
      }
      return None;
    }
    var prefixed, set' := if a.prefix != [] then a else b, if a.prefix != [] then b else a;
    var points := Points(prefixed.prefix);
    if |points| != 1 { return None; }
    return if HasCode(set', points[0]) then Some(prefixed.prefix) else None;
  }

  datatype MarkOverlap = MarkOverlap(mark: Text, first: (string, ListName), second: (string, ListName))

  /** The pair `(i, j)` is the first, row by row, whose marks are identical. */
  ghost predicate FirstIdentical(as': seq<Mark>, bs: seq<Mark>, i: nat, j: nat) {
    i < |as'| && j < |bs| && Identical(as'[i], bs[j]) &&
    (forall x, y :: 0 <= x < i && 0 <= y < |bs| ==> !Identical(as'[x], bs[y])) &&
    (forall y :: 0 <= y < j ==> !Identical(as'[i], bs[y]))
  }

  method FindMarkOverlap(first: Option<Table>, second: Option<Table>)
    returns (r: Option<MarkOverlap>, ghost i: nat, ghost j: nat)
    ensures r.None? <==> forall x, y :: 0 <= x < |Marks(first)| && 0 <= y < |Marks(second)| ==>
              !Identical(Marks(first)[x], Marks(second)[y])
    ensures r.Some? ==> FirstIdentical(Marks(first), Marks(second), i, j)
    ensures r.Some? ==>
              var a, b := Marks(first)[i], Marks(second)[j];
              Shares(a, b, r.value.mark) && r.value.first == (a.row, a.list) && r.value.second == (b.row, b.list)
  {
    hide Identical, Shares, Marks;
    i, j := 0, 0;
    var others := MarksOf(second);
    var owns := MarksOf(first);
    for x := 0 to |owns|
      invariant forall u, v :: 0 <= u < x && 0 <= v < |others| ==> !Identical(owns[u], others[v])
    {
      for y := 0 to |others|
        invariant forall v :: 0 <= v < y ==> !Identical(owns[x], others[v])
      {
        var mark := Overlap(owns[x], others[y]);
        if mark.Some? {
          i, j := x, y;
          r := Some(MarkOverlap(mark.value, (owns[x].row, owns[x].list), (others[y].row, others[y].list)));
          return;
        }
      }
    }
    r := None;
  }

  // ---- core's own marks

  /** A mark's prefix and a mark of core's that one starts with the other. */
  ghost predicate Comparable(a: Text, b: Text) { a <= b || b <= a }

  /** `sharedText` against core's mark `core`, which has a prefix and no ranges. */
  ghost predicate SharesCoreText(own: Mark, core: Text)
    requires core != []
  {
    if own.prefix != [] then Comparable(own.prefix, core) else HasCode(own, Points(core)[0])
  }

  method SharedText(own: Mark, core: Text) returns (text: Option<Text>)
    requires core != []
    ensures text.Some? <==> SharesCoreText(own, core)
    ensures text.Some? && own.prefix != [] ==>
              text.value <= own.prefix && text.value <= core && (text.value == own.prefix || text.value == core)
    ensures text.Some? && own.prefix == [] ==> text.value == EncodePoint(Points(core)[0])
  {
    if own.prefix != [] {
      return if core <= own.prefix then Some(core) else if own.prefix <= core then Some(own.prefix) else None;
    }
    var first := Points(core)[0];
    return if HasCode(own, first) then Some(EncodePoint(first)) else None;
  }

  /** `CORE_MARKS`: what the parser reads itself at the start of a name in the attribute list. */
  function CoreMarks(list: ListName): seq<Text> {
    if list.AttributeTriggers? then [[DOT, DOT, DOT], [BAR]] else []
  }

  datatype CoreMarkClash = CoreMarkClash(list: ListName, index: int, row: string, mark: Text, coreMark: Text)

  ghost predicate ClashesWithCore(own: Mark) {
    exists core <- CoreMarks(own.list) :: core != [] && SharesCoreText(own, core)
  }

  /** Only a mark of the attribute list clashes, with a text that starts `...` or with `|`. */
  lemma ClashIsWithDotsOrBar(own: Mark)
    ensures ClashesWithCore(own) <==>
      own.list == AttributeTriggers && (SharesCoreText(own, [DOT, DOT, DOT]) || SharesCoreText(own, [BAR]))
  {
    hide SharesCoreText;
    assert [DOT, DOT, DOT] in CoreMarks(AttributeTriggers) && [BAR] in CoreMarks(AttributeTriggers);
  }

  method FindCoreMarkClash(table: Option<Table>) returns (r: Option<CoreMarkClash>)
    ensures r.None? <==> forall own <- Marks(table) :: !ClashesWithCore(own)
    ensures r.Some? ==>
              exists i :: 0 <= i < |Marks(table)| &&
                var own := Marks(table)[i];
                (forall k :: 0 <= k < i ==> !ClashesWithCore(Marks(table)[k])) &&
                r.value.coreMark in CoreMarks(own.list) && r.value.coreMark != [] &&
                SharesCoreText(own, r.value.coreMark) &&
                r.value.list == own.list && r.value.index == own.index && r.value.row == own.row
  {
    hide SharesCoreText, Marks;
    var owns := MarksOf(table);
    for i := 0 to |owns|
      invariant forall k :: 0 <= k < i ==> !ClashesWithCore(owns[k])
    {
      var own := owns[i];
      var cores := CoreMarks(own.list);
      for j := 0 to |cores|
        invariant forall k :: 0 <= k < j ==> !SharesCoreText(own, cores[k])
      {
        var mark := SharedText(own, cores[j]);
        if mark.Some? {
          assert cores[j] in cores && owns[i] in owns && ClashesWithCore(own);
          return Some(CoreMarkClash(own.list, own.index, own.row, mark.value, cores[j]));
        }
      }
    }
    r := None;
  }

  /**
   * Why the check keeps a row alive: where a row with a literal mark that
   * clashes with no mark of core's matches, whatever text follows, core reads
   * nothing first.
   */
  lemma NoClashNeverShadowed(row: Row, bs: Branches, index: nat, core: Text, w: Text, rest: Text)
    requires ValidBranches(bs) && row.chars.Some? && row.source == Some(Encode(PrintBranches(bs)))
    requires core in CoreMarks(AttributeTriggers) && MatchesBranches(bs, w)
    requires var own := MarkOf(row, AttributeTriggers, index).value;
             own.prefix != [] && !ClashesWithCore(own)
    ensures !(core <= Encode(w) + rest)
  {
    DialectMarks.LiteralPrefixSound(bs, w);
    var prefix := DialectMarks.LiteralPrefixOf(Encode(PrintBranches(bs)));
    assert prefix <= Encode(w) + rest;
    PrefixesComparable(prefix, core, Encode(w) + rest);
  }

  /** The same for a row without a literal mark: core reads nothing where the row is armed. */
  lemma NoClashNeverArmedOnCore(row: Row, c: Chars, index: nat, core: Text, p: nat, rest: Text)
    requires ValidChars(c) && RangesAreRight(c)
    requires row.chars == Some(Encode(PrintChars(c))) && row.source.Some?
    requires core in CoreMarks(AttributeTriggers) && Scalar(p) && InChars(c, p)
    requires var own := MarkOf(row, AttributeTriggers, index).value;
             own.prefix == [] && !ClashesWithCore(own)
    ensures !(core <= EncodePoint(p) + rest)
  {
    var own := MarkOf(row, AttributeTriggers, index).value;
    PrintCharsScalars(c);
    PointsOfEncode(PrintChars(c));
    assert InRanges(own.ranges, p);
    assert !SharesCoreText(own, core);
    assert Points(core)[0] == core[0];
  }

  lemma PrintCharsScalars(c: Chars)
    requires ValidChars(c)
    ensures Scalars(PrintChars(c))
  {
    PrintItemsScalars(c.items);
  }

  lemma PrefixesComparable(a: Text, b: Text, w: Text)
    ensures a <= w && b <= w ==> Comparable(a, b)
  {
    if a <= w && b <= w {
      if |a| <= |b| {
        assert a == w[..|a|] == b[..|a|];
      } else {
        assert b == w[..|b|] == a[..|b|];
      }
    }
  }

  /** And why a reported row is dead when its mark starts with core's: core reads every text it would match. */
  lemma ClashNeverFires(bs: Branches, core: Text, w: Text)
    requires ValidBranches(bs) && MatchesBranches(bs, w)
    requires core <= DialectMarks.LiteralPrefixOf(Encode(PrintBranches(bs)))
    ensures core <= Encode(w)
  {
    DialectMarks.LiteralPrefixSound(bs, w);
  }

  /**
   * Two rows with literal marks that do not clash and are not prefixes of one
   * another never match the same text.
   */
  lemma IncomparableMarksMatchApart(first: Branches, second: Branches, w: Text)
    requires ValidBranches(first) && ValidBranches(second)
    requires !Comparable(DialectMarks.LiteralPrefixOf(Encode(PrintBranches(first))),
                         DialectMarks.LiteralPrefixOf(Encode(PrintBranches(second))))
    ensures !(MatchesBranches(first, w) && MatchesBranches(second, w))
  {
    var p := DialectMarks.LiteralPrefixOf(Encode(PrintBranches(first)));
    var q := DialectMarks.LiteralPrefixOf(Encode(PrintBranches(second)));
    PrefixesComparable(p, q, Encode(w));
    if MatchesBranches(first, w) {
      DialectMarks.LiteralPrefixSound(first, w);
    }
    if MatchesBranches(second, w) {
      DialectMarks.LiteralPrefixSound(second, w);
    }
  }
}
