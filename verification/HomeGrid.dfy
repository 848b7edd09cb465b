/**
 * The wide layout of the home page's cards (apps/docs/scripts/home-example.ts,
 * `overviewCss`): the grid cells that headings and cards are given.
 */
module HomeGrid {

  datatype Card = Card(id: string, group: string)

  datatype Box = Heading(group: string) | CardBox(card: Card)

  /** A box in one row, in the columns `[from, to)`. */
  datatype Cell = Cell(box: Box, row: nat, from: nat, to: nat)

  predicate Overlap(a: Cell, b: Cell) { a.row == b.row && a.from < b.to && b.from < a.to }

  /** Cells that lie in the two right columns, in rows from `low` on and before `high`, and do not overlap. */
  ghost predicate Laid(cells: seq<Cell>, low: nat, high: nat) {
    (forall i :: 0 <= i < |cells| ==> low <= cells[i].row < high && 3 <= cells[i].from < cells[i].to <= 5) &&
    forall i, j :: 0 <= i < j < |cells| ==> !Overlap(cells[i], cells[j])
  }

  lemma LaidBelow(above: seq<Cell>, below: seq<Cell>, low: nat, middle: nat, high: nat)
    requires Laid(above, low, middle) && Laid(below, middle, high) && low <= middle <= high
    ensures Laid(above + below, low, high)
  {
    var all := above + below;
    forall i, j | 0 <= i < j < |all| ensures !Overlap(all[i], all[j]) {
      if i < |above| <= j {
        assert all[i].row < middle <= all[j].row;
      }
    }
  }

  function Boxes(cells: seq<Cell>): seq<Box> {
    if cells == [] then [] else Boxes(cells[..|cells| - 1]) + [cells[|cells| - 1].box]
  }

  lemma {:induction false} BoxesOfSum(a: seq<Cell>, b: seq<Cell>)
    ensures Boxes(a + b) == Boxes(a) + Boxes(b)
  {
    if b == [] {
      assert a + b == a;
    } else {
      BoxesOfSum(a, b[..|b| - 1]);
      assert (a + b)[..|a| + |b| - 1] == a + b[..|b| - 1];
    }
  }

  /** `cards.filter((card) => card.group === group)` */
  function InGroup(cards: seq<Card>, group: string): seq<Card> {
    if cards == [] then []
    else InGroup(cards[..|cards| - 1], group) + if cards[|cards| - 1].group == group then [cards[|cards| - 1]] else []
  }

  function CardBoxes(cards: seq<Card>): seq<Box> {
    if cards == [] then [] else CardBoxes(cards[..|cards| - 1]) + [CardBox(cards[|cards| - 1])]
  }

  /** A group's heading, then its cards in order. */
  function GroupBoxes(cards: seq<Card>, group: string): seq<Box> { [Heading(group)] + CardBoxes(InGroup(cards, group)) }

  function AllBoxes(cards: seq<Card>, groups: seq<string>): seq<Box> {
    if groups == [] then []
    else AllBoxes(cards, groups[..|groups| - 1]) + GroupBoxes(cards, groups[|groups| - 1])
  }

  /** `cardGroups`: each group where it first appears. */
  function CardGroups(cards: seq<Card>): (groups: seq<string>)
    ensures forall g :: g in groups <==> exists card <- cards :: card.group == g
    ensures forall i, j :: 0 <= i < j < |groups| ==> groups[i] != groups[j]
  {
    if cards == [] then []
    else
      var before, last := CardGroups(cards[..|cards| - 1]), cards[|cards| - 1];
      assert cards == cards[..|cards| - 1] + [last];
      if last.group in before then before else before + [last.group]
  }

  // ---- the boxes, told of the cards alone

  /** `own` are the cards of that group, all of them and in order. */
  ghost predicate Picks(own: seq<Card>, cards: seq<Card>, group: string, places: seq<nat>) {
    |places| == |own| &&
    (forall i :: 0 <= i < |own| ==> places[i] < |cards| && own[i] == cards[places[i]] && own[i].group == group) &&
    (forall i, j :: 0 <= i < j < |own| ==> places[i] < places[j]) &&
    forall k :: 0 <= k < |cards| && cards[k].group == group ==> k in places
  }

  lemma {:induction false} GroupInOrder(cards: seq<Card>, group: string) returns (places: seq<nat>)
    ensures Picks(InGroup(cards, group), cards, group, places)
  {
    places := [];
    if cards != [] {
      var n := |cards| - 1;
      places := GroupInOrder(cards[..n], group);
      if cards[n].group == group {
        places := places + [n];
      }
    }
  }

  /** The first card of that group. */
  ghost predicate OpensGroup(cards: seq<Card>, k: nat, group: string) {
    k < |cards| && cards[k].group == group && forall i :: 0 <= i < k ==> cards[i].group != group
  }

  ghost predicate OpenInOrder(cards: seq<Card>, groups: seq<string>) {
    forall i, j, k: nat, l: nat {:trigger OpensGroup(cards, k, groups[i]), OpensGroup(cards, l, groups[j])} ::
      0 <= i < j < |groups| && OpensGroup(cards, k, groups[i]) && OpensGroup(cards, l, groups[j]) ==> k < l
  }

  /** The groups come in the order of their first cards. */
  lemma {:induction false} GroupsInOrder(cards: seq<Card>)
    ensures OpenInOrder(cards, CardGroups(cards))
  {
    if cards != [] {
      var n := |cards| - 1;
      var before, groups := CardGroups(cards[..n]), CardGroups(cards);
      GroupsInOrder(cards[..n]);
      forall i, j, k: nat, l: nat |
        0 <= i < j < |groups| && OpensGroup(cards, k, groups[i]) && OpensGroup(cards, l, groups[j])
        ensures k < l
      {
        assert groups[i] == before[i];
        OpenedBefore(cards, before, i, k);
        if j < |before| {
          OpenedBefore(cards, before, j, l);
        } else {
          NotOpenedBefore(cards, l);
        }
      }
    }
  }

  lemma OpenedBefore(cards: seq<Card>, before: seq<string>, i: nat, k: nat)
    requires cards != [] && before == CardGroups(cards[..|cards| - 1]) && i < |before|
    requires OpensGroup(cards, k, before[i])
    ensures OpensGroup(cards[..|cards| - 1], k, before[i])
  {
    var n := |cards| - 1;
    assert before[i] in before;
    var card :| card in cards[..n] && card.group == before[i];
    var at :| 0 <= at < n && cards[..n][at] == card;
    assert cards[at].group == before[i];
  }

  /** A group that no card before the last one has is opened by the last. */
  lemma NotOpenedBefore(cards: seq<Card>, l: nat)
    requires cards != [] && cards[|cards| - 1].group !in CardGroups(cards[..|cards| - 1])
    requires OpensGroup(cards, l, cards[|cards| - 1].group)
    ensures l == |cards| - 1
  {
    var n := |cards| - 1;
    forall i | 0 <= i < n ensures cards[i].group != cards[n].group {
      assert cards[..n][i] in cards[..n];
    }
  }

  /** `starts[k]` is where the heading of the `k`th group stands among the boxes; its cards follow it. */
  ghost predicate Sections(boxes: seq<Box>, groups: seq<string>, owns: seq<seq<Card>>, starts: seq<nat>) {
    |owns| == |groups| && |starts| == |groups| + 1 && starts[0] == 0 && starts[|groups|] == |boxes| &&
    forall k :: 0 <= k < |groups| ==>
      starts[k + 1] == starts[k] + 1 + |owns[k]| && Section(boxes, starts[k], groups[k], owns[k])
  }

  ghost predicate Section(boxes: seq<Box>, start: nat, group: string, own: seq<Card>) {
    start + |own| < |boxes| && boxes[start] == Heading(group) &&
    forall i :: 0 <= i < |own| ==> boxes[start + 1 + i] == CardBox(own[i])
  }

  function Owns(cards: seq<Card>, groups: seq<string>): seq<seq<Card>> {
    seq(|groups|, k requires 0 <= k < |groups| => InGroup(cards, groups[k]))
  }

  lemma {:induction false} CardBoxAt(cards: seq<Card>)
    ensures |CardBoxes(cards)| == |cards|
    ensures forall i :: 0 <= i < |cards| ==> CardBoxes(cards)[i] == CardBox(cards[i])
  {
    if cards != [] {
      CardBoxAt(cards[..|cards| - 1]);
    }
  }

  lemma SectionStays(boxes: seq<Box>, more: seq<Box>, start: nat, group: string, own: seq<Card>)
    requires Section(boxes, start, group, own)
    ensures Section(boxes + more, start, group, own)
  {
  }

  lemma SectionAdded(boxes: seq<Box>, group: string, own: seq<Card>)
    ensures Section(boxes + ([Heading(group)] + CardBoxes(own)), |boxes|, group, own)
    ensures |[Heading(group)] + CardBoxes(own)| == 1 + |own|
  {
    CardBoxAt(own);
  }

  lemma SectionsOneMore(boxes: seq<Box>, groups: seq<string>, owns: seq<seq<Card>>, starts: seq<nat>,
      group: string, own: seq<Card>)
    requires Sections(boxes, groups, owns, starts)
    ensures Sections(boxes + ([Heading(group)] + CardBoxes(own)), groups + [group], owns + [own],
                     starts + [|boxes| + 1 + |own|])
  {
    hide Section, CardBoxes;
    SectionAdded(boxes, group, own);
    var all, starts' := boxes + ([Heading(group)] + CardBoxes(own)), starts + [|boxes| + 1 + |own|];
    forall k | 0 <= k < |groups| + 1
      ensures starts'[k + 1] == starts'[k] + 1 + |(owns + [own])[k]|
      ensures Section(all, starts'[k], (groups + [group])[k], (owns + [own])[k])
    {
      if k < |groups| {
        SectionStays(boxes, [Heading(group)] + CardBoxes(own), starts[k], groups[k], owns[k]);
      }
    }
  }

  /** The boxes are the groups one after the other: a heading, then the group's cards. */
  lemma {:induction false} BoxesInSections(cards: seq<Card>, groups: seq<string>) returns (starts: seq<nat>)
    ensures Sections(AllBoxes(cards, groups), groups, Owns(cards, groups), starts)
  {
    starts := [0];
    if groups != [] {
      hide Sections, InGroup, CardBoxes;
      var n := |groups| - 1;
      var own, boxes := InGroup(cards, groups[n]), AllBoxes(cards, groups[..n]);
      var before := BoxesInSections(cards, groups[..n]);
      starts := before + [|boxes| + 1 + |own|];
      SectionsOneMore(boxes, groups[..n], Owns(cards, groups[..n]), before, groups[n], own);
      assert groups[..n] + [groups[n]] == groups;
      assert Owns(cards, groups[..n]) + [own] == Owns(cards, groups);
    }
  }

  // ---- the cells

  /** The cell of the `index`th card of a group whose cards start in row `row`. */
  function CellOf(card: Card, index: nat, perRow: nat, row: nat): Cell
    requires perRow == 1 || perRow == 2
  {
    if perRow == 1 then Cell(CardBox(card), row + index, 3, 5)
    else Cell(CardBox(card), row + index / 2, 3 + index % 2, 4 + index % 2)
  }

  /** `Math.ceil(count / perRow)` */
  function RowsFor(count: nat, perRow: nat): nat
    requires perRow == 1 || perRow == 2
  {
    if perRow == 1 then count else (count + 1) / 2
  }

  lemma CardsOfOneGroup(one: Card, other: Card, i: nat, j: nat, perRow: nat, row: nat)
    requires (perRow == 1 || perRow == 2) && i < j
    ensures !Overlap(CellOf(one, i, perRow, row), CellOf(other, j, perRow, row))
    ensures CellOf(one, i, perRow, row).row < row + RowsFor(j, perRow)
  {
  }

  /** How a cell stands to the one before it, in a group with that many cards to a row. */
  predicate Follows(last: Cell, next: Cell, perRow: nat) {
    if next.box.Heading? then next.row == last.row + 1 && next.from == 3 && next.to == 5
    else if perRow == 1 then next.row == last.row + 1 && next.from == 3 && next.to == 5
    else if last.box.CardBox? && last.from == 3 then next.row == last.row && next.from == 4 && next.to == 5
    else next.row == last.row + 1 && next.from == 3 && next.to == 4
  }

  ghost predicate ReadOn(cells: seq<Cell>, perRow: nat) {
    forall i :: 0 <= i < |cells| - 1 ==> Follows(cells[i], cells[i + 1], perRow)
  }

  lemma CellsReadOn(own: seq<Card>, boxes: seq<Cell>, perRow: nat, heading: Cell)
    requires (perRow == 1 || perRow == 2) && |boxes| == |own|
    requires heading.box.Heading?
    requires forall k :: 0 <= k < |own| ==> boxes[k] == CellOf(own[k], k, perRow, heading.row + 1)
    ensures var cells := [heading] + boxes;
            ReadOn(cells, perRow) && cells[|cells| - 1].row + 1 == heading.row + 1 + RowsFor(|own|, perRow)
  {
  }

  /** `place`: the heading in a row of its own, the cards below it. */
  method Place(cards: seq<Card>, group: string, perRow: nat, row: nat) returns (cells: seq<Cell>, next: nat)
    requires perRow == 1 || perRow == 2
    ensures row < next && Laid(cells, row, next) && Boxes(cells) == GroupBoxes(cards, group)
    ensures cells != [] && cells[0] == Cell(Heading(group), row, 3, 5) && cells[|cells| - 1].row + 1 == next
    ensures ReadOn(cells, perRow) && (forall i :: 1 <= i < |cells| ==> cells[i].box.CardBox?)
  {
    hide InGroup, CardBoxes, CellOf, RowsFor, ReadOn;
    var own := InGroup(cards, group);
    var heading := Cell(Heading(group), row, 3, 5);
    HeadingIsLaid(heading);
    var boxes: seq<Cell> := [];
    NoBoxes(own);
    for index := 0 to |own|
      invariant |boxes| == index
      invariant forall k :: 0 <= k < index ==>
                  boxes[k] == CellOf(own[k], k, perRow, row + 1) && boxes[k].box.CardBox?
      invariant Boxes(boxes) == CardBoxes(own[..index])
    {
      OneMoreBox(own, index, boxes, CellOf(own[index], index, perRow, row + 1));
      CellHoldsCard(own[index], index, perRow, row + 1);
      boxes := boxes + [CellOf(own[index], index, perRow, row + 1)];
    }
    assert own[..|own|] == own;
    next := row + 1 + RowsFor(|own|, perRow);
    hide Laid, Boxes;
    CellsAreLaid(own, boxes, perRow, row + 1);
    LaidBelow([heading], boxes, row, row + 1, next);
    CellsReadOn(own, boxes, perRow, heading);
    cells := [heading] + boxes;
    BoxesOfSum([heading], boxes);
  }

  lemma HeadingIsLaid(heading: Cell)
    requires heading.from == 3 && heading.to == 5
    ensures Laid([heading], heading.row, heading.row + 1) && Boxes([heading]) == [heading.box]
  {
    assert [heading][..0] == [];
  }

  lemma NoBoxes(cards: seq<Card>)
    ensures Boxes([]) == CardBoxes(cards[..0])
  {
  }

  lemma CellHoldsCard(card: Card, index: nat, perRow: nat, row: nat)
    requires perRow == 1 || perRow == 2
    ensures CellOf(card, index, perRow, row).box == CardBox(card)
  {
  }

  lemma OneMoreBox(cards: seq<Card>, index: nat, boxes: seq<Cell>, cell: Cell)
    requires index < |cards| && Boxes(boxes) == CardBoxes(cards[..index])
    ensures cell.box == CardBox(cards[index]) ==> Boxes(boxes + [cell]) == CardBoxes(cards[..index + 1])
  {
    assert (boxes + [cell])[..|boxes|] == boxes && cards[..index + 1][..index] == cards[..index];
  }

  lemma CellsAreLaid(own: seq<Card>, boxes: seq<Cell>, perRow: nat, row: nat)
    requires (perRow == 1 || perRow == 2) && |boxes| == |own|
    requires forall k :: 0 <= k < |own| ==> boxes[k] == CellOf(own[k], k, perRow, row)
    ensures Laid(boxes, row, row + RowsFor(|own|, perRow))
  {
    forall i | 0 <= i < |boxes|
      ensures row <= boxes[i].row < row + RowsFor(|own|, perRow) && 3 <= boxes[i].from < boxes[i].to <= 5 {
      CardsOfOneGroup(own[i], own[i], i, |own|, perRow, row);
      assert boxes[i] == CellOf(own[i], i, perRow, row);
    }
    forall i, j | 0 <= i < j < |boxes| ensures !Overlap(boxes[i], boxes[j]) {
      CardsOfOneGroup(own[i], own[j], i, j, perRow, row);
    }
  }

  /** The first `first` cells are read with a card to a row, those after them with two. */
  ghost predicate ReadInOrder(cells: seq<Cell>, first: nat) {
    first <= |cells| &&
    (forall i :: 0 <= i < first - 1 ==> Follows(cells[i], cells[i + 1], 1)) &&
    forall i :: 0 <= i < |cells| - 1 && first <= i + 1 ==> Follows(cells[i], cells[i + 1], 2)
  }

  /**
   * The grid from its first heading on, whose first `first` cells are that
   * heading and its cards; `rows` is the row after the last.
   */
  ghost predicate Grid(cells: seq<Cell>, first: nat, rows: nat) {
    ReadInOrder(cells, first) &&
    (forall i :: 1 <= i < first ==> cells[i].box.CardBox?) &&
    (first < |cells| ==> cells[first].box.Heading?) &&
    (if cells == [] then rows == 1
     else first > 0 && cells[0].box.Heading? && cells[0] == Cell(cells[0].box, 1, 3, 5) &&
          rows == cells[|cells| - 1].row + 1)
  }

  lemma NoGrid()
    ensures Grid([], 0, 1)
  {
  }

  lemma FirstIsRead(cells: seq<Cell>)
    requires ReadOn(cells, 1) && cells != [] && cells[0].box.Heading? && cells[0] == Cell(cells[0].box, 1, 3, 5)
    requires forall i :: 1 <= i < |cells| ==> cells[i].box.CardBox?
    ensures Grid(cells, |cells|, cells[|cells| - 1].row + 1)
  {
  }

  lemma ReadOnFurther(cells: seq<Cell>, first: nat, rows: nat, more: seq<Cell>)
    requires cells != [] && Grid(cells, first, rows) && more != [] && ReadOn(more, 2)
    requires more[0].box.Heading? && more[0] == Cell(more[0].box, rows, 3, 5)
    ensures Grid(cells + more, first, more[|more| - 1].row + 1)
  {
    var all := cells + more;
    forall i | 0 <= i < |all| - 1 && first <= i + 1 ensures Follows(all[i], all[i + 1], 2) {
      if i >= |cells| {
        assert Follows(more[i - |cells|], more[i - |cells| + 1], 2);
      } else if i + 1 < |cells| {
        assert Follows(cells[i], cells[i + 1], 2);
      }
    }
  }

  /**
   * The whole grid: each group's heading and cards once, in order, in the two
   * columns beside the file, and no two boxes in one cell. It is read row by
   * row: a card of the first group takes a row, two of any other share one.
   */
  method Layout(cards: seq<Card>) returns (cells: seq<Cell>, rows: nat, ghost first: nat)
    ensures Laid(cells, 1, rows) && Boxes(cells) == AllBoxes(cards, CardGroups(cards))
    ensures Grid(cells, first, rows)
  {
    hide *;
    var groups := CardGroups(cards);
    NothingLaid();
    NoGrid();
    cells, rows, first := [], 1, 0;
    for k := 0 to |groups|
      invariant 1 <= rows && Laid(cells, 1, rows)
      invariant Boxes(cells) == AllBoxes(cards, groups[..k])
      invariant cells == [] <==> k == 0
      invariant k == 0 ==> rows == 1
      invariant Grid(cells, first, rows)
    {
      var more, next := Place(cards, groups[k], if k == 0 then 1 else 2, rows);
      LaidBelow(cells, more, 1, rows, next);
      BoxesOfSum(cells, more);
      GroupAfter(cards, groups, k);
      if k == 0 {
        FirstIsRead(more);
        first := |more|;
        assert cells + more == more;
      } else {
        ReadOnFurther(cells, first, rows, more);
      }
      cells, rows := cells + more, next;
    }
    assert groups[..|groups|] == groups;
  }

  lemma NothingLaid()
    ensures Laid([], 1, 1) && Boxes([]) == [] && forall cards :: AllBoxes(cards, []) == []
  {
  }

  lemma GroupAfter(cards: seq<Card>, groups: seq<string>, k: nat)
    requires k < |groups|
    ensures AllBoxes(cards, groups[..k + 1]) == AllBoxes(cards, groups[..k]) + GroupBoxes(cards, groups[k])
  {
    hide GroupBoxes;
    assert groups[..k + 1][..k] == groups[..k];
  }

  /** Every card has its box. */
  lemma {:induction false} EveryCardIsLaid(cards: seq<Card>, groups: seq<string>, card: Card)
    requires card in cards && card.group in groups
    ensures CardBox(card) in AllBoxes(cards, groups)
    decreases |groups|
  {
    var n := |groups| - 1;
    assert groups == groups[..n] + [groups[n]];
    if card.group == groups[n] {
      InItsGroup(cards, card);
      BoxOf(InGroup(cards, card.group), card);
    } else {
      EveryCardIsLaid(cards, groups[..n], card);
    }
  }

  lemma {:induction false} InItsGroup(cards: seq<Card>, card: Card)
    requires card in cards
    ensures card in InGroup(cards, card.group)
  {
    var n := |cards| - 1;
    assert cards == cards[..n] + [cards[n]];
    if card != cards[n] {
      InItsGroup(cards[..n], card);
    }
  }

  lemma {:induction false} BoxOf(cards: seq<Card>, card: Card)
    requires card in cards
    ensures CardBox(card) in CardBoxes(cards)
  {
    var n := |cards| - 1;
    assert cards == cards[..n] + [cards[n]];
    if card != cards[n] {
      BoxOf(cards[..n], card);
    }
  }
}
