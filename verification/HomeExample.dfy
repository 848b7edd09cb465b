/**
 * The home page's example (apps/docs/scripts/home-example.ts): which markers
 * are accepted, and the markup that shows the text with its markers.
 */
module HomeExample {
  import opened Wrappers
  import opened CoreText
  import opened Utf16

  /** A 1-based line and half-open columns in it. */
  datatype Range = Range(line: int, from: int, to: int)

  datatype Marker = Marker(id: string, caption: string, href: string, text: Text, ranges: seq<Range>, covers: seq<Text>)

  // ---- validation

  /** `text.slice(from, to)`: negative bounds count from the end. */
  function SliceFromEnd(text: Text, from: int, to: int): Text {
    var n := |text|;
    Slice(text, if from < 0 then Max(0, n + from) else from, if to < 0 then Max(0, n + to) else to)
  }

  /** A negative bound counts from the end, a bound past either end is that end, and crossed bounds give nothing. */
  lemma SliceCounts(text: Text, from: int, to: int)
    ensures 0 <= from <= to <= |text| ==> SliceFromEnd(text, from, to) == text[from..to]
    ensures -|text| <= from < 0 ==> SliceFromEnd(text, from, to) == SliceFromEnd(text, |text| + from, to)
    ensures -|text| <= to < 0 ==> SliceFromEnd(text, from, to) == SliceFromEnd(text, from, |text| + to)
    ensures from < -|text| ==> SliceFromEnd(text, from, to) == SliceFromEnd(text, 0, to)
    ensures to > |text| ==> SliceFromEnd(text, from, to) == SliceFromEnd(text, from, |text|)
    ensures to < -|text| || from > |text| || (0 <= to < from) ==> SliceFromEnd(text, from, to) == []
  {
  }

  function LineOf(lines: seq<Text>, line: int): Option<Text> {
    if 1 <= line <= |lines| then Some(lines[line - 1]) else None
  }

  function TextOf(lines: seq<Text>, range: Range): Text {
    var line := LineOf(lines, range.line);
    SliceFromEnd(if line == None then [] else line.value, range.from, range.to)
  }

  function Texts(lines: seq<Text>, ranges: seq<Range>): seq<Text> {
    if ranges == [] then [] else Texts(lines, ranges[..|ranges| - 1]) + [TextOf(lines, ranges[|ranges| - 1])]
  }

  predicate IsTextOf(lines: seq<Text>, range: Range, text: Text) {
    InBounds(lines, range) && text == lines[range.line - 1][range.from..range.to]
  }

  lemma TextInBounds(lines: seq<Text>, range: Range)
    requires InBounds(lines, range)
    ensures IsTextOf(lines, range, TextOf(lines, range))
  {
  }

  /** The texts of ranges in bounds are what stands in their lines between their columns, range by range. */
  lemma {:induction false} TextsInBounds(lines: seq<Text>, ranges: seq<Range>)
    requires AllInBounds(lines, ranges)
    ensures |Texts(lines, ranges)| == |ranges|
    ensures forall i :: 0 <= i < |ranges| ==> IsTextOf(lines, ranges[i], Texts(lines, ranges)[i])
  {
    hide IsTextOf, TextOf, InBounds;
    if ranges != [] {
      var n := |ranges| - 1;
      TextsInBounds(lines, ranges[..n]);
      TextInBounds(lines, ranges[n]);
    }
  }

  function MatchedText(lines: seq<Text>, marker: Marker): Text { Join(Texts(lines, marker.ranges)) }

  predicate Includes(text: Text, part: Text) { exists at :: 0 <= at <= |text| && part <= text[at..] }

  /** `part` is somewhere in the text, whatever is around it. */
  lemma IncludesIsInside(text: Text, part: Text)
    ensures Includes(text, part) <==> exists before, after :: text == before + part + after
  {
    if at :| 0 <= at <= |text| && part <= text[at..] {
      assert text == text[..at] + part + text[at + |part|..];
    }
    if before, after :| text == before + part + after {
      assert text[|before|..] == part + after;
    }
  }

  datatype Problem =
    | Duplicate(id: string) | NoCaption(id: string) | NotAPage(id: string) | NoSuchPage(id: string)
    | NoRange(id: string)
    | PastTheEnd(id: string, range: Range) | OutOfBounds(id: string, range: Range)
    | Overlaps(id: string, owner: string, range: Range) | Drifted(id: string) | NotCovered(id: string, expected: Text)

  /** What a link's address and the page it names are checked by. */
  datatype Links = Links(isPage: string -> bool, exist: string -> bool)

  predicate InBounds(lines: seq<Text>, range: Range) {
    1 <= range.line <= |lines| && 0 <= range.from < range.to <= |lines[range.line - 1]|
  }

  predicate Meet(a: Range, b: Range) { a.line == b.line && a.from < b.to && b.from < a.to }

  predicate Disjoint(ranges: seq<Range>) { forall i, j :: 0 <= i < j < |ranges| ==> !Meet(ranges[i], ranges[j]) }

  /** The ranges of all the markers, in order. */
  function AllRanges(markers: seq<Marker>): seq<Range> {
    if markers == [] then [] else AllRanges(markers[..|markers| - 1]) + markers[|markers| - 1].ranges
  }

  predicate Sound(lines: seq<Text>, marker: Marker, links: Links) {
    marker.caption != "" && links.isPage(marker.href) && links.exist(marker.href) && marker.ranges != [] &&
    MatchedText(lines, marker) == marker.text &&
    forall part :: part in marker.covers ==> Includes(MatchedText(lines, marker), part)
  }

  predicate AllInBounds(lines: seq<Text>, ranges: seq<Range>) {
    forall k :: 0 <= k < |ranges| ==> InBounds(lines, ranges[k])
  }

  predicate DistinctIds(markers: seq<Marker>) {
    forall i, j :: 0 <= i < j < |markers| ==> markers[i].id != markers[j].id
  }

  predicate Accepted(lines: seq<Text>, markers: seq<Marker>, links: Links) {
    DistinctIds(markers) &&
    (forall i :: 0 <= i < |markers| ==> Sound(lines, markers[i], links)) &&
    AllInBounds(lines, AllRanges(markers)) && Disjoint(AllRanges(markers))
  }

  datatype Claim = Claim(from: int, to: int, owner: string)

  function ClaimsOn(claimed: map<int, seq<Claim>>, line: int): seq<Claim> {
    if line in claimed then claimed[line] else []
  }

  predicate Claimed(claimed: map<int, seq<Claim>>, range: Range) {
    exists k :: 0 <= k < |ClaimsOn(claimed, range.line)| &&
                ClaimsOn(claimed, range.line)[k].from == range.from && ClaimsOn(claimed, range.line)[k].to == range.to
  }

  /** The claims are those of the ranges placed so far. */
  ghost predicate Records(claimed: map<int, seq<Claim>>, placed: seq<Range>) {
    forall range :: range in placed <==> Claimed(claimed, range)
  }

  method ValidateRange(
      lines: seq<Text>, id: string, range: Range, claimed: map<int, seq<Claim>>, ghost placed: seq<Range>)
    returns (problems: seq<Problem>, claimed': map<int, seq<Claim>>, ghost placed': seq<Range>)
    requires Records(claimed, placed)
    ensures Records(claimed', placed')
    ensures problems == [] <==> InBounds(lines, range) && forall k :: 0 <= k < |placed| ==> !Meet(placed[k], range)
    ensures problems == [] ==> placed' == placed + [range]
  {
    problems, claimed', placed' := [], claimed, placed;
    var line := LineOf(lines, range.line);
    if line == None {
      problems := [PastTheEnd(id, range)];
    } else if range.from < 0 || range.to > |line.value| || range.from >= range.to {
      problems := [OutOfBounds(id, range)];
    } else {
      var claims := ClaimsOn(claimed, range.line);
      for k := 0 to |claims|
        invariant problems == [] <==>
          forall j :: 0 <= j < k ==> !(range.from < claims[j].to && claims[j].from < range.to)
      {
        if range.from < claims[k].to && claims[k].from < range.to {
          problems := problems + [Overlaps(id, claims[k].owner, range)];
        }
      }
      claimed' := claimed[range.line := claims + [Claim(range.from, range.to, id)]];
      placed' := placed + [range];
      PlacedAreClaims(claimed, placed, range);
      ClaimAdded(claimed, placed, range, id);
    }
  }

  /** A range meets a placed one exactly when it meets a claim on its line. */
  lemma PlacedAreClaims(claimed: map<int, seq<Claim>>, placed: seq<Range>, range: Range)
    requires Records(claimed, placed)
    ensures var claims := ClaimsOn(claimed, range.line);
            (forall k :: 0 <= k < |placed| ==> !Meet(placed[k], range)) <==>
            (forall j :: 0 <= j < |claims| ==> !(range.from < claims[j].to && claims[j].from < range.to))
  {
    var claims := ClaimsOn(claimed, range.line);
    if j :| 0 <= j < |claims| && range.from < claims[j].to && claims[j].from < range.to {
      var met := Range(range.line, claims[j].from, claims[j].to);
      assert Claimed(claimed, met);
      assert met in placed && Meet(met, range);
    }
    if k :| 0 <= k < |placed| && Meet(placed[k], range) {
      assert placed[k] in placed && Claimed(claimed, placed[k]);
    }
  }

  lemma ClaimAdded(claimed: map<int, seq<Claim>>, placed: seq<Range>, range: Range, id: string)
    requires Records(claimed, placed)
    ensures Records(
      claimed[range.line := ClaimsOn(claimed, range.line) + [Claim(range.from, range.to, id)]], placed + [range])
  {
    var before := ClaimsOn(claimed, range.line);
    var after := before + [Claim(range.from, range.to, id)];
    var claimed' := claimed[range.line := after];
    assert after[|before|] == Claim(range.from, range.to, id);
    forall other ensures other in placed + [range] <==> Claimed(claimed', other) {
      if other.line == range.line {
        assert ClaimsOn(claimed', other.line) == after;
        if Claimed(claimed, other) {
          var k :| 0 <= k < |before| && before[k].from == other.from && before[k].to == other.to;
          assert after[k] == before[k];
        }
        if Claimed(claimed', other) {
          var k :| 0 <= k < |after| && after[k].from == other.from && after[k].to == other.to;
          assert k < |before| ==> before[k] == after[k] && Claimed(claimed, other);
          assert k == |before| ==> other == range;
        }
      } else {
        assert ClaimsOn(claimed', other.line) == ClaimsOn(claimed, other.line);
      }
    }
  }

  /** None of the ranges meets a placed one or an earlier one of its own. */
  predicate NoneMeet(placed: seq<Range>, ranges: seq<Range>) {
    forall j, k :: 0 <= j < |placed| + k && 0 <= k < |ranges| ==> !Meet((placed + ranges)[j], ranges[k])
  }

  lemma NoneMeetStep(placed: seq<Range>, ranges: seq<Range>, r: nat)
    requires r < |ranges|
    ensures NoneMeet(placed, ranges[..r + 1]) <==>
            NoneMeet(placed, ranges[..r]) &&
            forall j :: 0 <= j < |placed| + r ==> !Meet((placed + ranges[..r])[j], ranges[r])
  {
    var less, more := placed + ranges[..r], placed + ranges[..r + 1];
    assert forall j :: 0 <= j < |less| ==> less[j] == more[j];
    assert forall k :: 0 <= k < r ==> ranges[..r][k] == ranges[..r + 1][k];
    assert ranges[..r + 1][r] == ranges[r];
  }

  method ValidateRanges(
      lines: seq<Text>, id: string, ranges: seq<Range>, claimed: map<int, seq<Claim>>, ghost placed: seq<Range>)
    returns (problems: seq<Problem>, claimed': map<int, seq<Claim>>, ghost placed': seq<Range>)
    requires Records(claimed, placed)
    ensures Records(claimed', placed')
    ensures problems == [] <==> AllInBounds(lines, ranges) && NoneMeet(placed, ranges)
    ensures problems == [] ==> placed' == placed + ranges
  {
    hide InBounds, Records;
    problems, claimed', placed' := [], claimed, placed;
    for r := 0 to |ranges|
      invariant Records(claimed', placed')
      invariant problems == [] <==> AllInBounds(lines, ranges[..r]) && NoneMeet(placed, ranges[..r])
      invariant problems == [] ==> placed' == placed + ranges[..r]
    {
      var own;
      own, claimed', placed' := ValidateRange(lines, id, ranges[r], claimed', placed');
      NoneMeetStep(placed, ranges, r);
      assert ranges[..r + 1] == ranges[..r] + [ranges[r]];
      problems := problems + own;
    }
    assert ranges[..|ranges|] == ranges;
  }

  method ValidateMarker(lines: seq<Text>, marker: Marker, links: Links, duplicate: bool,
                        claimed: map<int, seq<Claim>>, ghost placed: seq<Range>)
    returns (problems: seq<Problem>, claimed': map<int, seq<Claim>>, ghost placed': seq<Range>)
    requires Records(claimed, placed)
    ensures Records(claimed', placed')
    ensures problems == [] <==> !duplicate && Sound(lines, marker, links) &&
                                AllInBounds(lines, marker.ranges) && NoneMeet(placed, marker.ranges)
    ensures problems == [] ==> placed' == placed + marker.ranges
  {
    hide AllInBounds, NoneMeet, Records, MatchedText;
    problems, claimed', placed' := [], claimed, placed;
    if duplicate { problems := [Duplicate(marker.id)]; }
    if marker.caption == "" { problems := problems + [NoCaption(marker.id)]; }
    if !links.isPage(marker.href) { problems := problems + [NotAPage(marker.id)]; }
    if !links.exist(marker.href) { problems := problems + [NoSuchPage(marker.id)]; }
    if marker.ranges == [] {
      problems := problems + [NoRange(marker.id)];
      return;
    }
    var ranged;
    ranged, claimed', placed' := ValidateRanges(lines, marker.id, marker.ranges, claimed, placed);
    problems := problems + ranged;
    var matched := MatchedText(lines, marker);
    if matched != marker.text { problems := problems + [Drifted(marker.id)]; }
    ghost var before := problems;
    for k := 0 to |marker.covers|
      invariant problems == [] <==> before == [] && forall j :: 0 <= j < k ==> Includes(matched, marker.covers[j])
    {
      if !Includes(matched, marker.covers[k]) {
        problems := problems + [NotCovered(marker.id, marker.covers[k])];
      }
    }
  }

  lemma AcceptedStep(lines: seq<Text>, markers: seq<Marker>, i: nat, links: Links)
    requires i < |markers|
    ensures Accepted(lines, markers[..i + 1], links) <==>
            Accepted(lines, markers[..i], links) && (forall j :: 0 <= j < i ==> markers[j].id != markers[i].id) &&
            Sound(lines, markers[i], links) && AllInBounds(lines, markers[i].ranges) &&
            NoneMeet(AllRanges(markers[..i]), markers[i].ranges)
  {
    hide Sound, InBounds, Meet;
    var before, after := markers[..i], markers[..i + 1];
    assert after == before + [markers[i]] && after[..i] == before;
    var placed, ranges := AllRanges(before), markers[i].ranges;
    assert AllRanges(after) == placed + ranges;
    DisjointSum(placed, ranges);
    assert DistinctIds(after) <==> DistinctIds(before) && forall j :: 0 <= j < i ==> markers[j].id != markers[i].id;
    assert (forall k :: 0 <= k < |after| ==> Sound(lines, after[k], links)) <==>
           (forall k :: 0 <= k < |before| ==> Sound(lines, before[k], links)) && Sound(lines, after[i], links);
    InBoundsSum(lines, placed, ranges);
  }

  lemma InBoundsSum(lines: seq<Text>, placed: seq<Range>, ranges: seq<Range>)
    ensures AllInBounds(lines, placed + ranges) <==> AllInBounds(lines, placed) && AllInBounds(lines, ranges)
  {
    hide InBounds;
    var all := placed + ranges;
    assert forall k :: 0 <= k < |placed| ==> all[k] == placed[k];
    assert forall k :: 0 <= k < |ranges| ==> all[|placed| + k] == ranges[k];
  }

  lemma DisjointSum(placed: seq<Range>, ranges: seq<Range>)
    ensures Disjoint(placed + ranges) <==> Disjoint(placed) && NoneMeet(placed, ranges)
  {
    hide Meet;
    var all := placed + ranges;
    assert forall k :: 0 <= k < |placed| ==> all[k] == placed[k];
    assert forall k :: 0 <= k < |ranges| ==> all[|placed| + k] == ranges[k];
    if Disjoint(placed) && NoneMeet(placed, ranges) {
      forall i, j | 0 <= i < j < |all| ensures !Meet(all[i], all[j]) {
        if j >= |placed| {
          assert all[j] == ranges[j - |placed|];
        }
      }
    }
  }

  /** No problem is reported exactly for markers that are sound, in bounds and pairwise apart. */
  method Validate(lines: seq<Text>, markers: seq<Marker>, links: Links) returns (problems: seq<Problem>)
    ensures problems == [] <==> Accepted(lines, markers, links)
  {
    hide Accepted, Sound, AllInBounds, NoneMeet;
    problems := [];
    var seen: set<string> := {};
    var claimed: map<int, seq<Claim>> := map[];
    ghost var placed: seq<Range> := [];
    NothingIsAccepted(lines, links);
    for i := 0 to |markers|
      invariant problems == [] <==> Accepted(lines, markers[..i], links)
      invariant forall id :: id in seen <==> exists j :: 0 <= j < i && markers[j].id == id
      invariant Records(claimed, placed)
      invariant problems == [] ==> placed == AllRanges(markers[..i])
    {
      var own;
      own, claimed, placed := ValidateMarker(lines, markers[i], links, markers[i].id in seen, claimed, placed);
      seen := seen + {markers[i].id};
      AcceptedStep(lines, markers, i, links);
      assert markers[..i + 1][..i] == markers[..i];
      problems := problems + own;
    }
    assert markers[..|markers|] == markers;
  }

  lemma NothingIsAccepted(lines: seq<Text>, links: Links)
    ensures Accepted(lines, [], links) && Records(map[], [])
  {
  }
}
