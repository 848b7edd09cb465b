/**
 * Suggestions for misspelled names (packages/core/src/did-you-mean.ts): the
 * table of edit distances, and the choice of the one nearest candidate.
 */
module DidYouMean {
  import opened Utf16
  import opened Wrappers

  // ---- alignments

  /** One column of an alignment of two strings. */
  datatype Edit = Keep(c: nat) | Delete(c: nat) | Insert(c: nat) | Substitute(c: nat, put: nat) | Swap(c: nat, d: nat)
  {
    function Source(): Text {
      match this
      case Insert(_) => []
      case Swap(x, y) => [x, y]
      case _ => [c]
    }

    function Target(): Text {
      match this
      case Delete(_) => []
      case Substitute(_, put) => [put]
      case Swap(x, y) => [y, x]
      case _ => [c]
    }

    function Cost(): nat { if Keep? then 0 else 1 }
  }

  function SourceOf(edits: seq<Edit>): Text {
    if edits == [] then [] else SourceOf(edits[..|edits| - 1]) + edits[|edits| - 1].Source()
  }

  function TargetOf(edits: seq<Edit>): Text {
    if edits == [] then [] else TargetOf(edits[..|edits| - 1]) + edits[|edits| - 1].Target()
  }

  function CostOf(edits: seq<Edit>): nat {
    if edits == [] then 0 else CostOf(edits[..|edits| - 1]) + edits[|edits| - 1].Cost()
  }

  ghost predicate Aligns(edits: seq<Edit>, a: Text, b: Text) { SourceOf(edits) == a && TargetOf(edits) == b }

  // ---- the distance

  function Min(x: nat, y: nat): nat { if y < x then y else x }

  predicate Swapped(a: Text, b: Text, i: nat, j: nat)
    requires i <= |a| && j <= |b|
  {
    i > 1 && j > 1 && a[i - 1] == b[j - 2] && a[i - 2] == b[j - 1]
  }

  /** The table's entry for the first `i` characters of `a` and the first `j` of `b`. */
  function Entry(a: Text, b: Text, i: nat, j: nat): nat
    requires i <= |a| && j <= |b|
    decreases i + j
  {
    if i == 0 then j
    else if j == 0 then i
    else
      var cost := if a[i - 1] == b[j - 1] then 0 else 1;
      var plain := Min(Min(Entry(a, b, i - 1, j) + 1, Entry(a, b, i, j - 1) + 1), Entry(a, b, i - 1, j - 1) + cost);
      if Swapped(a, b, i, j) then Min(plain, Entry(a, b, i - 2, j - 2) + 1) else plain
  }

  /** One step of the table's recurrence; at the edges it only counts. */
  lemma EntryStep(a: Text, b: Text, i: nat, j: nat)
    requires i <= |a| && j <= |b|
    ensures i == 0 ==> Entry(a, b, i, j) == j
    ensures j == 0 ==> Entry(a, b, i, j) == i
    ensures i > 0 && j > 0 ==>
              var cost := if a[i - 1] == b[j - 1] then 0 else 1;
              var plain :=
                Min(Min(Entry(a, b, i - 1, j) + 1, Entry(a, b, i, j - 1) + 1), Entry(a, b, i - 1, j - 1) + cost);
              Entry(a, b, i, j) == if Swapped(a, b, i, j) then Min(plain, Entry(a, b, i - 2, j - 2) + 1) else plain
  {
    hide Min, Swapped;
  }

  function Osa(a: Text, b: Text): nat { Entry(a, b, |a|, |b|) }

  method Distance(a: Text, b: Text) returns (distance: nat)
    ensures distance == Osa(a, b)
  {
    hide Entry;
    var rows := new nat[|a| + 1, |b| + 1];
    for i := 0 to |a| + 1
      invariant forall k :: 0 <= k < i ==> rows[k, 0] == k
      invariant forall j :: 0 <= j <= |b| && i > 0 ==> rows[0, j] == j
    {
      rows[i, 0] := i;
      for j := 1 to |b| + 1
        invariant forall k :: 0 <= k <= i ==> rows[k, 0] == k
        invariant forall k :: 0 <= k < j && i == 0 ==> rows[0, k] == k
        invariant forall k :: 0 <= k <= |b| && i > 0 ==> rows[0, k] == k
      {
        rows[i, j] := if i == 0 then j else 0;
      }
    }
    forall j | 0 <= j <= |b| ensures Entry(a, b, 0, j) == j { EntryStep(a, b, 0, j); }
    for i := 1 to |a| + 1
      invariant forall k :: 0 <= k <= |a| ==> rows[k, 0] == k
      invariant forall k, j :: 0 <= k < i && 0 <= j <= |b| ==> rows[k, j] == Entry(a, b, k, j)
    {
      EntryStep(a, b, i, 0);
      for j := 1 to |b| + 1
        invariant forall k :: 0 <= k <= |a| ==> rows[k, 0] == k
        invariant forall k, l :: 0 <= k < i && 0 <= l <= |b| ==> rows[k, l] == Entry(a, b, k, l)
        invariant forall l :: 0 <= l < j ==> rows[i, l] == Entry(a, b, i, l)
      {
        EntryStep(a, b, i, j);
        var cost := if a[i - 1] == b[j - 1] then 0 else 1;
        rows[i, j] := Min(Min(rows[i - 1, j] + 1, rows[i, j - 1] + 1), rows[i - 1, j - 1] + cost);
        if i > 1 && j > 1 && a[i - 1] == b[j - 2] && a[i - 2] == b[j - 1] {
          rows[i, j] := Min(rows[i, j], rows[i - 2, j - 2] + 1);
        }
      }
    }
    distance := rows[|a|, |b|];
  }

  lemma Empty()
    ensures Aligns([], [], []) && CostOf([]) == 0
  {
  }

  lemma Extend(edits: seq<Edit>, edit: Edit)
    ensures SourceOf(edits + [edit]) == SourceOf(edits) + edit.Source()
    ensures TargetOf(edits + [edit]) == TargetOf(edits) + edit.Target()
    ensures CostOf(edits + [edit]) == CostOf(edits) + edit.Cost()
  {
    assert (edits + [edit])[..|edits|] == edits;
  }

  /** The last column of a cheapest alignment of two prefixes. */
  function LastOf(a: Text, b: Text, i: nat, j: nat): Edit
    requires i <= |a| && j <= |b| && (i > 0 || j > 0)
  {
    var entry := Entry(a, b, i, j);
    if i == 0 || (j > 0 && entry == Entry(a, b, i, j - 1) + 1) then Insert(b[j - 1])
    else if j == 0 || entry == Entry(a, b, i - 1, j) + 1 then Delete(a[i - 1])
    else if Swapped(a, b, i, j) && entry == Entry(a, b, i - 2, j - 2) + 1 then Swap(a[i - 2], a[i - 1])
    else if a[i - 1] == b[j - 1] then Keep(a[i - 1])
    else Substitute(a[i - 1], b[j - 1])
  }

  lemma LastReaches(a: Text, b: Text, i: nat, j: nat)
    requires i <= |a| && j <= |b| && (i > 0 || j > 0)
    ensures var last := LastOf(a, b, i, j);
            var m, n := i - |last.Source()|, j - |last.Target()|;
            0 <= m && 0 <= n && m + n < i + j && Entry(a, b, i, j) == Entry(a, b, m, n) + last.Cost()
  {
    hide Entry;
    EntryStep(a, b, i, j);
    if i == 0 { EntryStep(a, b, i, j - 1); }
    if j == 0 { EntryStep(a, b, i - 1, j); }
  }

  lemma LastSpells(a: Text, b: Text, i: nat, j: nat)
    requires i <= |a| && j <= |b| && (i > 0 || j > 0)
    ensures var last := LastOf(a, b, i, j);
            var m, n := i - |last.Source()|, j - |last.Target()|;
            0 <= m && 0 <= n && a[..i] == a[..m] + last.Source() && b[..j] == b[..n] + last.Target()
  {
    hide Entry;
  }

  /** Each entry is the cost of some alignment of the two prefixes. */
  lemma {:induction false} EntryIsReached(a: Text, b: Text, i: nat, j: nat) returns (edits: seq<Edit>)
    requires i <= |a| && j <= |b|
    ensures Aligns(edits, a[..i], b[..j]) && CostOf(edits) == Entry(a, b, i, j)
    decreases i + j
  {
    if i == 0 && j == 0 {
      Empty();
      return [];
    }
    hide *;
    var last := LastOf(a, b, i, j);
    LastReaches(a, b, i, j);
    LastSpells(a, b, i, j);
    var rest := EntryIsReached(a, b, i - |last.Source()|, j - |last.Target()|);
    edits := rest + [last];
    AlignsOneMore(rest, last, a[..i - |last.Source()|], b[..j - |last.Target()|]);
  }

  lemma AlignsOneMore(edits: seq<Edit>, last: Edit, a: Text, b: Text)
    requires Aligns(edits, a, b)
    ensures Aligns(edits + [last], a + last.Source(), b + last.Target()) &&
      CostOf(edits + [last]) == CostOf(edits) + last.Cost()
  {
    Extend(edits, last);
  }

  /** No alignment of the two prefixes costs less. */
  lemma {:induction false} EntryIsLeast(a: Text, b: Text, i: nat, j: nat, edits: seq<Edit>)
    requires i <= |a| && j <= |b| && Aligns(edits, a[..i], b[..j])
    ensures Entry(a, b, i, j) <= CostOf(edits)
    decreases |edits|
  {
    if edits != [] {
      hide *;
      var rest, last := edits[..|edits| - 1], edits[|edits| - 1];
      TakeApart(a, b, i, j, edits);
      EntryIsLeast(a, b, i - |last.Source()|, j - |last.Target()|, rest);
      LastEdit(a, b, i, j, last);
    } else {
      EntryStep(a, b, i, j);
    }
  }

  lemma TakeApart(a: Text, b: Text, i: nat, j: nat, edits: seq<Edit>)
    requires i <= |a| && j <= |b| && Aligns(edits, a[..i], b[..j]) && edits != []
    ensures var rest, last := edits[..|edits| - 1], edits[|edits| - 1];
            var m, n := i - |last.Source()|, j - |last.Target()|;
            0 <= m && 0 <= n && Aligns(rest, a[..m], b[..n]) && CostOf(edits) == CostOf(rest) + last.Cost() &&
            a[m..i] == last.Source() && b[n..j] == last.Target()
  {
    var rest, last := edits[..|edits| - 1], edits[|edits| - 1];
    SplitPrefix(a, i, SourceOf(rest), last.Source());
    SplitPrefix(b, j, TargetOf(rest), last.Target());
  }

  lemma SplitPrefix(text: Text, i: nat, front: Text, back: Text)
    requires i <= |text| && text[..i] == front + back
    ensures i == |front| + |back| && text[..i - |back|] == front && text[i - |back|..i] == back
  {
    assert i == |text[..i]| == |front| + |back|;
    assert text[..i][..|front|] == text[..|front|];
    assert text[..i][|front|..] == text[|front|..i];
  }

  lemma LastEdit(a: Text, b: Text, i: nat, j: nat, last: Edit)
    requires |last.Source()| <= i <= |a| && |last.Target()| <= j <= |b|
    requires a[i - |last.Source()|..i] == last.Source() && b[j - |last.Target()|..j] == last.Target()
    ensures Entry(a, b, i, j) <= Entry(a, b, i - |last.Source()|, j - |last.Target()|) + last.Cost()
  {
    hide Entry;
    EntryStep(a, b, i, j);
    match last
    case Keep(c) => assert a[i - 1..i][0] == c && b[j - 1..j][0] == c;
    case Delete(c) => if j == 0 { EntryStep(a, b, i - 1, j); }
    case Insert(c) => if i == 0 { EntryStep(a, b, i, j - 1); }
    case Substitute(c, put) =>
    case Swap(x, y) =>
      assert a[i - 2..i][0] == x && a[i - 2..i][1] == y && b[j - 2..j][0] == y && b[j - 2..j][1] == x;
  }

  /** The distance is the least cost of an alignment. */
  lemma DistanceIsLeastCost(a: Text, b: Text)
    ensures exists edits :: Aligns(edits, a, b) && CostOf(edits) == Osa(a, b)
    ensures forall edits :: Aligns(edits, a, b) ==> Osa(a, b) <= CostOf(edits)
  {
    assert a[..|a|] == a && b[..|b|] == b;
    var edits := EntryIsReached(a, b, |a|, |b|);
    forall edits | Aligns(edits, a, b) ensures Osa(a, b) <= CostOf(edits) {
      EntryIsLeast(a, b, |a|, |b|, edits);
    }
  }

  /** The distance does not depend on which text is the misspelled one. */
  lemma DistanceIsSymmetric(a: Text, b: Text)
    ensures Osa(a, b) == Osa(b, a)
  {
    ReversedIsNoFurther(a, b);
    ReversedIsNoFurther(b, a);
  }

  lemma ReversedIsNoFurther(a: Text, b: Text)
    ensures Osa(b, a) <= Osa(a, b)
  {
    DistanceIsLeastCost(a, b);
    DistanceIsLeastCost(b, a);
    var edits :| Aligns(edits, a, b) && CostOf(edits) == Osa(a, b);
    ReversedAligns(edits);
    assert Aligns(Reversed(edits), b, a);
  }

  function Back(edit: Edit): Edit {
    match edit
    case Keep(c) => Keep(c)
    case Delete(c) => Insert(c)
    case Insert(c) => Delete(c)
    case Substitute(c, put) => Substitute(put, c)
    case Swap(c, d) => Swap(d, c)
  }

  /** The alignment read the other way. */
  function Reversed(edits: seq<Edit>): seq<Edit> {
    if edits == [] then [] else Reversed(edits[..|edits| - 1]) + [Back(edits[|edits| - 1])]
  }

  lemma {:induction false} ReversedAligns(edits: seq<Edit>)
    ensures Aligns(Reversed(edits), TargetOf(edits), SourceOf(edits)) && CostOf(Reversed(edits)) == CostOf(edits)
  {
    if edits != [] {
      ReversedAligns(edits[..|edits| - 1]);
      Extend(Reversed(edits[..|edits| - 1]), Back(edits[|edits| - 1]));
    }
  }

  lemma {:induction false} NothingToDo(edits: seq<Edit>)
    requires CostOf(edits) == 0
    ensures SourceOf(edits) == TargetOf(edits)
  {
    if edits != [] {
      NothingToDo(edits[..|edits| - 1]);
    }
  }

  lemma {:induction false} KeepAll(a: Text) returns (edits: seq<Edit>)
    ensures Aligns(edits, a, a) && CostOf(edits) == 0
  {
    if a == [] {
      Empty();
      return [];
    }
    var rest := KeepAll(a[..|a| - 1]);
    Extend(rest, Keep(a[|a| - 1]));
    edits := rest + [Keep(a[|a| - 1])];
  }

  /** Only a text and itself are at distance 0. */
  lemma ZeroMeansEqual(a: Text, b: Text)
    ensures Osa(a, b) == 0 <==> a == b
  {
    DistanceIsLeastCost(a, b);
    if Osa(a, b) == 0 {
      var edits :| Aligns(edits, a, b) && CostOf(edits) == 0;
      NothingToDo(edits);
    }
    if a == b {
      var edits := KeepAll(a);
    }
  }

  // ---- the nearest name

  /** `new Set(candidates)`, in the order it is iterated. */
  function Distinct(candidates: seq<Text>): (distinct: seq<Text>)
    ensures forall c :: c in distinct <==> c in candidates
    ensures forall i, j :: 0 <= i < j < |distinct| ==> distinct[i] != distinct[j]
  {
    if candidates == [] then []
    else
      var before, last := Distinct(candidates[..|candidates| - 1]), candidates[|candidates| - 1];
      assert candidates == candidates[..|candidates| - 1] + [last];
      if last in before then before else before + [last]
  }

  function Limit(name: Text): nat { if |name| >= 5 then 2 else 1 }

  /** How far a candidate is from the name, both in lower case. */
  function Away(name: Text, candidate: Text, lower: Text -> Text): nat { Osa(lower(name), lower(candidate)) }

  /** `best` is within the limit and every other candidate is further off. */
  ghost predicate Nearest(name: Text, candidates: set<Text>, lower: Text -> Text, best: Text) {
    best in candidates && best != name && Away(name, best, lower) <= Limit(name) &&
    forall c :: c in candidates && c != name && c != best ==> Away(name, best, lower) < Away(name, c, lower)
  }

  method NearestName(name: Text, candidates: seq<Text>, lower: Text -> Text) returns (result: Option<Text>)
    ensures |name| < 3 ==> result == None
    ensures |name| >= 3 ==> forall c :: result == Some(c) <==> Nearest(name, (set x | x in candidates), lower, c)
  {
    if |name| < 3 { return None; }
    hide Osa, Distinct, Away, Nearest;
    assert Limit(name) == if |name| >= 5 then 2 else 1;
    var limit := if |name| >= 5 then 2 else 1;
    var lowered := lower(name);
    var best: Option<Text> := None;
    var bestDistance := limit + 1;
    var tied := false;
    var distinct := Distinct(candidates);
    for i := 0 to |distinct|
      invariant best == None ==> bestDistance == limit + 1 && !tied
      invariant best.Some? ==> best.value in distinct[..i] && best.value != name && bestDistance <= limit
      invariant best.Some? ==> bestDistance == Away(name, best.value, lower)
      invariant forall k :: 0 <= k < i && distinct[k] != name ==> bestDistance <= Away(name, distinct[k], lower)
      invariant tied ==> exists k :: 0 <= k < i && Rivals(name, distinct[k], best, lower)
      invariant !tied ==> forall k :: 0 <= k < i ==> !Rivals(name, distinct[k], best, lower)
    {
      var candidate := distinct[i];
      if candidate == name { continue; }
      var d := Distance(lowered, lower(candidate));
      assert d == Away(name, candidate, lower) by { AwayIsDistance(name, candidate, lower); }
      if d < bestDistance {
        best := Some(candidate);
        bestDistance := d;
        tied := false;
      } else if d == bestDistance && best != None {
        tied := true;
      }
    }
    result := if tied then None else best;
    NearestAmong(name, candidates, distinct, lower, best, tied);
  }

  lemma AwayIsDistance(name: Text, candidate: Text, lower: Text -> Text)
    ensures Away(name, candidate, lower) == Osa(lower(name), lower(candidate))
  {
    hide Osa;
  }

  /** What the loop has found at its end. */
  lemma NearestAmong(
      name: Text, candidates: seq<Text>, distinct: seq<Text>, lower: Text -> Text, best: Option<Text>, tied: bool)
    requires forall c :: c in distinct <==> c in candidates
    requires best == None ==> !tied
    requires best == None ==>
      forall k :: 0 <= k < |distinct| && distinct[k] != name ==> Limit(name) < Away(name, distinct[k], lower)
    requires best.Some? ==> best.value in distinct && best.value != name && Away(name, best.value, lower) <= Limit(name)
    requires best.Some? ==>
               forall k :: 0 <= k < |distinct| && distinct[k] != name ==>
                 Away(name, best.value, lower) <= Away(name, distinct[k], lower)
    requires tied <==> exists k :: 0 <= k < |distinct| && Rivals(name, distinct[k], best, lower)
    ensures forall c :: (if tied then None else best) == Some(c) <==> Nearest(name, (set x | x in candidates), lower, c)
  {
    hide Away;
  }

  /** Another candidate just as near as the best one. */
  predicate Rivals(name: Text, candidate: Text, best: Option<Text>, lower: Text -> Text) {
    best.Some? && candidate != name && candidate != best.value &&
    Away(name, candidate, lower) == Away(name, best.value, lower)
  }
}
