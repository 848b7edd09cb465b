/**
 * Literal marks that end inside a character: `literalPrefix` compares its
 * alternatives code unit by code unit (packages/core/src/dialect-marks.ts).
 */
module HalfMarks {
  import opened ClassRanges
  import opened DialectMarks
  import opened MarkClash
  import opened RegexSyntax
  import opened Utf16
  import opened Wrappers

  // ---- the characters some texts start with

  /** The longest text that starts all of them. */
  function CommonOf(starts: seq<Text>): Text
    requires |starts| > 0
  {
    if |starts| == 1 then starts[0] else CommonPrefix(CommonOf(starts[..|starts| - 1]), starts[|starts| - 1])
  }

  lemma {:induction false} CommonIsLongest(starts: seq<Text>, p: Text)
    requires |starts| > 0
    ensures p <= CommonOf(starts) <==> forall i :: 0 <= i < |starts| ==> p <= starts[i]
  {
    hide CommonPrefix;
    var n := |starts| - 1;
    if n > 0 {
      CommonIsLongest(starts[..n], p);
      CommonPrefixIsLongest(CommonOf(starts[..n]), starts[n], p);
      assert forall i :: 0 <= i < n ==> starts[..n][i] == starts[i];
    }
  }

  /** What each text goes on with, past the characters all of them start with. */
  function Rests(starts: seq<Text>): (rests: seq<Text>)
    requires |starts| > 0
    ensures |rests| == |starts|
    ensures forall i :: 0 <= i < |starts| ==> starts[i] == CommonOf(starts) + rests[i]
  {
    CommonIsLongest(starts, CommonOf(starts));
    seq(|starts|, i requires 0 <= i < |starts| => starts[i][|CommonOf(starts)|..])
  }

  /** Every text begins with a character of two units whose first unit is `unit`. */
  predicate BeginWith(rests: seq<Text>, unit: nat) {
    forall i :: 0 <= i < |rests| ==> rests[i] != [] && rests[i][0] >= 0x1_0000 && EncodePoint(rests[i][0])[0] == unit
  }

  /** The first unit of the first text. */
  function FirstUnit(rests: seq<Text>): nat
    requires |rests| > 0
  {
    if rests[0] == [] then 0 else EncodePoint(rests[0][0])[0]
  }

  /**
   * Past the characters they share the texts go on with different characters,
   * all of two units and with one first unit.
   */
  predicate SplitACharacter(starts: seq<Text>)
    requires |starts| > 0
  {
    BeginWith(Rests(starts), FirstUnit(Rests(starts)))
  }

  predicate AllScalars(texts: seq<Text>) { forall i :: 0 <= i < |texts| ==> Scalars(texts[i]) }

  lemma RestsAreScalars(starts: seq<Text>)
    requires |starts| > 0 && AllScalars(starts)
    ensures AllScalars(Rests(starts)) && Scalars(CommonOf(starts))
  {
    var common, rests := CommonOf(starts), Rests(starts);
    forall i | 0 <= i < |starts| ensures Scalars(rests[i]) && Scalars(common) {
      assert starts[i] == common + rests[i];
      assert forall c :: c in common || c in rests[i] ==> c in starts[i];
    }
    assert Scalars(rests[0]) && Scalars(common);
  }

  /** Past the common characters no one character begins every text. */
  lemma NotAllAlike(starts: seq<Text>, c: nat)
    requires |starts| > 0
    ensures exists i :: 0 <= i < |starts| && (Rests(starts)[i] == [] || Rests(starts)[i][0] != c)
  {
    var common, rests := CommonOf(starts), Rests(starts);
    if forall i :: 0 <= i < |starts| ==> rests[i] != [] && rests[i][0] == c {
      forall i | 0 <= i < |starts| ensures common + [c] <= starts[i] {
        assert starts[i] == common + [c] + rests[i][1..];
      }
      CommonIsLongest(starts, common + [c]);
      assert false;
    }
  }

  // ---- what stored texts start with

  lemma HeadUnits(t: Text, q: Text)
    requires Scalars(t) && q != [] && q <= Encode(t)
    ensures t != [] && EncodePoint(t[0])[0] == q[0] && (Lead(q[0]) <==> t[0] >= 0x1_0000)
    ensures Lead(q[0]) && |q| > 1 ==> EncodePoint(t[0]) == [q[0], q[1]]
    ensures !Lead(q[0]) ==> t[0] == q[0]
  {
    assert t != [] && t[0] in t;
    var u := EncodePoint(t[0]);
    assert Encode(t) == u + Encode(t[1..]);
    assert Encode(t)[0] == u[0] == q[0];
    if t[0] >= 0x1_0000 {
      EncodePointPair(t[0]);
      if |q| > 1 {
        assert Encode(t)[1] == u[1] == q[1];
      }
    }
  }

  lemma SameUnits(a: nat, b: nat)
    requires Scalar(a) && Scalar(b) && EncodePoint(a) == EncodePoint(b)
    ensures a == b
  {
    if a >= 0x1_0000 { EncodePointPair(a); }
    if b >= 0x1_0000 { EncodePointPair(b); }
  }

  /** If the rests share anything stored, it is one first unit of different characters. */
  lemma SharedRest(starts: seq<Text>, q: Text)
    requires |starts| > 0 && AllScalars(starts) && q != []
    requires forall i :: 0 <= i < |starts| ==> q <= Encode(Rests(starts)[i])
    ensures |q| == 1 && SplitACharacter(starts) && FirstUnit(Rests(starts)) == q[0]
  {
    RestsAreScalars(starts);
    var rests := Rests(starts);
    HeadUnits(rests[0], q);
    NotAllAlike(starts, rests[0][0]);
    hide Encode, EncodePoint, Scalar, Lead, CommonOf;
    var i :| 0 <= i < |starts| && (rests[i] == [] || rests[i][0] != rests[0][0]);
    HeadUnits(rests[i], q);
    assert rests[i][0] in rests[i] && rests[0][0] in rests[0];
    if |q| > 1 {
      SameUnits(rests[i][0], rests[0][0]);
    }
    forall j | 0 <= j < |rests|
      ensures rests[j] != [] && rests[j][0] >= 0x1_0000 && EncodePoint(rests[j][0])[0] == q[0] {
      HeadUnits(rests[j], q);
    }
  }

  lemma SplitIsShared(rests: seq<Text>, i: nat)
    requires i < |rests| && BeginWith(rests, FirstUnit(rests))
    ensures [FirstUnit(rests)] <= Encode(rests[i])
  {
    hide EncodePoint;
    EncodeStep(rests[i]);
  }

  // ---- the mark, in characters

  /** The literals that lead each branch. */
  function Starts(list: seq<Terms>): (starts: seq<Text>)
    ensures |starts| == |list|
    ensures forall i :: 0 <= i < |list| ==> starts[i] == LiteralStart(list[i])
  {
    seq(|list|, i requires 0 <= i < |list| => LiteralStart(list[i]))
  }

  lemma StartsAreScalars(bs: Branches)
    requires ValidBranches(bs)
    ensures AllScalars(Starts(BranchList(bs)))
  {
    var list := BranchList(bs);
    forall i | 0 <= i < |list| ensures Scalars(Starts(list)[i]) {
      BranchListValid(bs, i);
      LiteralStartScalars(list[i]);
    }
  }

  /** What starts the literals of every branch, in characters and stored. */
  lemma StoredCommon(bs: Branches, common: Text, rests: seq<Text>, q: Text)
    requires ValidBranches(bs) && |rests| == |BranchList(bs)|
    requires forall i :: 0 <= i < |rests| ==> Starts(BranchList(bs))[i] == common + rests[i]
    ensures Encode(common) + q <= LiteralPrefixOf(Encode(PrintBranches(bs)))
       <==> forall i :: 0 <= i < |rests| ==> q <= Encode(rests[i])
  {
    var list := BranchList(bs);
    LiteralPrefixExact(bs, Encode(common) + q);
    hide *;
    forall i | 0 <= i < |rests|
      ensures LiteralStarts(list)[i] == Encode(common) + Encode(rests[i])
      ensures Encode(common) + q <= LiteralStarts(list)[i] <==> q <= Encode(rests[i])
    {
      assert LiteralStarts(list)[i] == Encode(Starts(list)[i]);
      EncodeConcat(common, rests[i]);
      SamePrefix(Encode(common), q, Encode(rests[i]));
    }
  }

  lemma SamePrefix(a: Text, q: Text, b: Text)
    ensures a + q <= a + b <==> q <= b
  {
    assert b == (a + b)[|a|..] && q == (a + q)[|a|..];
    if q <= b {
      assert a + b == a + q + b[|q|..];
    }
  }

  lemma CommonIsThere(bs: Branches) returns (q: Text)
    requires ValidBranches(bs)
    ensures LiteralPrefixOf(Encode(PrintBranches(bs))) == Encode(CommonOf(Starts(BranchList(bs)))) + q
  {
    hide *;
    var starts, p := Starts(BranchList(bs)), LiteralPrefixOf(Encode(PrintBranches(bs)));
    StoredCommon(bs, CommonOf(starts), Rests(starts), []);
    q := Remainder(Encode(CommonOf(starts)), p);
  }

  lemma Remainder(a: Text, p: Text) returns (q: Text)
    requires a + [] <= p
    ensures p == a + q
  {
    assert a + [] == a;
    q := p[|a|..];
  }

  lemma TailIsOneUnit(bs: Branches, q: Text)
    requires ValidBranches(bs) && q != []
    requires LiteralPrefixOf(Encode(PrintBranches(bs))) == Encode(CommonOf(Starts(BranchList(bs)))) + q
    ensures SplitACharacter(Starts(BranchList(bs))) && q == [FirstUnit(Rests(Starts(BranchList(bs))))]
  {
    var starts := Starts(BranchList(bs));
    StartsAreScalars(bs);
    hide *;
    StoredCommon(bs, CommonOf(starts), Rests(starts), q);
    SharedRest(starts, q);
  }

  lemma SplitIsThere(bs: Branches)
    requires ValidBranches(bs) && SplitACharacter(Starts(BranchList(bs)))
    ensures |Encode(CommonOf(Starts(BranchList(bs))))| < |LiteralPrefixOf(Encode(PrintBranches(bs)))|
  {
    var starts := Starts(BranchList(bs));
    var rests := Rests(starts);
    assert BeginWith(rests, FirstUnit(rests));
    hide *;
    forall i | 0 <= i < |rests| ensures [FirstUnit(rests)] <= Encode(rests[i]) {
      SplitIsShared(rests, i);
    }
    StoredCommon(bs, CommonOf(starts), rests, [FirstUnit(rests)]);
    assert |Encode(CommonOf(starts)) + [FirstUnit(rests)]| <= |LiteralPrefixOf(Encode(PrintBranches(bs)))|;
  }

  /**
   * The literal prefix is the characters every branch starts with and, if the
   * branches go on with different characters that share their first unit, that
   * unit.
   */
  lemma PrefixInCharacters(bs: Branches)
    requires ValidBranches(bs)
    ensures var starts := Starts(BranchList(bs));
            LiteralPrefixOf(Encode(PrintBranches(bs))) ==
              Encode(CommonOf(starts)) + if SplitACharacter(starts) then [FirstUnit(Rests(starts))] else []
  {
    var starts, p := Starts(BranchList(bs)), LiteralPrefixOf(Encode(PrintBranches(bs)));
    var q := CommonIsThere(bs);
    hide *;
    if q != [] {
      TailIsOneUnit(bs, q);
    } else if SplitACharacter(starts) {
      SplitIsThere(bs);
      assert false;
    }
  }

  /** So it ends inside a character exactly when the branches split one. */
  lemma PrefixIsWholeCharacters(bs: Branches)
    requires ValidBranches(bs)
    ensures (exists chars :: Scalars(chars) && LiteralPrefixOf(Encode(PrintBranches(bs))) == Encode(chars))
       <==> !SplitACharacter(Starts(BranchList(bs)))
  {
    var starts, p := Starts(BranchList(bs)), LiteralPrefixOf(Encode(PrintBranches(bs)));
    PrefixInCharacters(bs);
    StartsAreScalars(bs);
    RestsAreScalars(starts);
    SplitUnitIsLead(Rests(starts));
    assert SplitACharacter(starts) ==> BeginWith(Rests(starts), FirstUnit(Rests(starts)));
    hide *;
    if SplitACharacter(starts) {
      assert p[|p| - 1] == FirstUnit(Rests(starts));
      forall chars | Scalars(chars) ensures p != Encode(chars) {
        WholeOrNothing(chars);
      }
    } else {
      assert p == Encode(CommonOf(starts));
    }
  }

  lemma SplitUnitIsLead(rests: seq<Text>)
    requires |rests| > 0 && AllScalars(rests)
    ensures BeginWith(rests, FirstUnit(rests)) ==> Lead(FirstUnit(rests))
  {
    if BeginWith(rests, FirstUnit(rests)) {
      assert rests[0][0] in rests[0];
      EncodePointPair(rests[0][0]);
    }
  }

  lemma WholeOrNothing(chars: Text)
    requires Scalars(chars)
    ensures Encode(chars) == [] || !Lead(Encode(chars)[|Encode(chars)| - 1])
  {
    if chars != [] {
      EncodedEndsWhole(chars);
    }
  }

  lemma {:induction false} EncodedEndsWhole(chars: Text)
    requires Scalars(chars) && chars != []
    ensures Encode(chars) != [] && !Lead(Encode(chars)[|Encode(chars)| - 1])
  {
    assert chars[0] in chars;
    if |chars| == 1 {
      assert Encode(chars) == EncodePoint(chars[0]) + [];
    } else {
      EncodedEndsWhole(chars[1..]);
    }
  }

  lemma {:induction false} LiteralsScalars(ts: Terms)
    requires ValidTerms(ts)
    ensures Scalars(Literals(ts))
  {
    if ts.Then? {
      LiteralsScalars(ts.rest);
      if ts.first.Repeat? && (ts.first.atom.Literal? || ts.first.atom.Escaped?) {
        assert ValidTerm(ts.first) && ValidAtom(ts.first.atom);
        assert Literals(ts) in
          [[], [ts.first.atom.point], [ts.first.atom.point] + Literals(ts.rest)];
      }
    }
  }

  lemma LiteralStartScalars(ts: Terms)
    requires ValidTerms(ts)
    ensures Scalars(LiteralStart(ts))
  {
    LiteralsScalars(ts);
    if ts.Then? {
      LiteralsScalars(ts.rest);
    }
  }

  // ---- a clash made by half a character

  function Smiley(k: nat): Terms { Then(Repeat(Literal(0x1_F600 + k), Once), End) }

  function Smileys(k: nat): Branches { Or(Smiley(k), Only(Smiley(k + 1))) }

  lemma SmileyStart(k: nat)
    requires k <= 3
    ensures Encode(LiteralStart(Smiley(k))) == [0xD83D, 0xDE00 + k]
  {
    assert Literals(End) == [];
    assert LiteralStart(Smiley(k)) == [0x1_F600 + k];
    assert Encode([0x1_F600 + k]) == EncodePoint(0x1_F600 + k) + Encode([]);
  }

  lemma SmileysValid(k: nat)
    requires k <= 2
    ensures ValidBranches(Smileys(k)) && BranchList(Smileys(k)) == [Smiley(k), Smiley(k + 1)]
  {
    SmileyValid(k);
    SmileyValid(k + 1);
    assert BranchList(Only(Smiley(k + 1))) == [Smiley(k + 1)];
  }

  lemma SmileyValid(k: nat)
    requires k <= 3
    ensures ValidTerms(Smiley(k))
  {
    assert ValidAtom(Literal(0x1_F600 + k)) && ValidQuantifier(Once);
    assert ValidTerm(Smiley(k).first) && ValidTerms(End);
  }

  lemma SmileysPrefix(k: nat)
    requires k <= 2
    ensures LiteralPrefixOf(Encode(PrintBranches(Smileys(k)))) == [0xD83D]
  {
    hide *;
    var bs := Smileys(k);
    SmileysValid(k);
    var p := LiteralPrefixOf(Encode(PrintBranches(bs)));
    var starts := LiteralStarts(BranchList(bs));
    SmileyStart(k);
    SmileyStart(k + 1);
    LiteralPrefixExact(bs, p);
    LiteralPrefixExact(bs, [0xD83D]);
    assert p <= starts[0] && p <= starts[1];
    CommonPrefixIsLongest(starts[0], starts[1], p);
    HalvesInCommon(k);
  }

  lemma HalvesInCommon(k: nat)
    ensures CommonPrefix([0xD83D, 0xDE00 + k], [0xD83D, 0xDE00 + (k + 1)]) == [0xD83D]
  {
    var a, b := [0xD83D, 0xDE00 + k], [0xD83D, 0xDE00 + (k + 1)];
    assert CommonPrefix(a[1..], b[1..]) == [];
  }

  lemma SmileysMatchApart(w: Text)
    ensures !(MatchesBranches(Smileys(0), w) && MatchesBranches(Smileys(2), w))
  {
    if MatchesBranches(Smileys(0), w) {
      var x := SomeBranchMatches(Smileys(0), w);
      LiteralsStartEveryMatch(x, w);
      assert w[0] <= 0x1_F601;
    }
    if MatchesBranches(Smileys(2), w) {
      var y := SomeBranchMatches(Smileys(2), w);
      LiteralsStartEveryMatch(y, w);
      assert w[0] >= 0x1_F602;
    }
  }

  function SmileyChars(k: nat): Chars { Chars(false, [One(Bare(0x1_F600 + k)), One(Bare(0x1_F600 + (k + 1)))]) }

  function SmileyMark(k: nat, index: nat): Mark {
    MarkOf(Row("row", Some(Encode(PrintChars(SmileyChars(k)))), Some(Encode(PrintBranches(Smileys(k))))),
      ExpressionTriggers, index).value
  }

  /** The mark a row has when half a character is no literal: its class. */
  function ClassMark(k: nat, index: nat): Mark {
    SmileyMark(k, index).(prefix := [], ranges := ReadRanges(PrintChars(SmileyChars(k))))
  }

  lemma SmileyRanges(k: nat, p: nat)
    requires k <= 2
    ensures InRanges(ReadRanges(PrintChars(SmileyChars(k))), p) <==> p == 0x1_F600 + k || p == 0x1_F600 + (k + 1)
  {
    var items := SmileyChars(k).items;
    assert PrintChars(SmileyChars(k)) == PrintItems(items);
    assert ValidItem(items[0]) && ValidItem(items[1]) && PrintItem(items[1])[0] != DASH;
    RangesOfPrinted(items);
    WrittenIsSpelled(items, p);
    assert items[0] in items && items[1] in items;
  }

  lemma SmileysAccepted(k: nat)
    ensures Accepted(SmileyChars(k), EXPRESSION_REFUSED)
  {
    var items := SmileyChars(k).items;
    assert PrintChars(SmileyChars(k)) == PrintItems(items) && PrintItems(items)[0] == 0x1_F600 + k;
    forall p: nat | InChars(SmileyChars(k), p) ensures p >= 0x1_0000 {
    }
  }

  /**
   * Four different characters whose first halves agree. The two rows are armed
   * on different characters and their literals share none, and still their
   * marks are the same half character; by whole characters they do not clash.
   */
  lemma HalfCharacterClash(index: nat)
    ensures Accepted(SmileyChars(0), EXPRESSION_REFUSED) && Accepted(SmileyChars(2), EXPRESSION_REFUSED)
    ensures SmileyMark(0, index).prefix == SmileyMark(2, index).prefix == [0xD83D]
    ensures CommonOf(Starts(BranchList(Smileys(0)))) == CommonOf(Starts(BranchList(Smileys(2)))) == []
    ensures Identical(SmileyMark(0, index), SmileyMark(2, index))
    ensures !Identical(ClassMark(0, index), ClassMark(2, index))
    ensures forall w :: !(MatchesBranches(Smileys(0), w) && MatchesBranches(Smileys(2), w))
  {
    SmileysAccepted(0);
    SmileysAccepted(2);
    SmileysPrefix(0);
    SmileysPrefix(2);
    NothingInCommon(0);
    NothingInCommon(2);
    forall w ensures !(MatchesBranches(Smileys(0), w) && MatchesBranches(Smileys(2), w)) {
      SmileysMatchApart(w);
    }
    hide LiteralPrefixOf, PrintBranches, ReadRanges, PrintChars, CommonOf, MatchesBranches, InRanges;
    forall p: nat ensures !(HasCode(ClassMark(0, index), p) && HasCode(ClassMark(2, index), p)) {
      SmileyRanges(0, p);
      SmileyRanges(2, p);
    }
  }

  lemma NothingInCommon(k: nat)
    requires k <= 2
    ensures CommonOf(Starts(BranchList(Smileys(k)))) == []
  {
    SmileysValid(k);
    assert Literals(End) == [];
    assert LiteralStart(Smiley(k)) == [0x1_F600 + k] && LiteralStart(Smiley(k + 1)) == [0x1_F600 + (k + 1)];
    var starts := Starts(BranchList(Smileys(k)));
    assert starts[..1] == [[0x1_F600 + k]] && CommonOf(starts[..1]) == [0x1_F600 + k];
  }
}
