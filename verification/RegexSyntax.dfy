/**
 * Regular expression sources as syntax trees: how a tree prints and which
 * words it matches. Rows compile their `match` with the `u` and `y` flags and
 * stay in the RE2 subset (no look-around, no back-reference), so a literal is
 * a code point and every syntax character that stands for itself is escaped.
 */
module RegexSyntax {
  import opened Utf16

  const BACKSLASH: nat := 0x5C
  const LBRACKET: nat := 0x5B
  const RBRACKET: nat := 0x5D
  const LPAREN: nat := 0x28
  const RPAREN: nat := 0x29
  const LBRACE: nat := 0x7B
  const RBRACE: nat := 0x7D
  const BAR: nat := 0x7C
  const DOT: nat := 0x2E
  const STAR: nat := 0x2A
  const PLUS: nat := 0x2B
  const QUESTION: nat := 0x3F
  const CARET: nat := 0x5E
  const DOLLAR: nat := 0x24
  const DASH: nat := 0x2D

  /** `[](){}|.*+?^$`, the characters the scanner stops at when they are not escaped. */
  predicate IsStop(c: nat) {
    c == LBRACKET || c == RBRACKET || c == LPAREN || c == RPAREN || c == LBRACE || c == RBRACE || c == BAR ||
    c == DOT || c == STAR || c == PLUS || c == QUESTION || c == CARET || c == DOLLAR
  }

  /** `/[A-Za-z0-9]/`. */
  predicate IsAlphanumeric(c: nat) {
    0x41 <= c <= 0x5A || 0x61 <= c <= 0x7A || 0x30 <= c <= 0x39
  }

  lemma StopsAreThese(c: char)
    ensures IsStop(c as nat) <==> c in "[](){}|.*+?^$"
  {
    var stops := "[](){}|.*+?^$";
    if IsStop(c as nat) {
      assert c == stops[0] || c == stops[1] || c == stops[2] || c == stops[3] || c == stops[4] || c == stops[5] ||
        c == stops[6] || c == stops[7] || c == stops[8] || c == stops[9] || c == stops[10] || c == stops[11] ||
        c == stops[12];
    }
  }

  lemma AlphanumericAreThese(c: char)
    ensures IsAlphanumeric(c as nat) <==> 'A' <= c <= 'Z' || 'a' <= c <= 'z' || '0' <= c <= '9'
  {
  }

  /** A character of a class: bare, or behind a backslash (`\]`, `\-`). */
  datatype ClassAtom = Bare(point: nat) | Quoted(point: nat)

  /**
   * A piece of a class: one character, a range, or a letter escape (`\d`,
   * `\p{L}`, `\u{41}`) with the characters it stands for.
   */
  datatype ClassItem =
    | One(atom: ClassAtom)
    | Span(low: ClassAtom, high: ClassAtom)
    | Shorthand(letter: nat, tail: Text, denotes: iset<nat>)

  datatype Quantifier =
    | Once
    | ZeroOrMore(lazy: bool)
    | OneOrMore(lazy: bool)
    | Optional(lazy: bool)
    | Counted(digits: Text, min: nat, max: nat, lazy: bool)

  /** `LetterEscape` stands for `\d`, `\b`, `\x41`, ... and matches the words in `denotes`. */
  datatype Atom =
    | Literal(point: nat)
    | Escaped(point: nat)
    | LetterEscape(letter: nat, tail: Text, denotes: iset<Text>)
    | Class(negated: bool, items: seq<ClassItem>)
    | AnyCharacter
    | Group(head: Text, body: Branches)

  datatype Term = Anchor(sign: nat) | Repeat(atom: Atom, quantifier: Quantifier)

  datatype Terms = End | Then(first: Term, rest: Terms)

  /** A disjunction: one alternative, or an alternative, a bar and the others. */
  datatype Branches = Only(terms: Terms) | Or(terms: Terms, others: Branches)

  // ---- printing

  function PrintClassAtom(a: ClassAtom): Text {
    match a
    case Bare(p) => [p]
    case Quoted(p) => [BACKSLASH, p]
  }

  function PrintItem(item: ClassItem): Text {
    match item
    case One(a) => PrintClassAtom(a)
    case Span(low, high) => PrintClassAtom(low) + [DASH] + PrintClassAtom(high)
    case Shorthand(letter, tail, _) => [BACKSLASH, letter] + tail
  }

  /** The inside of a `[...]` class. */
  function PrintItems(items: seq<ClassItem>): Text {
    if items == [] then [] else PrintItem(items[0]) + PrintItems(items[1..])
  }

  function PrintLazy(lazy: bool): Text { if lazy then [QUESTION] else [] }

  function PrintQuantifier(q: Quantifier): Text {
    match q
    case Once => []
    case ZeroOrMore(lazy) => [STAR] + PrintLazy(lazy)
    case OneOrMore(lazy) => [PLUS] + PrintLazy(lazy)
    case Optional(lazy) => [QUESTION] + PrintLazy(lazy)
    case Counted(digits, _, _, lazy) => [LBRACE] + digits + [RBRACE] + PrintLazy(lazy)
  }

  function PrintAtom(a: Atom): Text {
    match a
    case Literal(p) => [p]
    case Escaped(p) => [BACKSLASH, p]
    case LetterEscape(letter, tail, _) => [BACKSLASH, letter] + tail
    case Class(negated, items) =>
      [LBRACKET] + (if negated then [CARET] else []) + PrintItems(items) + [RBRACKET]
    case AnyCharacter => [DOT]
    case Group(head, body) => [LPAREN] + head + PrintBranches(body) + [RPAREN]
  }

  function PrintTerm(t: Term): Text {
    match t
    case Anchor(sign) => [sign]
    case Repeat(atom, quantifier) => PrintAtom(atom) + PrintQuantifier(quantifier)
  }

  function PrintTerms(ts: Terms): Text {
    match ts
    case End => []
    case Then(first, rest) => PrintTerm(first) + PrintTerms(rest)
  }

  function PrintBranches(bs: Branches): Text {
    match bs
    case Only(terms) => PrintTerms(terms)
    case Or(terms, others) => PrintTerms(terms) + [BAR] + PrintBranches(others)
  }

  function BranchList(bs: Branches): (list: seq<Terms>)
    ensures |list| > 0
  {
    match bs
    case Only(terms) => [terms]
    case Or(terms, others) => [terms] + BranchList(others)
  }

  // ---- which trees print to a legal source

  predicate IsPlain(text: Text) {
    Scalars(text) && forall c <- text :: c !in [BACKSLASH, LBRACKET, RBRACKET, LPAREN, RPAREN, BAR]
  }

  predicate ValidClassAtom(a: ClassAtom) {
    Scalar(a.point) &&
    match a
    case Bare(p) => p != BACKSLASH && p != RBRACKET
    case Quoted(p) => !IsAlphanumeric(p)
  }

  predicate ValidItem(item: ClassItem) {
    match item
    case One(a) => ValidClassAtom(a)
    case Span(low, high) => ValidClassAtom(low) && ValidClassAtom(high) && low.point <= high.point
    case Shorthand(letter, tail, _) => IsAlphanumeric(letter) && IsPlain(tail) && DASH !in tail
  }

  /**
   * A bare dash right after anything but a span would read as a range, unless
   * it is the last thing in the class.
   */
  predicate ValidItems(items: seq<ClassItem>) {
    (forall item <- items :: ValidItem(item)) &&
    forall i :: 0 <= i < |items| - 1 && !items[i].Span? && PrintItem(items[i + 1])[0] == DASH ==>
      i == |items| - 2 && items[i + 1] == One(Bare(DASH))
  }

  /** The inside of a class; without the sign of a negated one it does not begin with that sign. */
  predicate ValidClass(negated: bool, items: seq<ClassItem>) {
    ValidItems(items) && (!negated && items != [] ==> PrintItem(items[0])[0] != CARET)
  }

  predicate ValidQuantifier(q: Quantifier) {
    q.Counted? ==> forall c <- q.digits :: 0x30 <= c <= 0x39 || c == 0x2C
  }

  predicate ValidAtom(a: Atom) {
    match a
    case Literal(p) => Scalar(p) && p != BACKSLASH && !IsStop(p)
    case Escaped(p) => Scalar(p) && !IsAlphanumeric(p)
    case LetterEscape(letter, tail, _) => IsAlphanumeric(letter) && IsPlain(tail)
    case Class(negated, items) => ValidClass(negated, items)
    case AnyCharacter => true
    case Group(head, body) => IsPlain(head) && ValidBranches(body)
  }

  predicate ValidTerm(t: Term) {
    match t
    case Anchor(sign) => sign == CARET || sign == DOLLAR
    case Repeat(atom, quantifier) => ValidAtom(atom) && ValidQuantifier(quantifier)
  }

  predicate ValidTerms(ts: Terms) {
    match ts
    case End => true
    case Then(first, rest) => ValidTerm(first) && ValidTerms(rest)
  }

  predicate ValidBranches(bs: Branches) {
    match bs
    case Only(terms) => ValidTerms(terms)
    case Or(terms, others) => ValidTerms(terms) && ValidBranches(others)
  }

  // ---- the words a tree matches

  ghost predicate InItem(item: ClassItem, p: nat) {
    match item
    case One(a) => p == a.point
    case Span(low, high) => low.point <= p <= high.point
    case Shorthand(_, _, denotes) => p in denotes
  }

  ghost predicate InClass(items: seq<ClassItem>, p: nat) {
    exists item <- items :: InItem(item, p)
  }

  predicate Allows(q: Quantifier, times: nat) {
    match q
    case Once => times == 1
    case ZeroOrMore(_) => true
    case OneOrMore(_) => times >= 1
    case Optional(_) => times <= 1
    case Counted(_, min, max, _) => min <= times <= max
  }

  ghost predicate MatchesAtom(a: Atom, w: Text)
    decreases a, 0, 0
  {
    match a
    case Literal(p) => w == [p]
    case Escaped(p) => w == [p]
    case LetterEscape(_, _, denotes) => w in denotes
    case Class(negated, items) => |w| == 1 && InClass(items, w[0]) != negated
    case AnyCharacter => |w| == 1
    case Group(_, body) => MatchesBranches(body, w)
  }

  ghost predicate MatchesTimes(a: Atom, times: nat, w: Text)
    decreases a, 1, times
  {
    if times == 0 then w == []
    else exists k :: 0 <= k <= |w| && MatchesAtom(a, w[..k]) && MatchesTimes(a, times - 1, w[k..])
  }

  ghost predicate MatchesTerm(t: Term, w: Text)
    decreases t, 0, 0
  {
    match t
    case Anchor(_) => w == []
    case Repeat(atom, quantifier) => exists n: nat :: Allows(quantifier, n) && MatchesTimes(atom, n, w)
  }

  ghost predicate MatchesTerms(ts: Terms, w: Text)
    decreases ts, 0, 0
  {
    match ts
    case End => w == []
    case Then(first, rest) =>
      exists k :: 0 <= k <= |w| && MatchesTerm(first, w[..k]) && MatchesTerms(rest, w[k..])
  }

  ghost predicate MatchesBranches(bs: Branches, w: Text)
    decreases bs, 0, 0
  {
    match bs
    case Only(terms) => MatchesTerms(terms, w)
    case Or(terms, others) => MatchesTerms(terms, w) || MatchesBranches(others, w)
  }

  // ---- a legal tree prints characters only

  lemma {:induction false} PrintItemsScalars(items: seq<ClassItem>)
    requires forall item <- items :: ValidItem(item)
    ensures Scalars(PrintItems(items))
  {
    if items != [] {
      assert items[0] in items;
      PrintItemsScalars(items[1..]);
    }
  }

  lemma {:induction false} PrintAtomScalars(a: Atom)
    requires ValidAtom(a)
    ensures Scalars(PrintAtom(a))
    decreases a, 0
  {
    match a
    case Class(_, items) => PrintItemsScalars(items);
    case Group(_, body) => PrintBranchesScalars(body);
    case _ =>
  }

  lemma {:induction false} PrintTermsScalars(ts: Terms)
    requires ValidTerms(ts)
    ensures Scalars(PrintTerms(ts))
    decreases ts, 0
  {
    match ts
    case End =>
    case Then(first, rest) =>
      PrintTermsScalars(rest);
      if first.Repeat? {
        PrintAtomScalars(first.atom);
      }
  }

  lemma {:induction false} PrintBranchesScalars(bs: Branches)
    requires ValidBranches(bs)
    ensures Scalars(PrintBranches(bs))
    decreases bs, 0
  {
    match bs
    case Only(terms) => PrintTermsScalars(terms);
    case Or(terms, others) =>
      PrintTermsScalars(terms);
      PrintBranchesScalars(others);
  }
}
