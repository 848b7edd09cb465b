/**
 * The names a destructuring parameter binds, each with the member path that
 * reads it (packages/core/src/accessor-reads.ts, `destructuredNames`).
 */
module Destructuring {
  import opened Wrappers

  /**
   * The key of a pattern's property. A literal names the property `text`, and its
   * value printed as JSON names `printed`; `OtherKey` is a computed key that is
   * neither a string literal nor a name.
   */
  datatype Key =
    | PlainKey(name: string)
    | LiteralKey(text: string, printed: string)
    | ComputedText(text: string)
    | ComputedName(name: string)
    | OtherKey(id: nat)

  datatype Pattern =
    | Bind(name: string)
    | Default(left: Pattern)
    | ObjectOf(properties: seq<Property>)
    | ArrayOf(elements: seq<Element>)
    | OtherTarget

  datatype Property = Field(key: Key, value: Pattern) | RestField

  datatype Element = Hole | At(pattern: Pattern) | RestElement

  /** One step of the printed path: `.name`, `["text"]`, `[name]` or `[3]`. */
  datatype Step = Dot(name: string) | Quoted(text: string) | ByName(name: string) | Index(i: nat)

  datatype Destructured = Destructured(name: string, path: seq<Step>)

  type Slot = string

  /** The property key of an array's element. */
  function IndexSlot(i: nat): Slot
    decreases i
  {
    var digit := ["0", "1", "2", "3", "4", "5", "6", "7", "8", "9"][i % 10];
    if i < 10 then digit else IndexSlot(i / 10) + digit
  }

  function DigitOf(c: char): nat { if '0' <= c <= '9' then (c - '0') as nat else 0 }

  /** What decimal digits count to. */
  function Counted(digits: string): nat {
    if digits == [] then 0 else 10 * Counted(digits[..|digits| - 1]) + DigitOf(digits[|digits| - 1])
  }

  lemma LastDigit(i: nat)
    ensures IndexSlot(i) != []
    ensures var slot, n := IndexSlot(i), |IndexSlot(i)| - 1;
            '0' <= slot[n] <= '9' && DigitOf(slot[n]) == i % 10 &&
            if i < 10 then n == 0 else slot[..n] == IndexSlot(i / 10)
  {
    var digit := ["0", "1", "2", "3", "4", "5", "6", "7", "8", "9"][i % 10];
    assert |digit| == 1 && '0' <= digit[0] <= '9' && DigitOf(digit[0]) == i % 10;
    if i >= 10 {
      hide DigitOf;
      assert IndexSlot(i) == IndexSlot(i / 10) + digit;
    }
  }

  /** An index is named by its decimal digits, with none in vain. */
  lemma {:induction false} IndexIsDecimal(i: nat)
    ensures Counted(IndexSlot(i)) == i && IndexSlot(i) != []
    ensures forall c <- IndexSlot(i) :: '0' <= c <= '9'
    ensures i > 0 ==> IndexSlot(i)[0] != '0'
    ensures i == 0 ==> |IndexSlot(i)| == 1
    decreases i
  {
    hide IndexSlot, DigitOf;
    LastDigit(i);
    var slot := IndexSlot(i);
    var n := |slot| - 1;
    assert slot == slot[..n] + [slot[n]];
    if i >= 10 {
      IndexIsDecimal(i / 10);
      assert slot[0] == slot[..n][0];
    } else {
      assert slot[..n] == [];
      if slot[n] == '0' { ZeroIsNone(slot[n]); }
    }
  }

  lemma ZeroIsNone(c: char)
    requires c == '0'
    ensures DigitOf(c) == 0
  {
  }

  // ---- the walk

  /** No rest and no target a member read cannot express. */
  predicate Supported(p: Pattern)
    decreases p
  {
    match p
    case Bind(_) => true
    case Default(left) => Supported(left)
    case ObjectOf(properties) =>
      forall i :: 0 <= i < |properties| ==> properties[i].Field? && Supported(properties[i].value)
    case ArrayOf(elements) =>
      forall i :: 0 <= i < |elements| ==>
        !elements[i].RestElement? && (elements[i].At? ==> Supported(elements[i].pattern))
    case OtherTarget => false
  }

  /** A pattern right inside another. */
  ghost predicate IsPart(part: Pattern, p: Pattern) {
    match p
    case Default(left) => part == left
    case ObjectOf(properties) => exists key :: Field(key, part) in properties
    case ArrayOf(elements) => At(part) in elements
    case _ => false
  }

  /** From a pattern inwards, each right inside the one before. */
  ghost predicate Inwards(way: seq<Pattern>, p: Pattern, part: Pattern) {
    |way| > 0 && way[0] == p && way[|way| - 1] == part &&
    forall i :: 0 <= i < |way| - 1 ==> IsPart(way[i + 1], way[i])
  }

  ghost predicate Inside(p: Pattern, part: Pattern) { exists way: seq<Pattern> :: Inwards(way, p, part) }

  /** A target that no member read can express, or a rest. */
  predicate Inexpressible(p: Pattern) {
    p.OtherTarget? || (p.ObjectOf? && RestField in p.properties) || (p.ArrayOf? && RestElement in p.elements)
  }

  lemma InsideStep(p: Pattern, part: Pattern)
    ensures Inside(p, part) <==> p == part || exists next :: IsPart(next, p) && Inside(next, part)
  {
    hide IsPart;
    if Inside(p, part) && p != part {
      var way: seq<Pattern> :| Inwards(way, p, part);
      var rest := way[1..];
      assert IsPart(way[0 + 1], way[0]);
      forall i | 0 <= i < |rest| - 1 ensures IsPart(rest[i + 1], rest[i]) {
        assert IsPart(way[i + 1 + 1], way[i + 1]);
      }
      assert Inwards(rest, rest[0], part);
    }
    if p == part {
      assert Inwards([p], p, part);
    }
    if next :| IsPart(next, p) && Inside(next, part) {
      var rest: seq<Pattern> :| Inwards(rest, next, part);
      assert Inwards([p] + rest, p, part);
    }
  }

  /** A pattern is supported exactly when nothing in it, however deep, is a rest or a target that is no name. */
  lemma {:induction false} SupportedExactly(p: Pattern)
    ensures Supported(p) <==> forall part :: Inside(p, part) ==> !Inexpressible(part)
    decreases p
  {
    hide Inside;
    forall part ensures Inside(p, part) <==> p == part || exists next :: IsPart(next, p) && Inside(next, part) {
      InsideStep(p, part);
    }
    forall next | IsPart(next, p)
      ensures Supported(next) <==> forall part :: Inside(next, part) ==> !Inexpressible(part)
    {
      match p
      case Default(left) => SupportedExactly(next);
      case ObjectOf(properties) =>
        var key :| Field(key, next) in properties;
        SupportedExactly(next);
      case ArrayOf(elements) =>
        assert At(next) in elements;
        SupportedExactly(next);
    }
    SupportedStep(p);
  }

  lemma SupportedStep(p: Pattern)
    ensures Supported(p) <==> !Inexpressible(p) && forall part :: IsPart(part, p) ==> Supported(part)
  {
    match p
    case Default(left) => assert IsPart(left, p);
    case ObjectOf(properties) =>
      forall i | 0 <= i < |properties| && properties[i].Field? ensures IsPart(properties[i].value, p) {
        assert Field(properties[i].key, properties[i].value) in properties;
      }
      assert Supported(p) ==> forall i :: 0 <= i < |properties| ==> properties[i].Field?;
    case ArrayOf(elements) =>
      forall i | 0 <= i < |elements| && elements[i].At? ensures IsPart(elements[i].pattern, p) {
        assert At(elements[i].pattern) in elements;
      }
    case _ =>
  }

  /** The printed step of a key; a computed key that is no name prints as the name `undefined`. */
  function StepOf(key: Key): Step {
    match key
    case PlainKey(name) => Dot(name)
    case LiteralKey(_, printed) => Quoted(printed)
    case ComputedText(text) => Quoted(text)
    case ComputedName(name) => ByName(name)
    case OtherKey(_) => ByName("undefined")
  }

  function Paths(p: Pattern, path: seq<Step>): seq<Destructured>
    decreases p
  {
    match p
    case Bind(name) => [Destructured(name, path)]
    case Default(left) => Paths(left, path)
    case ObjectOf(properties) => FieldPaths(properties, path)
    case ArrayOf(elements) => ElementPaths(elements, path)
    case OtherTarget => []
  }

  function FieldPaths(ps: seq<Property>, path: seq<Step>): seq<Destructured>
    decreases ps
  {
    if ps == [] then [] else FieldPaths(ps[..|ps| - 1], path) + FieldPath(ps[|ps| - 1], path)
  }

  function FieldPath(p: Property, path: seq<Step>): seq<Destructured>
    decreases p
  {
    match p
    case Field(key, value) => Paths(value, path + [StepOf(key)])
    case RestField => []
  }

  function ElementPaths(es: seq<Element>, path: seq<Step>): seq<Destructured>
    decreases es
  {
    if es == [] then [] else ElementPaths(es[..|es| - 1], path) + ElementPath(|es| - 1, es[|es| - 1], path)
  }

  function ElementPath(index: nat, e: Element, path: seq<Step>): seq<Destructured>
    decreases e
  {
    match e
    case At(pattern) => Paths(pattern, path + [Index(index)])
    case _ => []
  }

  /** One call of `destructuredNames`. */
  class Walker {
    var out: seq<Destructured>
    var ok: bool

    constructor ()
      ensures out == [] && ok
    {
      out, ok := [], true;
    }

    method Walk(target: Pattern, path: seq<Step>)
      requires ok
      modifies this
      ensures ok == Supported(target)
      ensures ok ==> out == old(out) + Paths(target, path)
      decreases target
    {
      match target
      case Bind(name) => out := out + [Destructured(name, path)];
      case Default(left) => Walk(left, path);
      case ObjectOf(properties) =>
        assert out + [] == out;
        for i := 0 to |properties|
          invariant ok && out == old(out) + FieldPaths(properties[..i], path)
          invariant forall k :: 0 <= k < i ==> properties[k].Field? && Supported(properties[k].value)
        {
          var property := properties[i];
          assert properties[..i + 1][..i] == properties[..i];
          if property.RestField? {
            ok := false;
            return;
          }
          Walk(property.value, path + [StepOf(property.key)]);
          if !ok { return; }
        }
        assert properties[..|properties|] == properties;
      case ArrayOf(elements) =>
        assert out + [] == out;
        for i := 0 to |elements|
          invariant ok && out == old(out) + ElementPaths(elements[..i], path)
          invariant forall k :: 0 <= k < i ==>
                      !elements[k].RestElement? && (elements[k].At? ==> Supported(elements[k].pattern))
        {
          assert elements[..i + 1][..i] == elements[..i];
          if elements[i].RestElement? {
            ok := false;
            return;
          }
          if elements[i].At? {
            Walk(elements[i].pattern, path + [Index(i)]);
            if !ok { return; }
          }
        }
        assert elements[..|elements|] == elements;
      case OtherTarget => ok := false;
    }
  }

  method DestructuredNames(pattern: Pattern) returns (r: Option<seq<Destructured>>)
    ensures r == if Supported(pattern) then Some(Paths(pattern, [])) else None
  {
    var walker := new Walker();
    walker.Walk(pattern, []);
    assert [] + Paths(pattern, []) == Paths(pattern, []);
    r := if walker.ok then Some(walker.out) else None;
  }

  // ---- values, and what binding and reading do with them

  /**
   * What a value is to a pattern: its members, whether it is `undefined`, whether
   * it has no members (`null` and `undefined`), what it is as a property key, and
   * whether it can be iterated and what each step then gives, `undefined` past
   * the end. A value need not iterate as it is indexed.
   */
  datatype Values<!V> = Values(
    get: (V, Slot) -> V, absent: V -> bool, bare: V -> bool, text: V -> string,
    iterable: V -> bool, item: (V, nat) -> V)

  /** What computed keys outside the pattern evaluate to: names, and anything else. */
  datatype Scope = Scope(names: imap<string, string>, others: imap<nat, string>) {
    function Name(name: string): string { if name in names then names[name] else name }

    function Other(id: nat): string { if id in others then others[id] else "" }
  }

  function StepSlot(s: Scope, step: Step): Slot {
    match step
    case Dot(name) => name
    case Quoted(text) => text
    case ByName(name) => s.Name(name)
    case Index(i) => IndexSlot(i)
  }

  /** What the printed read gives: a name in it is one outside the pattern. */
  function ReadPath<V>(m: Values<V>, s: Scope, v: V, path: seq<Step>): V {
    if path == [] then v else m.get(ReadPath(m, s, v, path[..|path| - 1]), StepSlot(s, path[|path| - 1]))
  }

  function ReadAll<V>(m: Values<V>, s: Scope, v: V, names: seq<Destructured>): seq<(string, V)> {
    seq(|names|, i requires 0 <= i < |names| => (names[i].name, ReadPath(m, s, v, names[i].path)))
  }

  /** The value a name was last bound to. */
  function LastBound<V>(bound: seq<(string, V)>, name: string): Option<V> {
    if bound == [] then None
    else if bound[|bound| - 1].0 == name then Some(bound[|bound| - 1].1)
    else LastBound(bound[..|bound| - 1], name)
  }

  /** The names a pattern binds. */
  function NamesOf(p: Pattern): set<string>
    decreases p
  {
    match p
    case Bind(name) => {name}
    case Default(left) => NamesOf(left)
    case ObjectOf(properties) => NamesInFields(properties)
    case ArrayOf(elements) => NamesInElements(elements)
    case OtherTarget => {}
  }

  function NamesInFields(ps: seq<Property>): set<string>
    decreases ps
  {
    if ps == [] then {}
    else NamesInFields(ps[..|ps| - 1]) + NamesInField(ps[|ps| - 1])
  }

  function NamesInField(p: Property): set<string>
    decreases p
  {
    match p
    case Field(_, value) => NamesOf(value)
    case RestField => {}
  }

  function NamesInElements(es: seq<Element>): set<string>
    decreases es
  {
    if es == [] then {} else NamesInElements(es[..|es| - 1]) + NamesInElement(es[|es| - 1])
  }

  function NamesInElement(e: Element): set<string>
    decreases e
  {
    match e
    case At(pattern) => NamesOf(pattern)
    case _ => {}
  }

  /**
   * How destructuring ends: with the names bound so far, at a name of the
   * pattern that is read before it is bound, at a default, at a value that has
   * no members, or at one that an array pattern cannot iterate.
   */
  datatype Outcome<V> = Threw | Defaulted | NoMembers | NotIterable | Done(bound: seq<(string, V)>)

  /** A key's property, `all` being the names of the whole pattern: they hide those outside. */
  function KeySlot<V>(m: Values<V>, s: Scope, all: set<string>, bound: seq<(string, V)>, key: Key): Option<Slot> {
    match key
    case PlainKey(name) => Some(name)
    case LiteralKey(text, _) => Some(text)
    case ComputedText(text) => Some(text)
    case ComputedName(name) =>
      var value := LastBound(bound, name);
      if value.Some? then Some(m.text(value.value)) else if name in all then None else Some(s.Name(name))
    case OtherKey(id) => Some(s.Other(id))
  }

  /** Destructuring `v`, in the order of the pattern. */
  function Run<V>(m: Values<V>, s: Scope, all: set<string>, bound: seq<(string, V)>, v: V, p: Pattern): Outcome<V>
    decreases p
  {
    match p
    case Bind(name) => Done(bound + [(name, v)])
    case Default(left) => if m.absent(v) then Defaulted else Run(m, s, all, bound, v, left)
    case ObjectOf(properties) => if m.bare(v) then NoMembers else RunFields(m, s, all, bound, v, properties)
    case ArrayOf(elements) =>
      if m.bare(v) then NoMembers
      else if !m.iterable(v) then NotIterable
      else RunElements(m, s, all, bound, v, elements)
    case OtherTarget => Done(bound)
  }

  function RunFields<V>(
      m: Values<V>, s: Scope, all: set<string>, bound: seq<(string, V)>, v: V, ps: seq<Property>): Outcome<V>
    decreases ps
  {
    if ps == [] then Done(bound)
    else
      var before := RunFields(m, s, all, bound, v, ps[..|ps| - 1]);
      if before.Done? then RunField(m, s, all, before.bound, v, ps[|ps| - 1]) else before
  }

  function RunField<V>(m: Values<V>, s: Scope, all: set<string>, bound: seq<(string, V)>, v: V, p: Property): Outcome<V>
    decreases p
  {
    match p
    case Field(key, value) =>
      var slot := KeySlot(m, s, all, bound, key);
      if slot.None? then Threw else Run(m, s, all, bound, m.get(v, slot.value), value)
    case RestField => Done(bound)
  }

  function RunElements<V>(
      m: Values<V>, s: Scope, all: set<string>, bound: seq<(string, V)>, v: V, es: seq<Element>): Outcome<V>
    decreases es
  {
    if es == [] then Done(bound)
    else
      var before := RunElements(m, s, all, bound, v, es[..|es| - 1]);
      if before.Done? then RunElement(m, s, all, before.bound, v, |es| - 1, es[|es| - 1]) else before
  }

  function RunElement<V>(
      m: Values<V>, s: Scope, all: set<string>, bound: seq<(string, V)>, v: V, index: nat, e: Element): Outcome<V>
    decreases e
  {
    match e
    case At(pattern) => Run(m, s, all, bound, m.item(v, index), pattern)
    case _ => Done(bound)
  }

  /** Destructuring takes a default, or has nothing to read, or binds name by name what the paths read. */
  ghost predicate RightAt<V>(m: Values<V>, s: Scope, v: V, p: Pattern) {
    var outcome := Run(m, s, NamesOf(p), [], v, p);
    outcome.Defaulted? || outcome.NoMembers? || outcome == Done(ReadAll(m, s, v, Paths(p, [])))
  }

  // ---- the values whose arrays a path can read

  ghost predicate AsIndexed<V>(m: Values<V>, v: V) {
    m.iterable(v) && forall i: nat :: m.item(v, i) == m.get(v, IndexSlot(i))
  }

  /** Every part of `v` that an array pattern takes apart is iterated as it is indexed. */
  ghost predicate Indexed<V>(m: Values<V>, s: Scope, all: set<string>, bound: seq<(string, V)>, v: V, p: Pattern)
    decreases p
  {
    match p
    case Default(left) => m.absent(v) || Indexed(m, s, all, bound, v, left)
    case ObjectOf(properties) => m.bare(v) || FieldsIndexed(m, s, all, bound, v, properties)
    case ArrayOf(elements) => m.bare(v) || (AsIndexed(m, v) && ElementsIndexed(m, s, all, bound, v, elements))
    case _ => true
  }

  ghost predicate FieldsIndexed<V>(
      m: Values<V>, s: Scope, all: set<string>, bound: seq<(string, V)>, v: V, ps: seq<Property>)
    decreases ps
  {
    ps == [] ||
    var before := RunFields(m, s, all, bound, v, ps[..|ps| - 1]);
    FieldsIndexed(m, s, all, bound, v, ps[..|ps| - 1]) &&
    (before.Done? ==> FieldIndexed(m, s, all, before.bound, v, ps[|ps| - 1]))
  }

  ghost predicate FieldIndexed<V>(
      m: Values<V>, s: Scope, all: set<string>, bound: seq<(string, V)>, v: V, p: Property)
    decreases p
  {
    match p
    case Field(key, value) =>
      var slot := KeySlot(m, s, all, bound, key);
      slot.Some? ==> Indexed(m, s, all, bound, m.get(v, slot.value), value)
    case RestField => true
  }

  ghost predicate ElementsIndexed<V>(
      m: Values<V>, s: Scope, all: set<string>, bound: seq<(string, V)>, v: V, es: seq<Element>)
    decreases es
  {
    es == [] ||
    var before := RunElements(m, s, all, bound, v, es[..|es| - 1]);
    ElementsIndexed(m, s, all, bound, v, es[..|es| - 1]) &&
    (before.Done? ==> ElementIndexed(m, s, all, before.bound, v, |es| - 1, es[|es| - 1]))
  }

  ghost predicate ElementIndexed<V>(
      m: Values<V>, s: Scope, all: set<string>, bound: seq<(string, V)>, v: V, index: nat, e: Element)
    decreases e
  {
    e.At? ==> Indexed(m, s, all, bound, m.item(v, index), e.pattern)
  }

  /** No array pattern anywhere. */
  predicate NoArrays(p: Pattern)
    decreases p
  {
    match p
    case Default(left) => NoArrays(left)
    case ObjectOf(properties) =>
      forall i :: 0 <= i < |properties| ==> properties[i].Field? ==> NoArrays(properties[i].value)
    case ArrayOf(_) => false
    case _ => true
  }

  /** No array is taken apart, or every value is iterated as it is indexed. */
  ghost predicate ArraysFit<V(!new)>(m: Values<V>, p: Pattern) { NoArrays(p) || forall v: V :: AsIndexed(m, v) }

  lemma {:induction false} FitIsIndexed<V(!new)>(
      m: Values<V>, s: Scope, all: set<string>, bound: seq<(string, V)>, v: V, p: Pattern)
    requires ArraysFit(m, p)
    ensures Indexed(m, s, all, bound, v, p)
    decreases p
  {
    match p
    case Bind(_) =>
    case Default(left) => FitIsIndexed(m, s, all, bound, v, left);
    case ObjectOf(properties) => FitFieldsIndexed(m, s, all, bound, v, properties);
    case ArrayOf(elements) => FitElementsIndexed(m, s, all, bound, v, elements);
    case OtherTarget =>
  }

  lemma {:induction false} FitFieldsIndexed<V(!new)>(
      m: Values<V>, s: Scope, all: set<string>, bound: seq<(string, V)>, v: V, ps: seq<Property>)
    requires forall i :: 0 <= i < |ps| ==> ps[i].Field? ==> ArraysFit(m, ps[i].value)
    ensures FieldsIndexed(m, s, all, bound, v, ps)
    decreases ps
  {
    if ps != [] {
      var n := |ps| - 1;
      FitFieldsIndexed(m, s, all, bound, v, ps[..n]);
      var before := RunFields(m, s, all, bound, v, ps[..n]);
      if before.Done? && ps[n].Field? {
        var slot := KeySlot(m, s, all, before.bound, ps[n].key);
        if slot.Some? {
          assert ps[n].value < ps[n];
          FitIsIndexed(m, s, all, before.bound, m.get(v, slot.value), ps[n].value);
        }
      }
    }
  }

  lemma {:induction false} FitElementsIndexed<V(!new)>(
      m: Values<V>, s: Scope, all: set<string>, bound: seq<(string, V)>, v: V, es: seq<Element>)
    requires forall v: V :: AsIndexed(m, v)
    ensures ElementsIndexed(m, s, all, bound, v, es)
    decreases es
  {
    if es != [] {
      var n := |es| - 1;
      FitElementsIndexed(m, s, all, bound, v, es[..n]);
      var before := RunElements(m, s, all, bound, v, es[..n]);
      if before.Done? && es[n].At? {
        assert es[n].pattern < es[n];
        FitIsIndexed(m, s, all, before.bound, m.item(v, n), es[n].pattern);
      }
    }
  }

  // ---- the keys a path can express

  /**
   * A key reads the same inside the pattern and outside it, or nothing is read
   * below it. `before` are the names bound so far.
   */
  predicate KeyFits(all: set<string>, before: set<string>, key: Key, below: set<string>) {
    match key
    case LiteralKey(text, printed) => text == printed || below == {}
    case ComputedName(name) => if name in before then below == {} else name !in all
    case OtherKey(_) => below == {}
    case _ => true
  }

  predicate KeysFit(all: set<string>, before: set<string>, p: Pattern)
    decreases p
  {
    match p
    case Default(left) => KeysFit(all, before, left)
    case ObjectOf(properties) => FieldsFit(all, before, properties)
    case ArrayOf(elements) => ElementsFit(all, before, elements)
    case _ => true
  }

  predicate FieldsFit(all: set<string>, before: set<string>, ps: seq<Property>)
    decreases ps
  {
    ps == [] ||
    (FieldsFit(all, before, ps[..|ps| - 1]) && FieldFits(all, before + NamesInFields(ps[..|ps| - 1]), ps[|ps| - 1]))
  }

  predicate FieldFits(all: set<string>, before: set<string>, p: Property)
    decreases p
  {
    p.Field? ==> KeyFits(all, before, p.key, NamesOf(p.value)) && KeysFit(all, before, p.value)
  }

  predicate ElementsFit(all: set<string>, before: set<string>, es: seq<Element>)
    decreases es
  {
    es == [] ||
    (ElementsFit(all, before, es[..|es| - 1]) &&
      ElementFits(all, before + NamesInElements(es[..|es| - 1]), es[|es| - 1]))
  }

  predicate ElementFits(all: set<string>, before: set<string>, e: Element)
    decreases e
  {
    e.At? ==> KeysFit(all, before, e.pattern)
  }

  // ---- then the paths are right

  ghost predicate BoundAre<V>(bound: seq<(string, V)>, names: set<string>) {
    forall x :: x in names <==> LastBound(bound, x).Some?
  }

  lemma BoundOneMore<V>(bound: seq<(string, V)>, names: set<string>, name: string, v: V)
    requires BoundAre(bound, names)
    ensures BoundAre(bound + [(name, v)], names + {name})
  {
    assert (bound + [(name, v)])[..|bound|] == bound;
  }

  lemma ReadAllConcat<V>(m: Values<V>, s: Scope, v: V, a: seq<Destructured>, b: seq<Destructured>)
    ensures ReadAll(m, s, v, a + b) == ReadAll(m, s, v, a) + ReadAll(m, s, v, b)
  {
  }

  lemma ReadOneMore<V>(m: Values<V>, s: Scope, v: V, path: seq<Step>, step: Step)
    ensures ReadPath(m, s, v, path + [step]) == m.get(ReadPath(m, s, v, path), StepSlot(s, step))
  {
    assert (path + [step])[..|path|] == path;
  }

  /** The outcome of one part of a pattern: what it binds is what its paths read from `root`. */
  ghost predicate Agrees<V>(
      m: Values<V>, s: Scope, root: V, bound: seq<(string, V)>, before: set<string>, names: set<string>,
      outcome: Outcome<V>, paths: seq<Destructured>)
  {
    !outcome.Threw? && !outcome.NotIterable? &&
    (outcome.Done? ==> outcome.bound == bound + ReadAll(m, s, root, paths) && BoundAre(outcome.bound, before + names))
  }

  lemma {:induction false} RunAgrees<V>(
      m: Values<V>, s: Scope, all: set<string>, bound: seq<(string, V)>, before: set<string>, root: V, v: V,
      p: Pattern, path: seq<Step>)
    requires Supported(p) && KeysFit(all, before, p) && BoundAre(bound, before) && Indexed(m, s, all, bound, v, p)
    requires NamesOf(p) != {} ==> v == ReadPath(m, s, root, path)
    ensures Agrees(m, s, root, bound, before, NamesOf(p), Run(m, s, all, bound, v, p), Paths(p, path))
    decreases p
  {
    match p
    case Bind(name) =>
      BoundOneMore(bound, before, name, v);
      assert ReadAll(m, s, root, Paths(p, path)) == [(name, v)];
    case Default(left) =>
      if !m.absent(v) { RunAgrees(m, s, all, bound, before, root, v, left, path); }
    case ObjectOf(properties) =>
      if !m.bare(v) { FieldsAgree(m, s, all, bound, before, root, v, properties, path); }
    case ArrayOf(elements) =>
      if !m.bare(v) { ElementsAgree(m, s, all, bound, before, root, v, elements, path); }
  }

  lemma {:induction false} FieldsAgree<V>(
      m: Values<V>, s: Scope, all: set<string>, bound: seq<(string, V)>, before: set<string>, root: V, v: V,
      ps: seq<Property>, path: seq<Step>)
    requires forall i :: 0 <= i < |ps| ==> ps[i].Field? && Supported(ps[i].value)
    requires FieldsFit(all, before, ps) && BoundAre(bound, before) && FieldsIndexed(m, s, all, bound, v, ps)
    requires NamesInFields(ps) != {} ==> v == ReadPath(m, s, root, path)
    ensures Agrees(m, s, root, bound, before, NamesInFields(ps), RunFields(m, s, all, bound, v, ps),
      FieldPaths(ps, path))
    decreases ps
  {
    if ps == [] {
      NothingMore(m, s, root, bound, before);
    } else {
      var n := |ps| - 1;
      FieldsAgree(m, s, all, bound, before, root, v, ps[..n], path);
      var first := RunFields(m, s, all, bound, v, ps[..n]);
      if first.Done? {
        var then' := before + NamesInFields(ps[..n]);
        FieldAgrees(m, s, all, first.bound, then', root, v, ps[n], path);
        hide *;
        AgreeInTurn(m, s, root, bound, before, NamesInFields(ps[..n]), first, FieldPaths(ps[..n], path),
                    NamesInField(ps[n]), RunField(m, s, all, first.bound, v, ps[n]), FieldPath(ps[n], path));
        FieldsInTurn(m, s, all, bound, v, ps, path);
      }
    }
  }

  lemma FieldsInTurn<V>(
      m: Values<V>, s: Scope, all: set<string>, bound: seq<(string, V)>, v: V, ps: seq<Property>, path: seq<Step>)
    requires ps != []
    ensures var n := |ps| - 1;
            NamesInFields(ps) == NamesInFields(ps[..n]) + NamesInField(ps[n]) &&
            FieldPaths(ps, path) == FieldPaths(ps[..n], path) + FieldPath(ps[n], path) &&
            var first := RunFields(m, s, all, bound, v, ps[..n]);
            RunFields(m, s, all, bound, v, ps) == if first.Done? then RunField(m, s, all, first.bound, v, ps[n])
              else first
  {
  }

  lemma NothingMore<V>(m: Values<V>, s: Scope, root: V, bound: seq<(string, V)>, before: set<string>)
    requires BoundAre(bound, before)
    ensures Agrees(m, s, root, bound, before, {}, Done(bound), [])
  {
    assert before + {} == before;
  }

  lemma AgreeInTurn<V>(
      m: Values<V>, s: Scope, root: V, bound: seq<(string, V)>, before: set<string>,
      names: set<string>, first: Outcome<V>, paths: seq<Destructured>,
      names': set<string>, second: Outcome<V>, paths': seq<Destructured>)
    requires Agrees(m, s, root, bound, before, names, first, paths) && first.Done?
    requires Agrees(m, s, root, first.bound, before + names, names', second, paths')
    ensures Agrees(m, s, root, bound, before, names + names', second, paths + paths')
  {
    ReadAllConcat(m, s, root, paths, paths');
    assert before + names + names' == before + (names + names');
  }

  lemma {:induction false} FieldAgrees<V>(
      m: Values<V>, s: Scope, all: set<string>, bound: seq<(string, V)>, before: set<string>, root: V, v: V,
      p: Property, path: seq<Step>)
    requires p.Field? && Supported(p.value) && FieldFits(all, before, p) && BoundAre(bound, before)
    requires FieldIndexed(m, s, all, bound, v, p)
    requires NamesInField(p) != {} ==> v == ReadPath(m, s, root, path)
    ensures Agrees(m, s, root, bound, before, NamesInField(p), RunField(m, s, all, bound, v, p), FieldPath(p, path))
    decreases p
  {
    var slot := KeySlot(m, s, all, bound, p.key);
    assert slot.Some?;
    ReadOneMore(m, s, root, path, StepOf(p.key));
    RunAgrees(m, s, all, bound, before, root, m.get(v, slot.value), p.value, path + [StepOf(p.key)]);
  }

  lemma {:induction false} ElementsAgree<V>(
      m: Values<V>, s: Scope, all: set<string>, bound: seq<(string, V)>, before: set<string>, root: V, v: V,
      es: seq<Element>, path: seq<Step>)
    requires forall i :: 0 <= i < |es| ==> !es[i].RestElement? && (es[i].At? ==> Supported(es[i].pattern))
    requires ElementsFit(all, before, es) && BoundAre(bound, before)
    requires AsIndexed(m, v) && ElementsIndexed(m, s, all, bound, v, es)
    requires NamesInElements(es) != {} ==> v == ReadPath(m, s, root, path)
    ensures Agrees(m, s, root, bound, before, NamesInElements(es), RunElements(m, s, all, bound, v, es),
      ElementPaths(es, path))
    decreases es
  {
    if es == [] {
      NothingMore(m, s, root, bound, before);
    } else {
      var n := |es| - 1;
      ElementsAgree(m, s, all, bound, before, root, v, es[..n], path);
      var first := RunElements(m, s, all, bound, v, es[..n]);
      if first.Done? {
        var then' := before + NamesInElements(es[..n]);
        ElementAgrees(m, s, all, first.bound, then', root, v, n, es[n], path);
        hide *;
        AgreeInTurn(m, s, root, bound, before, NamesInElements(es[..n]), first, ElementPaths(es[..n], path),
                    NamesInElement(es[n]), RunElement(m, s, all, first.bound, v, n, es[n]),
                      ElementPath(n, es[n], path));
        ElementsInTurn(m, s, all, bound, v, es, path);
      }
    }
  }

  lemma ElementsInTurn<V>(
      m: Values<V>, s: Scope, all: set<string>, bound: seq<(string, V)>, v: V, es: seq<Element>, path: seq<Step>)
    requires es != []
    ensures var n := |es| - 1;
            NamesInElements(es) == NamesInElements(es[..n]) + NamesInElement(es[n]) &&
            ElementPaths(es, path) == ElementPaths(es[..n], path) + ElementPath(n, es[n], path) &&
            var first := RunElements(m, s, all, bound, v, es[..n]);
            RunElements(m, s, all, bound, v, es) == if first.Done? then
              RunElement(m, s, all, first.bound, v, n, es[n]) else first
  {
  }

  lemma {:induction false} ElementAgrees<V>(
      m: Values<V>, s: Scope, all: set<string>, bound: seq<(string, V)>, before: set<string>, root: V, v: V,
      index: nat, e: Element, path: seq<Step>)
    requires !e.RestElement? && (e.At? ==> Supported(e.pattern)) && ElementFits(all, before, e)
    requires BoundAre(bound, before) && AsIndexed(m, v) && ElementIndexed(m, s, all, bound, v, index, e)
    requires NamesInElement(e) != {} ==> v == ReadPath(m, s, root, path)
    ensures Agrees(m, s, root, bound, before, NamesInElement(e), RunElement(m, s, all, bound, v, index, e),
      ElementPath(index, e, path))
    decreases e
  {
    if e.At? {
      assert m.item(v, index) == m.get(v, StepSlot(s, Index(index)));
      hide IndexSlot, StepSlot, AsIndexed, ReadPath, ReadAll;
      ReadOneMore(m, s, root, path, Index(index));
      RunAgrees(m, s, all, bound, before, root, m.item(v, index), e.pattern, path + [Index(index)]);
    } else {
      NothingMore(m, s, root, bound, before);
    }
  }

  /**
   * When every key fits, the paths are right for any value whose arrays are
   * iterated as they are indexed: reading them gives, name by name and in order,
   * what destructuring binds.
   */
  lemma PathsReadBindings<V>(m: Values<V>, s: Scope, v: V, p: Pattern)
    requires Supported(p) && KeysFit(NamesOf(p), {}, p) && Indexed(m, s, NamesOf(p), [], v, p)
    ensures RightAt(m, s, v, p)
  {
    var nothing: seq<(string, V)> := [];
    assert forall x: string :: LastBound(nothing, x) == None;
    RunAgrees(m, s, NamesOf(p), nothing, {}, v, v, p, []);
    assert nothing + ReadAll(m, s, v, Paths(p, [])) == ReadAll(m, s, v, Paths(p, []));
  }
}
