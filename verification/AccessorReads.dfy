/**
 * Rewriting the reads of bound names into other expressions
 * (packages/core/src/accessor-reads.ts), over a small syntax of expressions
 * with targets and scopes.
 */
module AccessorReads {
  import opened Wrappers

  /**
   * `Operation` is everything that neither binds nor writes: calls, members,
   * operators, literals with parts, casts. `Loop` is a `for-of` or `for-in`
   * over an existing target. `Scope` is whatever binds names for its parts: a
   * function (its patterns are the parameters), a block or a loop with
   * declarations, a catch clause; a declaration inside a block is an
   * `Assignment` to names the block binds.
   */
  datatype Expr =
    | Literal(text: string)
    | Name(name: string)
    | Operation(kind: string, operands: seq<Expr>)
    | Assignment(operator: string, target: Target, value: Expr)
    | Update(operator: string, target: Target)
    | Loop(kind: string, target: Target, source: Expr, body: Expr)
    | Scope(kind: string, names: set<string>, patterns: seq<Target>, parts: seq<Expr>)

  /**
   * What is written to. `ToCast` is a name or member behind a TypeScript
   * wrapper (`p!`, `p as T`). `Replaced` never comes from parsing: it is what
   * a replacement put in a target's place would be.
   */
  datatype Target =
    | ToName(name: string)
    | ToMember(kind: string, operands: seq<Expr>)
    | ToArray(elements: seq<Target>)
    | ToObject(keys: seq<Expr>, values: seq<Target>)
    | ToRest(argument: Target)
    | ToDefault(left: Target, right: Expr)
    | ToCast(inner: Target)
    | Replaced(read: Expr)

  type Rewrites = map<string, Expr>

  /** `active`: the name is rewritten, and nothing on the way to it binds it. */
  predicate Active(rewrites: Rewrites, bound: set<string>, name: string) {
    name in rewrites && name !in bound
  }

  // ---- the rewriting

  /** The identifiers `rejectAssignmentTo` visits in a target: a cast is not looked through. */
  predicate Rejected(rewrites: Rewrites, bound: set<string>, t: Target)
    decreases t
  {
    match t
    case ToName(name) => Active(rewrites, bound, name)
    case ToArray(elements) => exists i :: 0 <= i < |elements| && Rejected(rewrites, bound, elements[i])
    case ToObject(_, values) => exists i :: 0 <= i < |values| && Rejected(rewrites, bound, values[i])
    case ToRest(argument) => Rejected(rewrites, bound, argument)
    case ToDefault(left, _) => Rejected(rewrites, bound, left)
    case _ => false
  }

  /** Some assignment, update or loop in `e` writes an active name. */
  predicate Raises(rewrites: Rewrites, bound: set<string>, e: Expr)
    decreases e
  {
    match e
    case Literal(_) => false
    case Name(_) => false
    case Operation(_, operands) => exists i :: 0 <= i < |operands| && Raises(rewrites, bound, operands[i])
    case Assignment(_, target, value) =>
      Rejected(rewrites, bound, target) || RaisesInside(rewrites, bound, target) || Raises(rewrites, bound, value)
    case Update(_, target) => Rejected(rewrites, bound, target) || RaisesInside(rewrites, bound, target)
    case Loop(_, target, source, body) =>
      Rejected(rewrites, bound, target) || RaisesInside(rewrites, bound, target) ||
      Raises(rewrites, bound, source) || Raises(rewrites, bound, body)
    case Scope(_, names, patterns, parts) =>
      (exists i :: 0 <= i < |patterns| && RaisesInside(rewrites, bound + names, patterns[i])) ||
      exists i :: 0 <= i < |parts| && Raises(rewrites, bound + names, parts[i])
  }

  /** As `Raises`, for the expressions inside a target: member objects, keys, defaults. */
  predicate RaisesInside(rewrites: Rewrites, bound: set<string>, t: Target)
    decreases t
  {
    match t
    case ToName(_) => false
    case ToMember(_, operands) => exists i :: 0 <= i < |operands| && Raises(rewrites, bound, operands[i])
    case ToArray(elements) => exists i :: 0 <= i < |elements| && RaisesInside(rewrites, bound, elements[i])
    case ToObject(keys, values) =>
      (exists i :: 0 <= i < |keys| && Raises(rewrites, bound, keys[i])) ||
      exists i :: 0 <= i < |values| && RaisesInside(rewrites, bound, values[i])
    case ToRest(argument) => RaisesInside(rewrites, bound, argument)
    case ToDefault(left, right) => RaisesInside(rewrites, bound, left) || Raises(rewrites, bound, right)
    case ToCast(inner) => RaisesInside(rewrites, bound, inner)
    case Replaced(read) => Raises(rewrites, bound, read)
  }

  /** Every active name that is read becomes its `read`; the rest of the tree stays. */
  function Rewritten(rewrites: Rewrites, bound: set<string>, e: Expr): Expr
    decreases e
  {
    match e
    case Literal(_) => e
    case Name(name) => if Active(rewrites, bound, name) then rewrites[name] else e
    case Operation(kind, operands) =>
      Operation(kind, seq(|operands|, i requires 0 <= i < |operands| => Rewritten(rewrites, bound, operands[i])))
    case Assignment(operator, target, value) =>
      Assignment(operator, RewrittenTarget(rewrites, bound, target), Rewritten(rewrites, bound, value))
    case Update(operator, target) => Update(operator, RewrittenTarget(rewrites, bound, target))
    case Loop(kind, target, source, body) =>
      Loop(kind, RewrittenTarget(rewrites, bound, target), Rewritten(rewrites, bound, source),
        Rewritten(rewrites, bound, body))
    case Scope(kind, names, patterns, parts) =>
      Scope(kind, names,
            seq(|patterns|, i requires 0 <= i < |patterns| => RewrittenTarget(rewrites, bound + names, patterns[i])),
            seq(|parts|, i requires 0 <= i < |parts| => Rewritten(rewrites, bound + names, parts[i])))
  }

  /** A name in target position is no read, but behind a cast Babel counts it as one. */
  function RewrittenTarget(rewrites: Rewrites, bound: set<string>, t: Target): Target
    decreases t
  {
    match t
    case ToName(_) => t
    case ToMember(kind, operands) =>
      ToMember(kind, seq(|operands|, i requires 0 <= i < |operands| => Rewritten(rewrites, bound, operands[i])))
    case ToArray(elements) =>
      ToArray(seq(|elements|, i requires 0 <= i < |elements| => RewrittenTarget(rewrites, bound, elements[i])))
    case ToObject(keys, values) =>
      ToObject(seq(|keys|, i requires 0 <= i < |keys| => Rewritten(rewrites, bound, keys[i])),
               seq(|values|, i requires 0 <= i < |values| => RewrittenTarget(rewrites, bound, values[i])))
    case ToRest(argument) => ToRest(RewrittenTarget(rewrites, bound, argument))
    case ToDefault(left, right) => ToDefault(RewrittenTarget(rewrites, bound, left), Rewritten(rewrites, bound, right))
    case ToCast(ToName(name)) => if Active(rewrites, bound, name) then ToCast(Replaced(rewrites[name])) else t
    case ToCast(inner) => ToCast(RewrittenTarget(rewrites, bound, inner))
    case Replaced(read) => Replaced(Rewritten(rewrites, bound, read))
  }

  // ---- the names of a tree, from the inside out

  /**
   * What a tree mentions freely: names it reads, names it writes outright,
   * names it writes behind a cast, and those that are the whole target of an
   * update or of a loop, which Babel counts among the referenced identifiers.
   */
  datatype Names = Names(read: set<string>, written: set<string>, castWritten: set<string>, stepped: set<string>) {
    function All(): set<string> { read + written + castWritten }

    function Without(names: set<string>): Names {
      Names(read - names, written - names, castWritten - names, stepped - names)
    }

    /** The target of an update or a loop. */
    function Stepping(t: Target): Names {
      if t.ToName? then this.(stepped := stepped + {t.name}) else this
    }

    /** What `freeIdentifiersIn` reports. */
    function Referenced(): set<string> { read + castWritten + stepped }
  }

  function Both(a: Names, b: Names): Names {
    Names(a.read + b.read, a.written + b.written, a.castWritten + b.castWritten, a.stepped + b.stepped)
  }

  const NOTHING := Names({}, {}, {}, {})

  function FreeNames(e: Expr): Names
    decreases e
  {
    match e
    case Literal(_) => NOTHING
    case Name(name) => Names({name}, {}, {}, {})
    case Operation(_, operands) => FreeInAll(operands)
    case Assignment(_, target, value) => Both(FreeInTarget(target), FreeNames(value))
    case Update(_, target) => FreeInTarget(target).Stepping(target)
    case Loop(_, target, source, body) =>
      Both(FreeInTarget(target).Stepping(target), Both(FreeNames(source), FreeNames(body)))
    case Scope(_, names, patterns, parts) => Both(FreeInTargets(patterns), FreeInAll(parts)).Without(names)
  }

  function FreeInAll(es: seq<Expr>): Names
    decreases es
  {
    if es == [] then NOTHING else Both(FreeInAll(es[..|es| - 1]), FreeNames(es[|es| - 1]))
  }

  function FreeInTarget(t: Target): Names
    decreases t
  {
    match t
    case ToName(name) => Names({}, {name}, {}, {})
    case ToMember(_, operands) => FreeInAll(operands)
    case ToArray(elements) => FreeInTargets(elements)
    case ToObject(keys, values) => Both(FreeInAll(keys), FreeInTargets(values))
    case ToRest(argument) => FreeInTarget(argument)
    case ToDefault(left, right) => Both(FreeInTarget(left), FreeNames(right))
    case ToCast(ToName(name)) => Names({}, {}, {name}, {})
    case ToCast(inner) => FreeInTarget(inner)
    case Replaced(read) => FreeNames(read)
  }

  function FreeInTargets(ts: seq<Target>): Names
    decreases ts
  {
    if ts == [] then NOTHING else Both(FreeInTargets(ts[..|ts| - 1]), FreeInTarget(ts[|ts| - 1]))
  }

  // ---- a meaning for every tree

  /** What a target denotes: cells for names, computations for the expressions in it. */
  datatype Place<V, C> =
    | AtName(cell: Option<V>, name: string)
    | AtMember(kind: string, operands: seq<C>)
    | AtArray(elements: seq<Place<V, C>>)
    | AtObject(keys: seq<C>, values: seq<Place<V, C>>)
    | AtRest(argument: Place<V, C>)
    | AtDefault(left: Place<V, C>, right: C)
    | AtCast(inner: Place<V, C>)
    | AtValue(read: C)

  datatype Inner<V, C> = Inner(patterns: seq<Place<V, C>>, parts: seq<C>)

  /**
   * An arbitrary compositional meaning of the language. `V` is what a bound
   * name stands for (a value, a mutable cell, a getter), `C` what an
   * expression denotes (a value, or a computation with effects, failure and
   * divergence); a scope is given what its parts denote under every binding
   * of its names. A name bound nowhere is a global.
   */
  datatype Model<!V(==, !new), !C> = Model(
    literal: string -> C,
    read: (Option<V>, string) -> C,
    operation: (string, seq<C>) -> C,
    assign: (string, Place<V, C>, C) -> C,
    update: (string, Place<V, C>) -> C,
    loop: (string, Place<V, C>, C, C) -> C,
    scope: (string, imap<map<string, V>, Inner<V, C>>) -> C)

  function Lookup<V>(env: map<string, V>, name: string): Option<V> {
    if name in env then Some(env[name]) else None
  }

  ghost function Meaning<V(!new), C>(m: Model<V, C>, env: map<string, V>, e: Expr): C
    decreases e
  {
    match e
    case Literal(text) => m.literal(text)
    case Name(name) => m.read(Lookup(env, name), name)
    case Operation(kind, operands) => m.operation(kind, Meanings(m, env, operands))
    case Assignment(operator, target, value) => m.assign(operator, PlaceOf(m, env, target), Meaning(m, env, value))
    case Update(operator, target) => m.update(operator, PlaceOf(m, env, target))
    case Loop(kind, target, source, body) =>
      m.loop(kind, PlaceOf(m, env, target), Meaning(m, env, source), Meaning(m, env, body))
    case Scope(kind, names, patterns, parts) =>
      m.scope(kind, imap b: map<string, V> | b.Keys == names ::
        Inner(PlacesOf(m, env + b, patterns), Meanings(m, env + b, parts)))
  }

  ghost function Meanings<V(!new), C>(m: Model<V, C>, env: map<string, V>, es: seq<Expr>): (r: seq<C>)
    ensures |r| == |es|
    decreases es
  {
    if es == [] then [] else Meanings(m, env, es[..|es| - 1]) + [Meaning(m, env, es[|es| - 1])]
  }

  ghost function PlaceOf<V(!new), C>(m: Model<V, C>, env: map<string, V>, t: Target): Place<V, C>
    decreases t
  {
    match t
    case ToName(name) => AtName(Lookup(env, name), name)
    case ToMember(kind, operands) => AtMember(kind, Meanings(m, env, operands))
    case ToArray(elements) => AtArray(PlacesOf(m, env, elements))
    case ToObject(keys, values) => AtObject(Meanings(m, env, keys), PlacesOf(m, env, values))
    case ToRest(argument) => AtRest(PlaceOf(m, env, argument))
    case ToDefault(left, right) => AtDefault(PlaceOf(m, env, left), Meaning(m, env, right))
    case ToCast(inner) => AtCast(PlaceOf(m, env, inner))
    case Replaced(read) => AtValue(Meaning(m, env, read))
  }

  ghost function PlacesOf<V(!new), C>(m: Model<V, C>, env: map<string, V>, ts: seq<Target>): (r: seq<Place<V, C>>)
    ensures |r| == |ts|
    decreases ts
  {
    if ts == [] then [] else PlacesOf(m, env, ts[..|ts| - 1]) + [PlaceOf(m, env, ts[|ts| - 1])]
  }

  // ---- a meaning depends on the free names alone

  ghost predicate AgreeOn<V>(env: map<string, V>, env': map<string, V>, names: set<string>) {
    forall x <- names :: Lookup(env, x) == Lookup(env', x)
  }

  lemma {:induction false} MeaningIsLocal<V(!new), C>(
      m: Model<V, C>, env: map<string, V>, env': map<string, V>, e: Expr)
    requires AgreeOn(env, env', FreeNames(e).All())
    ensures Meaning(m, env, e) == Meaning(m, env', e)
    decreases e
  {
    match e
    case Literal(_) =>
    case Name(name) =>
    case Operation(_, operands) => MeaningsAreLocal(m, env, env', operands);
    case Assignment(_, target, value) =>
      PlaceIsLocal(m, env, env', target);
      MeaningIsLocal(m, env, env', value);
    case Update(_, target) => PlaceIsLocal(m, env, env', target);
    case Loop(_, target, source, body) =>
      PlaceIsLocal(m, env, env', target);
      MeaningIsLocal(m, env, env', source);
      MeaningIsLocal(m, env, env', body);
    case Scope(_, _, _, _) => ScopeIsLocal(m, env, env', e);
  }

  lemma {:induction false} ScopeIsLocal<V(!new), C>(m: Model<V, C>, env: map<string, V>, env': map<string, V>, e: Expr)
    requires e.Scope? && AgreeOn(env, env', FreeNames(e).All())
    ensures Meaning(m, env, e) == Meaning(m, env', e)
    decreases e, 0
  {
    hide PlacesOf, Meanings, FreeInTargets, FreeInAll;
    var Scope(kind, names, patterns, parts) := e;
    forall b: map<string, V> | b.Keys == names
      ensures PlacesOf(m, env + b, patterns) == PlacesOf(m, env' + b, patterns)
      ensures Meanings(m, env + b, parts) == Meanings(m, env' + b, parts)
    {
      assert forall x <- FreeInTargets(patterns).All() + FreeInAll(parts).All() ::
        x !in names ==> x in FreeNames(e).All() && Lookup(env, x) == Lookup(env', x);
      PlacesAreLocal(m, env + b, env' + b, patterns);
      MeaningsAreLocal(m, env + b, env' + b, parts);
    }
    assert (imap b: map<string, V> | b.Keys == names ::
      Inner(PlacesOf(m, env + b, patterns), Meanings(m, env + b, parts)))
        == (imap b: map<string, V> | b.Keys == names ::
          Inner(PlacesOf(m, env' + b, patterns), Meanings(m, env' + b, parts)));
  }

  lemma {:induction false} MeaningsAreLocal<V(!new), C>(
      m: Model<V, C>, env: map<string, V>, env': map<string, V>, es: seq<Expr>)
    requires AgreeOn(env, env', FreeInAll(es).All())
    ensures Meanings(m, env, es) == Meanings(m, env', es)
    decreases es
  {
    if es != [] {
      MeaningsAreLocal(m, env, env', es[..|es| - 1]);
      MeaningIsLocal(m, env, env', es[|es| - 1]);
    }
  }

  lemma {:induction false} PlaceIsLocal<V(!new), C>(
      m: Model<V, C>, env: map<string, V>, env': map<string, V>, t: Target)
    requires AgreeOn(env, env', FreeInTarget(t).All())
    ensures PlaceOf(m, env, t) == PlaceOf(m, env', t)
    decreases t
  {
    match t
    case ToName(_) =>
    case ToMember(_, operands) => MeaningsAreLocal(m, env, env', operands);
    case ToArray(elements) => PlacesAreLocal(m, env, env', elements);
    case ToObject(keys, values) =>
      MeaningsAreLocal(m, env, env', keys);
      PlacesAreLocal(m, env, env', values);
    case ToRest(argument) => PlaceIsLocal(m, env, env', argument);
    case ToDefault(left, right) =>
      PlaceIsLocal(m, env, env', left);
      MeaningIsLocal(m, env, env', right);
    case ToCast(inner) => PlaceIsLocal(m, env, env', inner);
    case Replaced(read) => MeaningIsLocal(m, env, env', read);
  }

  lemma {:induction false} PlacesAreLocal<V(!new), C>(
      m: Model<V, C>, env: map<string, V>, env': map<string, V>, ts: seq<Target>)
    requires AgreeOn(env, env', FreeInTargets(ts).All())
    ensures PlacesOf(m, env, ts) == PlacesOf(m, env', ts)
    decreases ts
  {
    if ts != [] {
      PlacesAreLocal(m, env, env', ts[..|ts| - 1]);
      PlaceIsLocal(m, env, env', ts[|ts| - 1]);
    }
  }

  // ---- trees that parsing gives

  /** The names a pattern names outright, defaults and members aside. */
  function Direct(t: Target): set<string>
    decreases t
  {
    match t
    case ToName(name) => {name}
    case ToArray(elements) => DirectIn(elements)
    case ToObject(_, values) => DirectIn(values)
    case ToRest(argument) => Direct(argument)
    case ToDefault(left, _) => Direct(left)
    case _ => {}
  }

  function DirectIn(ts: seq<Target>): set<string>
    decreases ts
  {
    if ts == [] then {} else DirectIn(ts[..|ts| - 1]) + Direct(ts[|ts| - 1])
  }

  /** A scope binds what its patterns name; a cast wraps a name, a member or a cast. */
  predicate Parsed(e: Expr)
    decreases e
  {
    match e
    case Literal(_) => true
    case Name(_) => true
    case Operation(_, operands) => AllParsed(operands)
    case Assignment(_, target, value) => ParsedTarget(target) && Parsed(value)
    case Update(_, target) => ParsedTarget(target)
    case Loop(_, target, source, body) => ParsedTarget(target) && Parsed(source) && Parsed(body)
    case Scope(_, names, patterns, parts) =>
      DirectIn(patterns) <= names && AllParsedTargets(patterns) && AllParsed(parts)
  }

  predicate AllParsed(es: seq<Expr>)
    decreases es
  {
    forall i :: 0 <= i < |es| ==> Parsed(es[i])
  }

  predicate ParsedTarget(t: Target)
    decreases t
  {
    match t
    case ToName(_) => true
    case ToMember(_, operands) => AllParsed(operands)
    case ToArray(elements) => AllParsedTargets(elements)
    case ToObject(keys, values) => AllParsed(keys) && AllParsedTargets(values)
    case ToRest(argument) => ParsedTarget(argument)
    case ToDefault(left, right) => ParsedTarget(left) && Parsed(right)
    case ToCast(inner) => (inner.ToName? || inner.ToMember? || inner.ToCast?) && ParsedTarget(inner)
    case Replaced(_) => false
  }

  predicate AllParsedTargets(ts: seq<Target>)
    decreases ts
  {
    forall i :: 0 <= i < |ts| ==> ParsedTarget(ts[i])
  }

  ghost predicate SomeActive(rewrites: Rewrites, bound: set<string>, names: set<string>) {
    exists x <- names :: Active(rewrites, bound, x)
  }

  // ---- what raises

  predicate RaisesAny(rewrites: Rewrites, bound: set<string>, es: seq<Expr>)
  {
    exists i :: 0 <= i < |es| && Raises(rewrites, bound, es[i])
  }

  predicate TargetRaises(rewrites: Rewrites, bound: set<string>, t: Target) {
    Rejected(rewrites, bound, t) || RaisesInside(rewrites, bound, t)
  }

  /**
   * The rewriting raises exactly when a name it rewrites, free in the tree and
   * not shadowed, is written outright: as an assignment, update or loop
   * target, inside any pattern.
   */
  lemma {:induction false} RaisesExactly(rewrites: Rewrites, bound: set<string>, e: Expr)
    requires Parsed(e)
    ensures Raises(rewrites, bound, e) <==> SomeActive(rewrites, bound, FreeNames(e).written)
    decreases e
  {
    match e
    case Literal(_) =>
    case Name(_) =>
    case Operation(_, operands) => RaisesExactlyAll(rewrites, bound, operands);
    case Assignment(_, target, value) =>
      TargetRaisesExactly(rewrites, bound, target);
      RaisesExactly(rewrites, bound, value);
    case Update(_, target) => TargetRaisesExactly(rewrites, bound, target);
    case Loop(_, target, source, body) =>
      TargetRaisesExactly(rewrites, bound, target);
      RaisesExactly(rewrites, bound, source);
      RaisesExactly(rewrites, bound, body);
    case Scope(_, names, patterns, parts) =>
      TargetsRaiseExactly(rewrites, bound + names, patterns);
      RaisesExactlyAll(rewrites, bound + names, parts);
      NothingRejected(rewrites, bound + names, patterns);
      var written := FreeInTargets(patterns).written + FreeInAll(parts).written;
      ActiveBelow(rewrites, bound, names, written);
  }

  lemma ActiveBelow(rewrites: Rewrites, bound: set<string>, names: set<string>, free: set<string>)
    ensures SomeActive(rewrites, bound + names, free) <==> SomeActive(rewrites, bound, free - names)
  {
    forall x | x in free && Active(rewrites, bound + names, x) ensures SomeActive(rewrites, bound, free - names) {
      assert x in free - names && Active(rewrites, bound, x);
    }
    forall x | x in free - names && Active(rewrites, bound, x) ensures SomeActive(rewrites, bound + names, free) {
      assert x in free && Active(rewrites, bound + names, x);
    }
  }

  lemma {:induction false} RaisesExactlyAll(rewrites: Rewrites, bound: set<string>, es: seq<Expr>)
    requires AllParsed(es)
    ensures RaisesAny(rewrites, bound, es) <==> SomeActive(rewrites, bound, FreeInAll(es).written)
    decreases es
  {
    if es != [] {
      var n := |es| - 1;
      RaisesExactlyAll(rewrites, bound, es[..n]);
      RaisesExactly(rewrites, bound, es[n]);
    }
  }

  lemma {:induction false} TargetRaisesExactly(rewrites: Rewrites, bound: set<string>, t: Target)
    requires ParsedTarget(t)
    ensures TargetRaises(rewrites, bound, t) <==> SomeActive(rewrites, bound, FreeInTarget(t).written)
    decreases t
  {
    match t
    case ToName(_) =>
    case ToMember(_, operands) => RaisesExactlyAll(rewrites, bound, operands);
    case ToArray(elements) => TargetsRaiseExactly(rewrites, bound, elements);
    case ToObject(keys, values) =>
      RaisesExactlyAll(rewrites, bound, keys);
      TargetsRaiseExactly(rewrites, bound, values);
    case ToRest(argument) => TargetRaisesExactly(rewrites, bound, argument);
    case ToDefault(left, right) =>
      TargetRaisesExactly(rewrites, bound, left);
      RaisesExactly(rewrites, bound, right);
    case ToCast(inner) =>
      if inner.ToName? {
        assert FreeInTarget(t).written == {} && !RaisesInside(rewrites, bound, inner);
      } else {
        assert FreeInTarget(t) == FreeInTarget(inner) && !Rejected(rewrites, bound, inner);
        TargetRaisesExactly(rewrites, bound, inner);
      }
  }

  lemma {:induction false} TargetsRaiseExactly(rewrites: Rewrites, bound: set<string>, ts: seq<Target>)
    requires AllParsedTargets(ts)
    ensures (exists i :: 0 <= i < |ts| && TargetRaises(rewrites, bound, ts[i])) <==>
            SomeActive(rewrites, bound, FreeInTargets(ts).written)
    decreases ts
  {
    if ts != [] {
      var n := |ts| - 1;
      TargetsRaiseExactly(rewrites, bound, ts[..n]);
      TargetRaisesExactly(rewrites, bound, ts[n]);
    }
  }

  /** The patterns of a scope write only what the scope binds. */
  lemma {:induction false} NothingRejected(rewrites: Rewrites, bound: set<string>, ts: seq<Target>)
    requires DirectIn(ts) <= bound
    ensures forall i :: 0 <= i < |ts| ==> !Rejected(rewrites, bound, ts[i])
    decreases ts
  {
    if ts != [] {
      var n := |ts| - 1;
      NothingRejected(rewrites, bound, ts[..n]);
      NotRejected(rewrites, bound, ts[n]);
      forall i | 0 <= i < |ts| ensures !Rejected(rewrites, bound, ts[i]) {
        if i < n { assert ts[i] == ts[..n][i]; }
      }
    }
  }

  lemma {:induction false} NotRejected(rewrites: Rewrites, bound: set<string>, t: Target)
    requires Direct(t) <= bound
    ensures !Rejected(rewrites, bound, t)
    decreases t
  {
    match t
    case ToArray(elements) => NothingRejected(rewrites, bound, elements);
    case ToObject(_, values) => NothingRejected(rewrites, bound, values);
    case ToRest(argument) => NotRejected(rewrites, bound, argument);
    case ToDefault(left, _) => NotRejected(rewrites, bound, left);
    case _ =>
  }

  // ---- an accepted rewriting keeps the meaning

  /** No replacement made below the binders `inner` uses a name one of them binds. */
  predicate Uncaptured(rewrites: Rewrites, bound: set<string>, inner: set<string>, e: Expr)
    decreases e
  {
    match e
    case Literal(_) => true
    case Name(name) => Active(rewrites, bound, name) ==> FreeNames(rewrites[name]).All() !! inner
    case Operation(_, operands) => AllUncaptured(rewrites, bound, inner, operands)
    case Assignment(_, target, value) =>
      TargetUncaptured(rewrites, bound, inner, target) && Uncaptured(rewrites, bound, inner, value)
    case Update(_, target) => TargetUncaptured(rewrites, bound, inner, target)
    case Loop(_, target, source, body) =>
      TargetUncaptured(rewrites, bound, inner, target) &&
      Uncaptured(rewrites, bound, inner, source) && Uncaptured(rewrites, bound, inner, body)
    case Scope(_, names, patterns, parts) =>
      AllTargetsUncaptured(rewrites, bound + names, inner + names, patterns) &&
      AllUncaptured(rewrites, bound + names, inner + names, parts)
  }

  predicate AllUncaptured(rewrites: Rewrites, bound: set<string>, inner: set<string>, es: seq<Expr>)
    decreases es
  {
    forall i :: 0 <= i < |es| ==> Uncaptured(rewrites, bound, inner, es[i])
  }

  predicate TargetUncaptured(rewrites: Rewrites, bound: set<string>, inner: set<string>, t: Target)
    decreases t
  {
    match t
    case ToName(_) => true
    case ToMember(_, operands) => AllUncaptured(rewrites, bound, inner, operands)
    case ToArray(elements) => AllTargetsUncaptured(rewrites, bound, inner, elements)
    case ToObject(keys, values) =>
      AllUncaptured(rewrites, bound, inner, keys) && AllTargetsUncaptured(rewrites, bound, inner, values)
    case ToRest(argument) => TargetUncaptured(rewrites, bound, inner, argument)
    case ToDefault(left, right) =>
      TargetUncaptured(rewrites, bound, inner, left) && Uncaptured(rewrites, bound, inner, right)
    case ToCast(t') => TargetUncaptured(rewrites, bound, inner, t')
    case Replaced(read) => Uncaptured(rewrites, bound, inner, read)
  }

  predicate AllTargetsUncaptured(rewrites: Rewrites, bound: set<string>, inner: set<string>, ts: seq<Target>)
    decreases ts
  {
    forall i :: 0 <= i < |ts| ==> TargetUncaptured(rewrites, bound, inner, ts[i])
  }

  /**
   * How the environment of the rewritten tree stands to the original's:
   * names that are not rewritten mean the same, and each `read`, where it can
   * be put, means what its name did.
   */
  ghost predicate Serves<V(!new), C>(
      m: Model<V, C>, rewrites: Rewrites, bound: set<string>, inner: set<string>, env: map<string, V>,
      env': map<string, V>)
  {
    (forall x :: !Active(rewrites, bound, x) ==> Lookup(env, x) == Lookup(env', x)) &&
    forall x :: Active(rewrites, bound, x) && FreeNames(rewrites[x]).All() !! inner ==>
      Meaning(m, env', rewrites[x]) == m.read(Lookup(env, x), x)
  }

  lemma ServesBelow<V(!new), C>(
      m: Model<V, C>, rewrites: Rewrites, bound: set<string>, inner: set<string>,
      env: map<string, V>, env': map<string, V>, b: map<string, V>)
    requires Serves(m, rewrites, bound, inner, env, env')
    ensures Serves(m, rewrites, bound + b.Keys, inner + b.Keys, env + b, env' + b)
  {
    forall x | Active(rewrites, bound + b.Keys, x) && FreeNames(rewrites[x]).All() !! inner + b.Keys
      ensures Meaning(m, env' + b, rewrites[x]) == m.read(Lookup(env + b, x), x)
    {
      assert Active(rewrites, bound, x) && FreeNames(rewrites[x]).All() !! inner;
      MeaningIsLocal(m, env' + b, env', rewrites[x]);
    }
    forall x | !Active(rewrites, bound + b.Keys, x) ensures Lookup(env + b, x) == Lookup(env' + b, x) {
      if x !in b {
        assert !Active(rewrites, bound, x);
      }
    }
  }

  function RewrittenAll(rewrites: Rewrites, bound: set<string>, es: seq<Expr>): (r: seq<Expr>)
    ensures |r| == |es| && forall i :: 0 <= i < |es| ==> r[i] == Rewritten(rewrites, bound, es[i])
  {
    seq(|es|, i requires 0 <= i < |es| => Rewritten(rewrites, bound, es[i]))
  }

  function RewrittenTargets(rewrites: Rewrites, bound: set<string>, ts: seq<Target>): (r: seq<Target>)
    ensures |r| == |ts| && forall i :: 0 <= i < |ts| ==> r[i] == RewrittenTarget(rewrites, bound, ts[i])
  {
    seq(|ts|, i requires 0 <= i < |ts| => RewrittenTarget(rewrites, bound, ts[i]))
  }

  /** Nothing written, outright or behind a cast, is a name to rewrite. */
  ghost predicate WritesNone(rewrites: Rewrites, bound: set<string>, free: Names) {
    !SomeActive(rewrites, bound, free.written) && !SomeActive(rewrites, bound, free.castWritten)
  }

  lemma WritesNoneOfEither(rewrites: Rewrites, bound: set<string>, a: Names, b: Names)
    requires WritesNone(rewrites, bound, Both(a, b))
    ensures WritesNone(rewrites, bound, a) && WritesNone(rewrites, bound, b)
  {
  }

  /**
   * In every model of the language, a rewriting that is not rejected, writes
   * no rewritten name behind a cast and captures nothing means in the new
   * environment what the original means in the old one.
   */
  lemma {:induction false} RewritingKeepsMeaning<V(!new), C>(
      m: Model<V, C>, rewrites: Rewrites, bound: set<string>, inner: set<string>,
      env: map<string, V>, env': map<string, V>, e: Expr)
    requires Parsed(e) && WritesNone(rewrites, bound, FreeNames(e)) && Uncaptured(rewrites, bound, inner, e)
    requires Serves(m, rewrites, bound, inner, env, env')
    ensures Meaning(m, env', Rewritten(rewrites, bound, e)) == Meaning(m, env, e)
    decreases e
  {
    match e
    case Literal(_) =>
    case Name(_) =>
    case Operation(_, operands) =>
      AllKeepMeaning(m, rewrites, bound, inner, env, env', operands);
      assert Rewritten(rewrites, bound, e).operands == RewrittenAll(rewrites, bound, operands);
    case Assignment(_, target, value) =>
      TargetKeepsMeaning(m, rewrites, bound, inner, env, env', target);
      RewritingKeepsMeaning(m, rewrites, bound, inner, env, env', value);
    case Update(_, target) => TargetKeepsMeaning(m, rewrites, bound, inner, env, env', target);
    case Loop(_, target, source, body) =>
      TargetKeepsMeaning(m, rewrites, bound, inner, env, env', target);
      RewritingKeepsMeaning(m, rewrites, bound, inner, env, env', source);
      RewritingKeepsMeaning(m, rewrites, bound, inner, env, env', body);
    case Scope(_, _, _, _) => ScopeKeepsMeaning(m, rewrites, bound, inner, env, env', e);
  }

  lemma {:induction false} ScopeKeepsMeaning<V(!new), C>(
      m: Model<V, C>, rewrites: Rewrites, bound: set<string>, inner: set<string>,
      env: map<string, V>, env': map<string, V>, e: Expr)
    requires e.Scope? && Parsed(e) && WritesNone(rewrites, bound, FreeNames(e)) && Uncaptured(rewrites, bound, inner, e)
    requires Serves(m, rewrites, bound, inner, env, env')
    ensures Meaning(m, env', Rewritten(rewrites, bound, e)) == Meaning(m, env, e)
    decreases e, 0
  {
    hide PlacesOf, Meanings, FreeInTargets, FreeInAll, Serves, SomeActive, AllParsed, AllParsedTargets, AllUncaptured,
      AllTargetsUncaptured;
    var Scope(kind, names, patterns, parts) := e;
    var bound', inner' := bound + names, inner + names;
    var patterns', parts' := RewrittenTargets(rewrites, bound', patterns), RewrittenAll(rewrites, bound', parts);
    ActiveBelow(rewrites, bound, names, FreeInTargets(patterns).written + FreeInAll(parts).written);
    ActiveBelow(rewrites, bound, names, FreeInTargets(patterns).castWritten + FreeInAll(parts).castWritten);
    WritesNoneOfEither(rewrites, bound', FreeInTargets(patterns), FreeInAll(parts));
    forall b: map<string, V> | b.Keys == names
      ensures PlacesOf(m, env' + b, patterns') == PlacesOf(m, env + b, patterns)
      ensures Meanings(m, env' + b, parts') == Meanings(m, env + b, parts)
    {
      ServesBelow(m, rewrites, bound, inner, env, env', b);
      TargetsKeepMeaning(m, rewrites, bound', inner', env + b, env' + b, patterns);
      AllKeepMeaning(m, rewrites, bound', inner', env + b, env' + b, parts);
    }
    assert Rewritten(rewrites, bound, e) == Scope(kind, names, patterns', parts');
    assert (imap b: map<string, V> | b.Keys == names ::
      Inner(PlacesOf(m, env' + b, patterns'), Meanings(m, env' + b, parts')))
        == (imap b: map<string, V> | b.Keys == names ::
          Inner(PlacesOf(m, env + b, patterns), Meanings(m, env + b, parts)));
  }

  lemma {:induction false} AllKeepMeaning<V(!new), C>(
      m: Model<V, C>, rewrites: Rewrites, bound: set<string>, inner: set<string>,
      env: map<string, V>, env': map<string, V>, es: seq<Expr>)
    requires AllParsed(es) && WritesNone(rewrites, bound, FreeInAll(es)) && AllUncaptured(rewrites, bound, inner, es)
    requires Serves(m, rewrites, bound, inner, env, env')
    ensures Meanings(m, env', RewrittenAll(rewrites, bound, es)) == Meanings(m, env, es)
    decreases es
  {
    if es != [] {
      hide Serves, Uncaptured, Parsed, Rewritten, FreeNames, SomeActive, Meaning, WritesNone;
      var n := |es| - 1;
      assert FreeInAll(es) == Both(FreeInAll(es[..n]), FreeNames(es[n]));
      assert RewrittenAll(rewrites, bound, es)[..n] == RewrittenAll(rewrites, bound, es[..n]);
      WritesNoneOfEither(rewrites, bound, FreeInAll(es[..n]), FreeNames(es[n]));
      AllKeepMeaning(m, rewrites, bound, inner, env, env', es[..n]);
      RewritingKeepsMeaning(m, rewrites, bound, inner, env, env', es[n]);
    }
  }

  lemma {:induction false} TargetKeepsMeaning<V(!new), C>(
      m: Model<V, C>, rewrites: Rewrites, bound: set<string>, inner: set<string>,
      env: map<string, V>, env': map<string, V>, t: Target)
    requires ParsedTarget(t) && WritesNone(rewrites, bound, FreeInTarget(t)) &&
      TargetUncaptured(rewrites, bound, inner, t)
    requires Serves(m, rewrites, bound, inner, env, env')
    ensures PlaceOf(m, env', RewrittenTarget(rewrites, bound, t)) == PlaceOf(m, env, t)
    decreases t, 0
  {
    match t
    case ToName(name) => assert name in FreeInTarget(t).written;
    case ToMember(_, operands) =>
      AllKeepMeaning(m, rewrites, bound, inner, env, env', operands);
      assert RewrittenTarget(rewrites, bound, t).operands == RewrittenAll(rewrites, bound, operands);
    case ToArray(elements) =>
      TargetsKeepMeaning(m, rewrites, bound, inner, env, env', elements);
      assert RewrittenTarget(rewrites, bound, t).elements == RewrittenTargets(rewrites, bound, elements);
    case ToObject(keys, values) =>
      AllKeepMeaning(m, rewrites, bound, inner, env, env', keys);
      TargetsKeepMeaning(m, rewrites, bound, inner, env, env', values);
      assert RewrittenTarget(rewrites, bound, t)
          == ToObject(RewrittenAll(rewrites, bound, keys), RewrittenTargets(rewrites, bound, values));
    case ToRest(argument) => TargetKeepsMeaning(m, rewrites, bound, inner, env, env', argument);
    case ToDefault(left, right) =>
      TargetKeepsMeaning(m, rewrites, bound, inner, env, env', left);
      RewritingKeepsMeaning(m, rewrites, bound, inner, env, env', right);
    case ToCast(t') => CastKeepsMeaning(m, rewrites, bound, inner, env, env', t');
  }

  lemma {:induction false} CastKeepsMeaning<V(!new), C>(
      m: Model<V, C>, rewrites: Rewrites, bound: set<string>, inner: set<string>,
      env: map<string, V>, env': map<string, V>, t: Target)
    requires ParsedTarget(ToCast(t)) && WritesNone(rewrites, bound, FreeInTarget(ToCast(t)))
    requires TargetUncaptured(rewrites, bound, inner, t) && Serves(m, rewrites, bound, inner, env, env')
    ensures PlaceOf(m, env', RewrittenTarget(rewrites, bound, ToCast(t))) == AtCast(PlaceOf(m, env, t))
    decreases t, 1
  {
    if t.ToName? {
      assert t.name in FreeInTarget(ToCast(t)).castWritten;
      assert !Active(rewrites, bound, t.name);
      assert RewrittenTarget(rewrites, bound, ToCast(t)) == ToCast(t);
    } else {
      assert FreeInTarget(ToCast(t)) == FreeInTarget(t);
      TargetKeepsMeaning(m, rewrites, bound, inner, env, env', t);
      assert RewrittenTarget(rewrites, bound, ToCast(t)) == ToCast(RewrittenTarget(rewrites, bound, t));
    }
  }

  lemma {:induction false} TargetsKeepMeaning<V(!new), C>(
      m: Model<V, C>, rewrites: Rewrites, bound: set<string>, inner: set<string>,
      env: map<string, V>, env': map<string, V>, ts: seq<Target>)
    requires AllParsedTargets(ts) && WritesNone(rewrites, bound, FreeInTargets(ts))
    requires AllTargetsUncaptured(rewrites, bound, inner, ts) && Serves(m, rewrites, bound, inner, env, env')
    ensures PlacesOf(m, env', RewrittenTargets(rewrites, bound, ts)) == PlacesOf(m, env, ts)
    decreases ts
  {
    hide Serves, SomeActive, RewrittenTarget, TargetUncaptured, ParsedTarget, PlaceOf, FreeInTarget, WritesNone;
    if ts != [] {
      var n := |ts| - 1;
      assert FreeInTargets(ts) == Both(FreeInTargets(ts[..n]), FreeInTarget(ts[n]));
      assert RewrittenTargets(rewrites, bound, ts)[..n] == RewrittenTargets(rewrites, bound, ts[..n]);
      WritesNoneOfEither(rewrites, bound, FreeInTargets(ts[..n]), FreeInTarget(ts[n]));
      TargetsKeepMeaning(m, rewrites, bound, inner, env, env', ts[..n]);
      TargetKeepsMeaning(m, rewrites, bound, inner, env, env', ts[n]);
    }
  }

  // ---- where a replacement lands

  /** Some target holds a replacement. */
  predicate Broken(e: Expr)
    decreases e
  {
    match e
    case Literal(_) => false
    case Name(_) => false
    case Operation(_, operands) => AnyBroken(operands)
    case Assignment(_, target, value) => BrokenTarget(target) || Broken(value)
    case Update(_, target) => BrokenTarget(target)
    case Loop(_, target, source, body) => BrokenTarget(target) || Broken(source) || Broken(body)
    case Scope(_, _, patterns, parts) => AnyBrokenTarget(patterns) || AnyBroken(parts)
  }

  predicate AnyBroken(es: seq<Expr>)
    decreases es
  {
    es != [] && (AnyBroken(es[..|es| - 1]) || Broken(es[|es| - 1]))
  }

  predicate BrokenTarget(t: Target)
    decreases t
  {
    match t
    case ToName(_) => false
    case ToMember(_, operands) => AnyBroken(operands)
    case ToArray(elements) => AnyBrokenTarget(elements)
    case ToObject(keys, values) => AnyBroken(keys) || AnyBrokenTarget(values)
    case ToRest(argument) => BrokenTarget(argument)
    case ToDefault(left, right) => BrokenTarget(left) || Broken(right)
    case ToCast(inner) => BrokenTarget(inner)
    case Replaced(_) => true
  }

  predicate AnyBrokenTarget(ts: seq<Target>)
    decreases ts
  {
    ts != [] && (AnyBrokenTarget(ts[..|ts| - 1]) || BrokenTarget(ts[|ts| - 1]))
  }

  predicate SoundReads(rewrites: Rewrites) { forall x <- rewrites :: !Broken(rewrites[x]) }

  lemma {:induction false} ParsedIsSound(e: Expr)
    requires Parsed(e)
    ensures !Broken(e)
    decreases e
  {
    match e
    case Literal(_) =>
    case Name(_) =>
    case Operation(_, operands) => AllParsedAreSound(operands);
    case Assignment(_, target, value) => ParsedTargetIsSound(target); ParsedIsSound(value);
    case Update(_, target) => ParsedTargetIsSound(target);
    case Loop(_, target, source, body) => ParsedTargetIsSound(target); ParsedIsSound(source); ParsedIsSound(body);
    case Scope(_, _, patterns, parts) => AllParsedTargetsAreSound(patterns); AllParsedAreSound(parts);
  }

  lemma {:induction false} AllParsedAreSound(es: seq<Expr>)
    requires AllParsed(es)
    ensures !AnyBroken(es)
    decreases es
  {
    if es != [] {
      AllParsedAreSound(es[..|es| - 1]);
      ParsedIsSound(es[|es| - 1]);
    }
  }

  lemma {:induction false} ParsedTargetIsSound(t: Target)
    requires ParsedTarget(t)
    ensures !BrokenTarget(t)
    decreases t
  {
    match t
    case ToName(_) =>
    case ToMember(_, operands) => AllParsedAreSound(operands);
    case ToArray(elements) => AllParsedTargetsAreSound(elements);
    case ToObject(keys, values) => AllParsedAreSound(keys); AllParsedTargetsAreSound(values);
    case ToRest(argument) => ParsedTargetIsSound(argument);
    case ToDefault(left, right) => ParsedTargetIsSound(left); ParsedIsSound(right);
    case ToCast(inner) => ParsedTargetIsSound(inner);
  }

  lemma {:induction false} AllParsedTargetsAreSound(ts: seq<Target>)
    requires AllParsedTargets(ts)
    ensures !AnyBrokenTarget(ts)
    decreases ts
  {
    if ts != [] {
      AllParsedTargetsAreSound(ts[..|ts| - 1]);
      ParsedTargetIsSound(ts[|ts| - 1]);
    }
  }

  /**
   * A replacement lands in a target's place exactly when a name to rewrite is
   * written behind a cast: everything else is either rejected or a read.
   */
  lemma {:induction false} BreaksExactly(rewrites: Rewrites, bound: set<string>, e: Expr)
    requires Parsed(e) && SoundReads(rewrites)
    ensures Broken(Rewritten(rewrites, bound, e)) <==> SomeActive(rewrites, bound, FreeNames(e).castWritten)
    decreases e
  {
    match e
    case Literal(_) =>
    case Name(_) =>
    case Operation(_, operands) =>
      AllBreakExactly(rewrites, bound, operands);
      assert Rewritten(rewrites, bound, e).operands == RewrittenAll(rewrites, bound, operands);
    case Assignment(_, target, value) =>
      TargetBreaksExactly(rewrites, bound, target);
      BreaksExactly(rewrites, bound, value);
    case Update(_, target) => TargetBreaksExactly(rewrites, bound, target);
    case Loop(_, target, source, body) =>
      TargetBreaksExactly(rewrites, bound, target);
      BreaksExactly(rewrites, bound, source);
      BreaksExactly(rewrites, bound, body);
    case Scope(kind, names, patterns, parts) =>
      TargetsBreakExactly(rewrites, bound + names, patterns);
      AllBreakExactly(rewrites, bound + names, parts);
      ActiveBelow(rewrites, bound, names, FreeInTargets(patterns).castWritten + FreeInAll(parts).castWritten);
      assert Rewritten(rewrites, bound, e)
          == Scope(kind, names, RewrittenTargets(rewrites, bound + names, patterns),
            RewrittenAll(rewrites, bound + names, parts));
  }

  lemma {:induction false} AllBreakExactly(rewrites: Rewrites, bound: set<string>, es: seq<Expr>)
    requires AllParsed(es) && SoundReads(rewrites)
    ensures AnyBroken(RewrittenAll(rewrites, bound, es)) <==> SomeActive(rewrites, bound, FreeInAll(es).castWritten)
    decreases es
  {
    if es != [] {
      var n := |es| - 1;
      assert RewrittenAll(rewrites, bound, es)[..n] == RewrittenAll(rewrites, bound, es[..n]);
      AllBreakExactly(rewrites, bound, es[..n]);
      BreaksExactly(rewrites, bound, es[n]);
    }
  }

  lemma {:induction false} TargetBreaksExactly(rewrites: Rewrites, bound: set<string>, t: Target)
    requires ParsedTarget(t) && SoundReads(rewrites)
    ensures BrokenTarget(RewrittenTarget(rewrites, bound, t)) <==>
      SomeActive(rewrites, bound, FreeInTarget(t).castWritten)
    decreases t
  {
    match t
    case ToName(_) =>
    case ToMember(_, operands) =>
      AllBreakExactly(rewrites, bound, operands);
      assert RewrittenTarget(rewrites, bound, t).operands == RewrittenAll(rewrites, bound, operands);
    case ToArray(elements) =>
      TargetsBreakExactly(rewrites, bound, elements);
      assert RewrittenTarget(rewrites, bound, t).elements == RewrittenTargets(rewrites, bound, elements);
    case ToObject(keys, values) =>
      AllBreakExactly(rewrites, bound, keys);
      TargetsBreakExactly(rewrites, bound, values);
      assert RewrittenTarget(rewrites, bound, t)
          == ToObject(RewrittenAll(rewrites, bound, keys), RewrittenTargets(rewrites, bound, values));
    case ToRest(argument) => TargetBreaksExactly(rewrites, bound, argument);
    case ToDefault(left, right) =>
      TargetBreaksExactly(rewrites, bound, left);
      BreaksExactly(rewrites, bound, right);
    case ToCast(inner) =>
      if inner.ToName? {
        assert FreeInTarget(t).castWritten == {inner.name};
        assert BrokenTarget(RewrittenTarget(rewrites, bound, t)) <==> Active(rewrites, bound, inner.name);
      } else {
        assert RewrittenTarget(rewrites, bound, t) == ToCast(RewrittenTarget(rewrites, bound, inner));
        TargetBreaksExactly(rewrites, bound, inner);
      }
  }

  lemma {:induction false} TargetsBreakExactly(rewrites: Rewrites, bound: set<string>, ts: seq<Target>)
    requires AllParsedTargets(ts) && SoundReads(rewrites)
    ensures AnyBrokenTarget(RewrittenTargets(rewrites, bound, ts)) <==>
            SomeActive(rewrites, bound, FreeInTargets(ts).castWritten)
    decreases ts
  {
    if ts != [] {
      var n := |ts| - 1;
      assert RewrittenTargets(rewrites, bound, ts)[..n] == RewrittenTargets(rewrites, bound, ts[..n]);
      TargetsBreakExactly(rewrites, bound, ts[..n]);
      TargetBreaksExactly(rewrites, bound, ts[n]);
    }
  }

  /** `p! = 1`: accepted, and the replacement becomes the target of the assignment. */
  lemma CastAssignmentIsAccepted(read: Expr)
    requires !Broken(read)
    ensures var e := Assignment("=", ToCast(ToName("p")), Literal("1"));
            Parsed(e) && !Raises(map["p" := read], {}, e) && Broken(Rewritten(map["p" := read], {}, e))
  {
    var e := Assignment("=", ToCast(ToName("p")), Literal("1"));
    var rewrites := map["p" := read];
    assert Parsed(e) by { assert ParsedTarget(ToName("p")); }
    RaisesExactly(rewrites, {}, e);
    BreaksExactly(rewrites, {}, e);
    assert FreeNames(e) == Names({}, {}, {"p"}, {});
    assert Active(rewrites, {}, "p");
  }
}
