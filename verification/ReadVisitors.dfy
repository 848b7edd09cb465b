/** The visitors of packages/core/src/accessor-reads.ts, which carry the names bound on the way down. */
module ReadVisitors {
  import opened AccessorReads
  import opened Wrappers

  /** What a visit of something with the free names `free` replaces. */
  ghost predicate Replaces(rewrites: Rewrites, bound: set<string>, free: Names) {
    SomeActive(rewrites, bound, free.read + free.castWritten)
  }

  lemma ReplacesEither(rewrites: Rewrites, bound: set<string>, a: Names, b: Names)
    ensures Replaces(rewrites, bound, Both(a, b)) <==> Replaces(rewrites, bound, a) || Replaces(rewrites, bound, b)
  {
    forall x | x in a.read + a.castWritten || x in b.read + b.castWritten
      ensures x in Both(a, b).read + Both(a, b).castWritten
    {
    }
  }

  lemma ReplacesBelow(rewrites: Rewrites, bound: set<string>, names: set<string>, free: Names)
    ensures Replaces(rewrites, bound, free.Without(names)) <==> Replaces(rewrites, bound + names, free)
  {
    ActiveBelow(rewrites, bound, names, free.read + free.castWritten);
    assert free.Without(names).read + free.Without(names).castWritten == (free.read + free.castWritten) - names;
  }

  lemma NothingIn(rewrites: Rewrites, bound: set<string>)
    ensures !Replaces(rewrites, bound, FreeInAll([])) && !Replaces(rewrites, bound, FreeInTargets([]))
  {
  }

  /** One call of `rewriteReadsInCode`; a visit that throws answers `None`. */
  class Rewriter {
    const rewrites: Rewrites
    var changed: bool

    constructor (rewrites: Rewrites)
      ensures this.rewrites == rewrites && !changed
    {
      this.rewrites := rewrites;
      changed := false;
    }

    method Visit(bound: set<string>, e: Expr) returns (r: Option<Expr>)
      requires Parsed(e)
      modifies this`changed
      ensures r.None? <==> Raises(rewrites, bound, e)
      ensures r.Some? ==> r.value == Rewritten(rewrites, bound, e)
      ensures r.Some? ==> (changed <==> old(changed) || Replaces(rewrites, bound, FreeNames(e)))
      decreases e
    {
      match e
      case Literal(_) => r := Some(e);
      case Name(name) =>
        assert Replaces(rewrites, bound, FreeNames(e)) <==> Active(rewrites, bound, name) by {
          assert name in FreeNames(e).read + FreeNames(e).castWritten;
        }
        if name in bound || name !in rewrites { return Some(e); }
        changed := true;
        r := Some(rewrites[name]);
      case Operation(kind, operands) =>
        var es := VisitAll(bound, operands);
        r := if es.None? then None else Some(Operation(kind, es.value));
      case Assignment(operator, target, value) =>
        ReplacesEither(rewrites, bound, FreeInTarget(target), FreeNames(value));
        if Rejected(rewrites, bound, target) { return None; }
        var t := VisitTarget(bound, target);
        if t.None? { return None; }
        var v := Visit(bound, value);
        r := if v.None? then None else Some(Assignment(operator, t.value, v.value));
      case Update(operator, target) =>
        if Rejected(rewrites, bound, target) { return None; }
        var t := VisitTarget(bound, target);
        r := if t.None? then None else Some(Update(operator, t.value));
      case Loop(kind, target, source, body) =>
        ReplacesEither(rewrites, bound, FreeNames(source), FreeNames(body));
        ReplacesEither(rewrites, bound, FreeInTarget(target).Stepping(target),
          Both(FreeNames(source), FreeNames(body)));
        if Rejected(rewrites, bound, target) { return None; }
        var t := VisitTarget(bound, target);
        if t.None? { return None; }
        var s := Visit(bound, source);
        if s.None? { return None; }
        var b := Visit(bound, body);
        r := if b.None? then None else Some(Loop(kind, t.value, s.value, b.value));
      case Scope(kind, names, patterns, parts) =>
        r := VisitScope(bound, e);
    }

    method VisitScope(bound: set<string>, e: Expr) returns (r: Option<Expr>)
      requires Parsed(e) && e.Scope?
      modifies this`changed
      ensures r.None? <==> Raises(rewrites, bound, e)
      ensures r.Some? ==> r.value == Rewritten(rewrites, bound, e)
      ensures r.Some? ==> (changed <==> old(changed) || Replaces(rewrites, bound, FreeNames(e)))
      decreases e, 0
    {
      var Scope(kind, names, patterns, parts) := e;
      ReplacesEither(rewrites, bound + names, FreeInTargets(patterns), FreeInAll(parts));
      ReplacesBelow(rewrites, bound, names, Both(FreeInTargets(patterns), FreeInAll(parts)));
      var ts := VisitTargets(bound + names, patterns);
      if ts.None? { return None; }
      var es := VisitAll(bound + names, parts);
      r := if es.None? then None else Some(Scope(kind, names, ts.value, es.value));
    }

    method VisitAll(bound: set<string>, es: seq<Expr>) returns (r: Option<seq<Expr>>)
      requires AllParsed(es)
      modifies this`changed
      ensures r.None? <==> RaisesAny(rewrites, bound, es)
      ensures r.Some? ==> r.value == RewrittenAll(rewrites, bound, es)
      ensures r.Some? ==> (changed <==> old(changed) || Replaces(rewrites, bound, FreeInAll(es)))
      decreases es
    {
      hide Replaces, Raises, Rewritten, FreeNames, Parsed;
      var out := [];
      NothingIn(rewrites, bound);
      for i := 0 to |es|
        invariant out == RewrittenAll(rewrites, bound, es[..i])
        invariant forall k :: 0 <= k < i ==> !Raises(rewrites, bound, es[k])
        invariant changed <==> old(changed) || Replaces(rewrites, bound, FreeInAll(es[..i]))
      {
        var e := Visit(bound, es[i]);
        if e.None? { return None; }
        assert es[..i + 1][..i] == es[..i];
        ReplacesEither(rewrites, bound, FreeInAll(es[..i]), FreeNames(es[i]));
        out := out + [e.value];
      }
      assert es[..|es|] == es;
      r := Some(out);
    }

    /** The expressions inside a target; names in it stay, except behind a cast. */
    method VisitTarget(bound: set<string>, t: Target) returns (r: Option<Target>)
      requires ParsedTarget(t)
      modifies this`changed
      ensures r.None? <==> RaisesInside(rewrites, bound, t)
      ensures r.Some? ==> r.value == RewrittenTarget(rewrites, bound, t)
      ensures r.Some? ==> (changed <==> old(changed) || Replaces(rewrites, bound, FreeInTarget(t)))
      decreases t
    {
      match t
      case ToName(_) => r := Some(t);
      case ToMember(kind, operands) =>
        var es := VisitAll(bound, operands);
        r := if es.None? then None else Some(ToMember(kind, es.value));
      case ToArray(elements) =>
        var ts := VisitTargets(bound, elements);
        r := if ts.None? then None else Some(ToArray(ts.value));
      case ToObject(keys, values) =>
        ReplacesEither(rewrites, bound, FreeInAll(keys), FreeInTargets(values));
        var es := VisitAll(bound, keys);
        if es.None? { return None; }
        var ts := VisitTargets(bound, values);
        r := if ts.None? then None else Some(ToObject(es.value, ts.value));
      case ToRest(argument) =>
        var a := VisitTarget(bound, argument);
        r := if a.None? then None else Some(ToRest(a.value));
      case ToDefault(left, right) =>
        ReplacesEither(rewrites, bound, FreeInTarget(left), FreeNames(right));
        var l := VisitTarget(bound, left);
        if l.None? { return None; }
        var e := Visit(bound, right);
        r := if e.None? then None else Some(ToDefault(l.value, e.value));
      case ToCast(inner) =>
        if inner.ToName? {
          assert FreeInTarget(t) == Names({}, {}, {inner.name}, {});
          assert Replaces(rewrites, bound, FreeInTarget(t)) <==> Active(rewrites, bound, inner.name) by {
            assert inner.name in FreeInTarget(t).read + FreeInTarget(t).castWritten;
          }
          if inner.name in bound || inner.name !in rewrites { return Some(t); }
          changed := true;
          r := Some(ToCast(Replaced(rewrites[inner.name])));
        } else {
          var i := VisitTarget(bound, inner);
          r := if i.None? then None else Some(ToCast(i.value));
        }
    }

    method VisitTargets(bound: set<string>, ts: seq<Target>) returns (r: Option<seq<Target>>)
      requires AllParsedTargets(ts)
      modifies this`changed
      ensures r.None? <==> exists i :: 0 <= i < |ts| && RaisesInside(rewrites, bound, ts[i])
      ensures r.Some? ==> r.value == RewrittenTargets(rewrites, bound, ts)
      ensures r.Some? ==> (changed <==> old(changed) || Replaces(rewrites, bound, FreeInTargets(ts)))
      decreases ts
    {
      var out := [];
      for i := 0 to |ts|
        invariant out == RewrittenTargets(rewrites, bound, ts[..i])
        invariant forall k :: 0 <= k < i ==> !RaisesInside(rewrites, bound, ts[k])
        invariant changed <==> old(changed) || Replaces(rewrites, bound, FreeInTargets(ts[..i]))
      {
        var t := VisitTarget(bound, ts[i]);
        if t.None? { return None; }
        assert ts[..i + 1][..i] == ts[..i];
        ReplacesEither(rewrites, bound, FreeInTargets(ts[..i]), FreeInTarget(ts[i]));
        out := out + [t.value];
      }
      assert ts[..|ts|] == ts;
      r := Some(out);
    }
  }

  // ---- a tree without a name to rewrite is left alone

  lemma {:induction false} NothingReplaced(rewrites: Rewrites, bound: set<string>, e: Expr)
    requires !Replaces(rewrites, bound, FreeNames(e))
    ensures Rewritten(rewrites, bound, e) == e
    decreases e
  {
    match e
    case Literal(_) =>
    case Name(name) => assert name in FreeNames(e).read + FreeNames(e).castWritten;
    case Operation(_, operands) =>
      NothingReplacedInAll(rewrites, bound, operands);
      assert Rewritten(rewrites, bound, e).operands == operands;
    case Assignment(_, target, value) =>
      ReplacesEither(rewrites, bound, FreeInTarget(target), FreeNames(value));
      NothingReplacedInTarget(rewrites, bound, target);
      NothingReplaced(rewrites, bound, value);
    case Update(_, target) => NothingReplacedInTarget(rewrites, bound, target);
    case Loop(_, target, source, body) =>
      ReplacesEither(rewrites, bound, FreeNames(source), FreeNames(body));
      ReplacesEither(rewrites, bound, FreeInTarget(target).Stepping(target), Both(FreeNames(source), FreeNames(body)));
      NothingReplacedInTarget(rewrites, bound, target);
      NothingReplaced(rewrites, bound, source);
      NothingReplaced(rewrites, bound, body);
    case Scope(_, names, patterns, parts) =>
      ReplacesEither(rewrites, bound + names, FreeInTargets(patterns), FreeInAll(parts));
      ReplacesBelow(rewrites, bound, names, Both(FreeInTargets(patterns), FreeInAll(parts)));
      NothingReplacedInTargets(rewrites, bound + names, patterns);
      NothingReplacedInAll(rewrites, bound + names, parts);
      assert Rewritten(rewrites, bound, e).parts == parts && Rewritten(rewrites, bound, e).patterns == patterns;
  }

  lemma {:induction false} NothingReplacedInAll(rewrites: Rewrites, bound: set<string>, es: seq<Expr>)
    requires !Replaces(rewrites, bound, FreeInAll(es))
    ensures forall i :: 0 <= i < |es| ==> Rewritten(rewrites, bound, es[i]) == es[i]
    decreases es
  {
    if es != [] {
      var n := |es| - 1;
      ReplacesEither(rewrites, bound, FreeInAll(es[..n]), FreeNames(es[n]));
      NothingReplacedInAll(rewrites, bound, es[..n]);
      NothingReplaced(rewrites, bound, es[n]);
      forall i | 0 <= i < |es| ensures Rewritten(rewrites, bound, es[i]) == es[i] {
        if i < n { assert es[i] == es[..n][i]; }
      }
    }
  }

  lemma {:induction false} NothingReplacedInTarget(rewrites: Rewrites, bound: set<string>, t: Target)
    requires !Replaces(rewrites, bound, FreeInTarget(t))
    ensures RewrittenTarget(rewrites, bound, t) == t
    decreases t
  {
    match t
    case ToName(_) =>
    case ToMember(_, operands) =>
      NothingReplacedInAll(rewrites, bound, operands);
      assert RewrittenTarget(rewrites, bound, t).operands == operands;
    case ToArray(elements) =>
      NothingReplacedInTargets(rewrites, bound, elements);
      assert RewrittenTarget(rewrites, bound, t).elements == elements;
    case ToObject(keys, values) =>
      ReplacesEither(rewrites, bound, FreeInAll(keys), FreeInTargets(values));
      NothingReplacedInAll(rewrites, bound, keys);
      NothingReplacedInTargets(rewrites, bound, values);
      assert RewrittenTarget(rewrites, bound, t).keys == keys && RewrittenTarget(rewrites, bound, t).values == values;
    case ToRest(argument) => NothingReplacedInTarget(rewrites, bound, argument);
    case ToDefault(left, right) =>
      ReplacesEither(rewrites, bound, FreeInTarget(left), FreeNames(right));
      NothingReplacedInTarget(rewrites, bound, left);
      NothingReplaced(rewrites, bound, right);
    case ToCast(inner) =>
      if inner.ToName? {
        assert inner.name in FreeInTarget(t).read + FreeInTarget(t).castWritten;
      } else {
        NothingReplacedInTarget(rewrites, bound, inner);
      }
    case Replaced(read) => NothingReplaced(rewrites, bound, read);
  }

  lemma {:induction false} NothingReplacedInTargets(rewrites: Rewrites, bound: set<string>, ts: seq<Target>)
    requires !Replaces(rewrites, bound, FreeInTargets(ts))
    ensures forall i :: 0 <= i < |ts| ==> RewrittenTarget(rewrites, bound, ts[i]) == ts[i]
    decreases ts
  {
    if ts != [] {
      var n := |ts| - 1;
      ReplacesEither(rewrites, bound, FreeInTargets(ts[..n]), FreeInTarget(ts[n]));
      NothingReplacedInTargets(rewrites, bound, ts[..n]);
      NothingReplacedInTarget(rewrites, bound, ts[n]);
      forall i | 0 <= i < |ts| ensures RewrittenTarget(rewrites, bound, ts[i]) == ts[i] {
        if i < n { assert ts[i] == ts[..n][i]; }
      }
    }
  }

  /**
   * `rewriteReadsInCode` on a parsed expression. It throws exactly when an
   * unshadowed name it rewrites is written outright, and an expression that
   * reads none of these names is handed back as it came.
   */
  method RewriteReadsInCode(rewrites: Rewrites, shadowed: set<string>, e: Expr) returns (r: Option<Expr>)
    requires Parsed(e)
    ensures r.None? <==> SomeActive(rewrites, shadowed, FreeNames(e).written)
    ensures r.Some? ==> r.value == Rewritten(rewrites, shadowed, e)
    ensures r.Some? && !Replaces(rewrites, shadowed, FreeNames(e)) ==> r.value == e
  {
    RaisesExactly(rewrites, shadowed, e);
    var rewriter := new Rewriter(rewrites);
    r := rewriter.Visit(shadowed, e);
    if !rewriter.changed && r.Some? {
      NothingReplaced(rewrites, shadowed, e);
      r := Some(e);
    }
  }

  // ---- freeIdentifiersIn

  lemma ReferencedInBoth(a: Names, b: Names)
    ensures Both(a, b).Referenced() == a.Referenced() + b.Referenced()
  {
  }

  lemma ReferencedInLoop(e: Expr)
    requires e.Loop?
    ensures FreeNames(e).Referenced() ==
              FreeInTarget(e.target).Stepping(e.target).Referenced() + FreeNames(e.source).Referenced() +
                FreeNames(e.body).Referenced()
  {
  }

  lemma ReferencedInScope(e: Expr)
    requires e.Scope?
    ensures FreeNames(e).Referenced() ==
      (FreeInTargets(e.patterns).Referenced() + FreeInAll(e.parts).Referenced()) - e.names
  {
  }

  /** One call of `freeIdentifiersIn`: visitors add to `names` what no scope on the way binds. */
  class Collector {
    var names: set<string>

    constructor ()
      ensures names == {}
    {
      names := {};
    }

    method Visit(bound: set<string>, e: Expr)
      modifies this
      ensures names == old(names) + (FreeNames(e).Referenced() - bound)
      decreases e
    {
      match e
      case Literal(_) =>
      case Name(name) => if name !in bound { names := names + {name}; }
      case Operation(_, operands) => VisitAll(bound, operands);
      case Assignment(_, target, value) =>
        VisitTarget(bound, target);
        Visit(bound, value);
        ReferencedInBoth(FreeInTarget(target), FreeNames(value));
      case Update(_, target) => VisitStepped(bound, target);
      case Loop(_, _, _, _) => VisitLoop(bound, e);
      case Scope(_, _, _, _) => VisitScope(bound, e);
    }

    method VisitLoop(bound: set<string>, e: Expr)
      requires e.Loop?
      modifies this
      ensures names == old(names) + (FreeNames(e).Referenced() - bound)
      decreases e, 0
    {
      VisitStepped(bound, e.target);
      Visit(bound, e.source);
      Visit(bound, e.body);
      ReferencedInLoop(e);
      hide *;
    }

    method VisitScope(bound: set<string>, e: Expr)
      requires e.Scope?
      modifies this
      ensures names == old(names) + (FreeNames(e).Referenced() - bound)
      decreases e, 0
    {
      VisitTargets(bound + e.names, e.patterns);
      VisitAll(bound + e.names, e.parts);
      ReferencedInScope(e);
      hide *;
    }

    method VisitStepped(bound: set<string>, t: Target)
      modifies this
      ensures names == old(names) + (FreeInTarget(t).Stepping(t).Referenced() - bound)
      decreases t, 1
    {
      if t.ToName? {
        if t.name !in bound { names := names + {t.name}; }
      } else {
        VisitTarget(bound, t);
      }
    }

    method VisitAll(bound: set<string>, es: seq<Expr>)
      modifies this
      ensures names == old(names) + (FreeInAll(es).Referenced() - bound)
      decreases es
    {
      for i := 0 to |es|
        invariant names == old(names) + (FreeInAll(es[..i]).Referenced() - bound)
      {
        Visit(bound, es[i]);
        assert es[..i + 1][..i] == es[..i];
      }
      assert es[..|es|] == es;
    }

    method VisitTarget(bound: set<string>, t: Target)
      modifies this
      ensures names == old(names) + (FreeInTarget(t).Referenced() - bound)
      decreases t, 0
    {
      match t
      case ToName(_) =>
      case ToMember(_, operands) => VisitAll(bound, operands);
      case ToArray(elements) => VisitTargets(bound, elements);
      case ToObject(keys, values) =>
        VisitAll(bound, keys);
        VisitTargets(bound, values);
      case ToRest(argument) => VisitTarget(bound, argument);
      case ToDefault(left, right) =>
        VisitTarget(bound, left);
        Visit(bound, right);
      case ToCast(inner) =>
        if inner.ToName? {
          if inner.name !in bound { names := names + {inner.name}; }
        } else {
          VisitTarget(bound, inner);
        }
      case Replaced(read) => Visit(bound, read);
    }

    method VisitTargets(bound: set<string>, ts: seq<Target>)
      modifies this
      ensures names == old(names) + (FreeInTargets(ts).Referenced() - bound)
      decreases ts
    {
      for i := 0 to |ts|
        invariant names == old(names) + (FreeInTargets(ts[..i]).Referenced() - bound)
      {
        VisitTarget(bound, ts[i]);
        assert ts[..i + 1][..i] == ts[..i];
      }
      assert ts[..|ts|] == ts;
    }
  }

  method FreeIdentifiersIn(e: Expr) returns (names: set<string>)
    ensures names == FreeNames(e).Referenced()
  {
    var collector := new Collector();
    collector.Visit({}, e);
    names := collector.names;
  }

  /**
   * What `freeIdentifiersIn` reports is all an expression's meaning can depend
   * on, unless it assigns to a name that it does not also read.
   */
  lemma ReportedNamesSuffice<V(!new), C>(m: Model<V, C>, env: map<string, V>, env': map<string, V>, e: Expr)
    requires FreeNames(e).written <= FreeNames(e).Referenced()
    requires AgreeOn(env, env', FreeNames(e).Referenced())
    ensures Meaning(m, env, e) == Meaning(m, env', e)
  {
    MeaningIsLocal(m, env, env', e);
  }
}
