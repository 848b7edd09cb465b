/**
 * Where the names of a tree stand (packages/core/src/accessor-reads.ts): every
 * role a free name plays is played at a place inside the tree that no scope on
 * the way there binds it at.
 */
module AccessorNames {
  import opened AccessorReads

  /** A part of a tree. */
  datatype Part = AtExpr(e: Expr) | AtTarget(t: Target)

  function Exprs(es: seq<Expr>): (r: seq<Part>)
    ensures |r| == |es| && forall i :: 0 <= i < |es| ==> r[i] == AtExpr(es[i])
  {
    seq(|es|, i requires 0 <= i < |es| => AtExpr(es[i]))
  }

  function Targets(ts: seq<Target>): (r: seq<Part>)
    ensures |r| == |ts| && forall i :: 0 <= i < |ts| ==> r[i] == AtTarget(ts[i])
  {
    seq(|ts|, i requires 0 <= i < |ts| => AtTarget(ts[i]))
  }

  /** The parts right below; a name right behind a cast belongs to the cast. */
  function Children(part: Part): seq<Part> {
    match part
    case AtExpr(e) => (
      match e
      case Literal(_) => []
      case Name(_) => []
      case Operation(_, operands) => Exprs(operands)
      case Assignment(_, target, value) => [AtTarget(target), AtExpr(value)]
      case Update(_, target) => [AtTarget(target)]
      case Loop(_, target, source, body) => [AtTarget(target), AtExpr(source), AtExpr(body)]
      case Scope(_, _, patterns, parts) => Targets(patterns) + Exprs(parts))
    case AtTarget(t) => (
      match t
      case ToName(_) => []
      case ToMember(_, operands) => Exprs(operands)
      case ToArray(elements) => Targets(elements)
      case ToObject(keys, values) => Exprs(keys) + Targets(values)
      case ToRest(argument) => [AtTarget(argument)]
      case ToDefault(left, right) => [AtTarget(left), AtExpr(right)]
      case ToCast(inner) => if inner.ToName? then [] else [AtTarget(inner)]
      case Replaced(read) => [AtExpr(read)])
  }

  predicate Binds(part: Part, name: string) { part.AtExpr? && part.e.Scope? && name in part.e.names }

  datatype Role = Reading | Writing | CastWriting | Stepping

  predicate Plays(part: Part, name: string, role: Role) {
    match role
    case Reading => part == AtExpr(Name(name))
    case Writing => part == AtTarget(ToName(name))
    case CastWriting => part == AtTarget(ToCast(ToName(name)))
    case Stepping => part.AtExpr? && (part.e.Update? || part.e.Loop?) && part.e.target == ToName(name)
  }

  /** From part to part downwards, past no scope that binds the name. */
  ghost predicate IsWay(way: seq<Part>, from: Part, name: string) {
    |way| > 0 && way[0] == from &&
    forall i :: 0 <= i < |way| - 1 ==> way[i + 1] in Children(way[i]) && !Binds(way[i], name)
  }

  ghost predicate PlaysAtEnd(way: seq<Part>, from: Part, name: string, role: Role) {
    IsWay(way, from, name) && Plays(way[|way| - 1], name, role)
  }

  ghost predicate Occurs(from: Part, name: string, role: Role) {
    exists way: seq<Part> :: PlaysAtEnd(way, from, name, role)
  }

  ghost predicate OccursBelow(from: Part, name: string, role: Role) {
    !Binds(from, name) && exists child <- Children(from) :: Occurs(child, name, role)
  }

  lemma OccursHereOrBelow(from: Part, name: string, role: Role)
    ensures Occurs(from, name, role) <==> Plays(from, name, role) || OccursBelow(from, name, role)
  {
    hide Children, Binds, Plays;
    if Occurs(from, name, role) {
      var way: seq<Part> :| PlaysAtEnd(way, from, name, role);
      if |way| > 1 {
        assert way[0 + 1] in Children(way[0]) && !Binds(way[0], name);
        var rest := way[1..];
        forall i | 0 <= i < |rest| - 1 ensures rest[i + 1] in Children(rest[i]) && !Binds(rest[i], name) {
          assert way[i + 1 + 1] in Children(way[i + 1]);
        }
        assert PlaysAtEnd(rest, way[1], name, role);
      }
    }
    if Plays(from, name, role) {
      assert PlaysAtEnd([from], from, name, role);
    }
    if OccursBelow(from, name, role) {
      var child :| child in Children(from) && Occurs(child, name, role);
      var rest: seq<Part> :| PlaysAtEnd(rest, child, name, role);
      assert PlaysAtEnd([from] + rest, from, name, role);
    }
  }

  /** The names of one role. */
  function InRole(names: Names, role: Role): set<string> {
    match role
    case Reading => names.read
    case Writing => names.written
    case CastWriting => names.castWritten
    case Stepping => names.stepped
  }

  function NamesOf(part: Part): Names { if part.AtExpr? then FreeNames(part.e) else FreeInTarget(part.t) }

  /** Some of the parts has the name in that role. */
  ghost predicate SomeHas(parts: seq<Part>, name: string, role: Role) {
    exists part <- parts :: name in InRole(NamesOf(part), role)
  }

  lemma SomeHasOfSum(a: seq<Part>, b: seq<Part>, name: string, role: Role)
    ensures SomeHas(a + b, name, role) <==> SomeHas(a, name, role) || SomeHas(b, name, role)
  {
    hide NamesOf, InRole;
    if SomeHas(a, name, role) {
      var part :| part in a && name in InRole(NamesOf(part), role);
      assert part in a + b;
    }
    if SomeHas(b, name, role) {
      var part :| part in b && name in InRole(NamesOf(part), role);
      assert part in a + b;
    }
  }

  lemma SomeHasOfOne(part: Part, name: string, role: Role)
    ensures SomeHas([part], name, role) <==> name in InRole(NamesOf(part), role)
  {
    hide NamesOf, InRole;
    assert part in [part];
  }

  lemma SomeHasOfTwo(one: Part, other: Part, name: string, role: Role)
    ensures SomeHas([one, other], name, role) <==>
            name in InRole(NamesOf(one), role) || name in InRole(NamesOf(other), role)
  {
    hide NamesOf, InRole;
    assert one in [one, other] && other in [one, other];
  }

  lemma {:induction false} NamesOfExprs(es: seq<Expr>, name: string, role: Role)
    ensures name in InRole(FreeInAll(es), role) <==> SomeHas(Exprs(es), name, role)
  {
    if es != [] {
      var n := |es| - 1;
      NamesOfExprs(es[..n], name, role);
      assert Exprs(es) == Exprs(es[..n]) + [AtExpr(es[n])];
      SomeHasOfSum(Exprs(es[..n]), [AtExpr(es[n])], name, role);
      SomeHasOfOne(AtExpr(es[n]), name, role);
    }
  }

  lemma {:induction false} NamesOfTargets(ts: seq<Target>, name: string, role: Role)
    ensures name in InRole(FreeInTargets(ts), role) <==> SomeHas(Targets(ts), name, role)
  {
    if ts != [] {
      var n := |ts| - 1;
      NamesOfTargets(ts[..n], name, role);
      assert Targets(ts) == Targets(ts[..n]) + [AtTarget(ts[n])];
      SomeHasOfSum(Targets(ts[..n]), [AtTarget(ts[n])], name, role);
      SomeHasOfOne(AtTarget(ts[n]), name, role);
    }
  }

  /** One level: a part has a name in a role if it plays it, or a part right below has it that it does not bind. */
  ghost predicate Adds(part: Part, name: string, role: Role) {
    name in InRole(NamesOf(part), role) <==>
      Plays(part, name, role) || (!Binds(part, name) && SomeHas(Children(part), name, role))
  }

  lemma ExprAdds(e: Expr, name: string, role: Role)
    ensures Adds(AtExpr(e), name, role)
  {
    match e
    case Operation(_, operands) => NamesOfExprs(operands, name, role);
    case Scope(_, names, patterns, parts) =>
      NamesOfTargets(patterns, name, role);
      NamesOfExprs(parts, name, role);
      SomeHasOfSum(Targets(patterns), Exprs(parts), name, role);
    case Assignment(_, target, value) =>
      SomeHasOfTwo(AtTarget(target), AtExpr(value), name, role);
    case Update(_, target) => SomeHasOfOne(AtTarget(target), name, role);
    case Loop(_, target, source, body) =>
      assert Children(AtExpr(e)) == [AtTarget(target)] + [AtExpr(source), AtExpr(body)];
      SomeHasOfSum([AtTarget(target)], [AtExpr(source), AtExpr(body)], name, role);
      SomeHasOfOne(AtTarget(target), name, role);
      SomeHasOfTwo(AtExpr(source), AtExpr(body), name, role);
    case _ =>
  }

  lemma TargetAdds(t: Target, name: string, role: Role)
    ensures Adds(AtTarget(t), name, role)
  {
    match t
    case ToMember(_, operands) => NamesOfExprs(operands, name, role);
    case ToArray(elements) => NamesOfTargets(elements, name, role);
    case ToObject(keys, values) =>
      NamesOfExprs(keys, name, role);
      NamesOfTargets(values, name, role);
      SomeHasOfSum(Exprs(keys), Targets(values), name, role);
    case ToRest(argument) => SomeHasOfOne(AtTarget(argument), name, role);
    case ToDefault(left, right) => SomeHasOfTwo(AtTarget(left), AtExpr(right), name, role);
    case ToCast(inner) => SomeHasOfOne(AtTarget(inner), name, role);
    case Replaced(read) => SomeHasOfOne(AtExpr(read), name, role);
    case _ =>
  }

  /** A tree has a name in a role exactly when the name plays it somewhere in the tree, where nothing binds it. */
  lemma {:induction false} RolesArePlayed(e: Expr, name: string, role: Role)
    ensures name in InRole(FreeNames(e), role) <==> Occurs(AtExpr(e), name, role)
    decreases e
  {
    hide Plays, Binds, InRole, FreeNames, FreeInTarget, Occurs;
    ExprAdds(e, name, role);
    OccursHereOrBelow(AtExpr(e), name, role);
    forall child | child in Children(AtExpr(e))
      ensures name in InRole(NamesOf(child), role) <==> Occurs(child, name, role) {
      if child.AtExpr? {
        RolesArePlayed(child.e, name, role);
      } else {
        TargetRolesArePlayed(child.t, name, role);
      }
    }
  }

  lemma {:induction false} TargetRolesArePlayed(t: Target, name: string, role: Role)
    ensures name in InRole(FreeInTarget(t), role) <==> Occurs(AtTarget(t), name, role)
    decreases t
  {
    hide Plays, Binds, InRole, FreeNames, FreeInTarget, Occurs;
    TargetAdds(t, name, role);
    OccursHereOrBelow(AtTarget(t), name, role);
    forall child | child in Children(AtTarget(t))
      ensures name in InRole(NamesOf(child), role) <==> Occurs(child, name, role) {
      if child.AtExpr? {
        RolesArePlayed(child.e, name, role);
      } else {
        TargetRolesArePlayed(child.t, name, role);
      }
    }
  }

  /**
   * What `freeIdentifiersIn` reports: the names that are read, written behind a
   * cast, or the whole target of an update or of a loop, where nothing binds them.
   */
  lemma ReportedExactly(e: Expr, name: string)
    ensures name in FreeNames(e).Referenced() <==>
      Occurs(AtExpr(e), name, Reading) || Occurs(AtExpr(e), name, CastWriting) || Occurs(AtExpr(e), name, Stepping)
  {
    hide Occurs, FreeNames;
    RolesArePlayed(e, name, Reading);
    RolesArePlayed(e, name, CastWriting);
    RolesArePlayed(e, name, Stepping);
  }

  /** The rewriting raises exactly when a rewritten name stands somewhere as a target that nothing binds it at. */
  lemma RaisesWhereWritten(rewrites: Rewrites, e: Expr)
    requires Parsed(e)
    ensures Raises(rewrites, {}, e) <==> exists name <- rewrites :: Occurs(AtExpr(e), name, Writing)
  {
    hide Occurs, FreeNames, Raises, Parsed;
    RaisesExactly(rewrites, {}, e);
    forall name ensures name in FreeNames(e).written <==> Occurs(AtExpr(e), name, Writing) {
      RolesArePlayed(e, name, Writing);
    }
    if Raises(rewrites, {}, e) {
      var name :| name in FreeNames(e).written && Active(rewrites, {}, name);
      assert name in rewrites && Occurs(AtExpr(e), name, Writing);
    }
    if name :| name in rewrites && Occurs(AtExpr(e), name, Writing) {
      assert name in FreeNames(e).written && Active(rewrites, {}, name);
    }
  }
}
