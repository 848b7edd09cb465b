/**
 * Patterns whose printed paths are not what destructuring binds: which they
 * are, exactly (packages/core/src/accessor-reads.ts, `destructuredNames`).
 */
module DestructuringMisreads {
  import opened Destructuring
  import opened Utf16
  import opened Wrappers

  // ---- values that show every misread

  /**
   * Values that remember how they were reached: every member is there, none is a
   * name's text, and all are iterated as they are indexed.
   */
  const TRACES: Values<seq<Slot>> := Values(
    (v: seq<Slot>, slot: Slot) => v + [slot], v => false, v => false, v => "[object Object]",
    v => true, (v: seq<Slot>, i: nat) => v + [IndexSlot(i)])

  /** The same values, none of which can be iterated. */
  const UNITERABLE: Values<seq<Slot>> := TRACES.(iterable := v => false)

  /** A scope in which no name and no other key is the text of a trace, of each other or of `undefined`. */
  ghost const APART: Scope := Scope(imap name: string :: "$" + name, imap id: nat :: "#")

  type Trace = seq<Slot>

  ghost function Slots(path: seq<Step>): Trace {
    if path == [] then [] else Slots(path[..|path| - 1]) + [StepSlot(APART, path[|path| - 1])]
  }

  lemma {:induction false} ReadsAreTraces(path: seq<Step>)
    ensures ReadPath(TRACES, APART, [], path) == Slots(path) && |Slots(path)| == |path|
  {
    if path != [] {
      ReadsAreTraces(path[..|path| - 1]);
    }
  }

  lemma SlotsOneMore(path: seq<Step>, step: Step)
    ensures Slots(path + [step]) == Slots(path) + [StepSlot(APART, step)]
  {
    assert (path + [step])[..|path|] == path;
  }

  /** What is read along the paths below `path` starts with its trace. */
  ghost predicate Below(paths: seq<Destructured>, path: seq<Step>) {
    forall i :: 0 <= i < |paths| ==> Slots(path) <= Slots(paths[i].path)
  }

  ghost predicate AllFrom(bound: seq<(string, Trace)>, v: Trace) {
    forall i :: 0 <= i < |bound| ==> v <= bound[i].1
  }

  ghost function Reads(paths: seq<Destructured>): seq<(string, Trace)> { ReadAll(TRACES, APART, [], paths) }

  /**
   * One part of a pattern binds as many names as it has paths, each below `v`;
   * and not what the paths read, if it is misread or `v` is not where they lead.
   */
  ghost predicate Traced(
      bound: seq<(string, Trace)>, before: set<string>, names: set<string>, v: Trace, path: seq<Step>,
      outcome: Outcome<Trace>, paths: seq<Destructured>, fits: bool)
  {
    !outcome.Defaulted? && !outcome.NoMembers? && Below(paths, path) && (names != {} <==> paths != []) &&
    (outcome.Done? ==>
      bound <= outcome.bound && |outcome.bound| == |bound| + |paths| && BoundAre(outcome.bound, before + names) &&
      AllFrom(outcome.bound[|bound|..], v) && (!fits ==> outcome.bound[|bound|..] != Reads(paths)))
  }

  /** A part that begins elsewhere than its path leads binds something else, if it binds anything. */
  lemma ElsewhereIsWrong(bound: seq<(string, Trace)>, v: Trace, paths: seq<Destructured>, path: seq<Step>)
    requires AllFrom(bound, v) && Below(paths, path) && |bound| == |paths| > 0
    requires |v| == |path| && v != Slots(path)
    ensures bound != Reads(paths)
  {
    ReadsAreTraces(path);
    ReadsAreTraces(paths[0].path);
    assert Reads(paths)[0].1 == Slots(paths[0].path);
    assert bound[0].1[..|v|] == v;
    assert Slots(paths[0].path)[..|v|] == Slots(path);
  }

  // The paths of a part lead below it, and there are some exactly when it binds names.

  lemma {:induction false} PathsBelow(p: Pattern, path: seq<Step>)
    requires Supported(p)
    ensures Below(Paths(p, path), path) && (NamesOf(p) != {} <==> Paths(p, path) != [])
    decreases p
  {
    match p
    case Bind(_) =>
    case Default(left) => PathsBelow(left, path);
    case ObjectOf(properties) => FieldsBelow(properties, path);
    case ArrayOf(elements) => ElementsBelow(elements, path);
  }

  lemma {:induction false} FieldsBelow(ps: seq<Property>, path: seq<Step>)
    requires forall i :: 0 <= i < |ps| ==> ps[i].Field? && Supported(ps[i].value)
    ensures Below(FieldPaths(ps, path), path) && (NamesInFields(ps) != {} <==> FieldPaths(ps, path) != [])
    decreases ps
  {
    if ps != [] {
      FieldsBelow(ps[..|ps| - 1], path);
      FieldBelow(ps[|ps| - 1], path);
    }
  }

  lemma {:induction false} FieldBelow(p: Property, path: seq<Step>)
    requires p.Field? && Supported(p.value)
    ensures Below(FieldPath(p, path), path) && (NamesInField(p) != {} <==> FieldPath(p, path) != [])
    decreases p
  {
    PathsBelow(p.value, path + [StepOf(p.key)]);
    SlotsOneMore(path, StepOf(p.key));
  }

  lemma {:induction false} ElementsBelow(es: seq<Element>, path: seq<Step>)
    requires forall i :: 0 <= i < |es| ==> !es[i].RestElement? && (es[i].At? ==> Supported(es[i].pattern))
    ensures Below(ElementPaths(es, path), path) && (NamesInElements(es) != {} <==> ElementPaths(es, path) != [])
    decreases es
  {
    if es != [] {
      ElementsBelow(es[..|es| - 1], path);
      ElementBelow(|es| - 1, es[|es| - 1], path);
    }
  }

  lemma {:induction false} ElementBelow(index: nat, e: Element, path: seq<Step>)
    requires !e.RestElement? && (e.At? ==> Supported(e.pattern))
    ensures Below(ElementPath(index, e, path), path) && (NamesInElement(e) != {} <==> ElementPath(index, e, path) != [])
    decreases e
  {
    if e.At? {
      PathsBelow(e.pattern, path + [Index(index)]);
      SlotsOneMore(path, Index(index));
    }
  }

  lemma {:induction false} RunTraced(
      all: set<string>, bound: seq<(string, Trace)>, before: set<string>, v: Trace, p: Pattern, path: seq<Step>)
    requires Supported(p) && BoundAre(bound, before) && |v| == |path|
    ensures Traced(bound, before, NamesOf(p), v, path, Run(TRACES, APART, all, bound, v, p), Paths(p, path),
      KeysFit(all, before, p))
    decreases p
  {
    match p
    case Bind(name) =>
      BoundOneMore(bound, before, name, v);
      assert (bound + [(name, v)])[|bound|..] == [(name, v)];
    case Default(left) => RunTraced(all, bound, before, v, left, path);
    case ObjectOf(properties) => FieldsTraced(all, bound, before, v, properties, path);
    case ArrayOf(elements) => ElementsTraced(all, bound, before, v, elements, path);
  }

  lemma NothingTraced(bound: seq<(string, Trace)>, before: set<string>, v: Trace, path: seq<Step>)
    requires BoundAre(bound, before)
    ensures Traced(bound, before, {}, v, path, Done(bound), [], true)
  {
    assert before + {} == before;
  }

  lemma TracedInTurn(
      bound: seq<(string, Trace)>, before: set<string>, v: Trace, path: seq<Step>,
      names: set<string>, first: Outcome<Trace>, paths: seq<Destructured>, fits: bool,
      names': set<string>, second: Outcome<Trace>, paths': seq<Destructured>, fits': bool)
    requires Traced(bound, before, names, v, path, first, paths, fits) && first.Done?
    requires Traced(first.bound, before + names, names', v, path, second, paths', fits')
    ensures Traced(bound, before, names + names', v, path, second, paths + paths', fits && fits')
  {
    hide NamesOf, BoundAre, Slots, IndexSlot, StepSlot, ReadPath, ReadAll;
    assert before + names + names' == before + (names + names');
    assert Below(paths + paths', path);
    if second.Done? {
      ReadAllConcat(TRACES, APART, [], paths, paths');
      SuffixInTurn(bound, first.bound, second.bound);
      ReadsCounted(paths);
      SameParts(first.bound[|bound|..], second.bound[|first.bound|..], Reads(paths), Reads(paths'));
    }
  }

  lemma ReadsCounted(paths: seq<Destructured>)
    ensures |Reads(paths)| == |paths|
  {
  }

  lemma SuffixInTurn<T>(a: seq<T>, b: seq<T>, c: seq<T>)
    requires a <= b <= c
    ensures c[|a|..] == b[|a|..] + c[|b|..]
  {
  }

  lemma SameParts<T>(a: seq<T>, b: seq<T>, a': seq<T>, b': seq<T>)
    requires |a| == |a'|
    ensures a + b == a' + b' <==> a == a' && b == b'
  {
    assert a == (a + b)[..|a|] && b == (a + b)[|a|..];
    assert a' == (a' + b')[..|a'|] && b' == (a' + b')[|a'|..];
  }

  /** What has thrown has thrown. */
  lemma ThrownStays(
      bound: seq<(string, Trace)>, before: set<string>, v: Trace, path: seq<Step>,
      names: set<string>, first: Outcome<Trace>, paths: seq<Destructured>, fits: bool,
      names': set<string>, paths': seq<Destructured>, fits': bool)
    requires Traced(bound, before, names, v, path, first, paths, fits) && !first.Done?
    requires Below(paths', path) && (names' != {} <==> paths' != [])
    ensures Traced(bound, before, names + names', v, path, first, paths + paths', fits && fits')
  {
  }

  lemma {:induction false} FieldsTraced(
      all: set<string>, bound: seq<(string, Trace)>, before: set<string>, v: Trace, ps: seq<Property>, path: seq<Step>)
    requires forall i :: 0 <= i < |ps| ==> ps[i].Field? && Supported(ps[i].value)
    requires BoundAre(bound, before) && |v| == |path|
    ensures Traced(bound, before, NamesInFields(ps), v, path, RunFields(TRACES, APART, all, bound, v, ps),
                   FieldPaths(ps, path), FieldsFit(all, before, ps))
    decreases ps
  {
    if ps == [] {
      NothingTraced(bound, before, v, path);
    } else {
      var n := |ps| - 1;
      var then' := before + NamesInFields(ps[..n]);
      FieldsTraced(all, bound, before, v, ps[..n], path);
      FieldsInTurn(TRACES, APART, all, bound, v, ps, path);
      var first := RunFields(TRACES, APART, all, bound, v, ps[..n]);
      if first.Done? {
        FieldTraced(all, first.bound, then', v, ps[n], path);
        hide *;
        TracedInTurn(bound, before, v, path,
                     NamesInFields(ps[..n]), first, FieldPaths(ps[..n], path), FieldsFit(all, before, ps[..n]),
                     NamesInField(ps[n]), RunField(TRACES, APART, all, first.bound, v, ps[n]), FieldPath(ps[n], path),
                     FieldFits(all, then', ps[n]));
        FieldsFitInTurn(all, before, ps);
      } else {
        FieldBelow(ps[n], path);
        hide *;
        ThrownStays(bound, before, v, path,
                    NamesInFields(ps[..n]), first, FieldPaths(ps[..n], path), FieldsFit(all, before, ps[..n]),
                    NamesInField(ps[n]), FieldPath(ps[n], path), FieldFits(all, then', ps[n]));
        FieldsFitInTurn(all, before, ps);
      }
    }
  }

  lemma FieldsFitInTurn(all: set<string>, before: set<string>, ps: seq<Property>)
    requires ps != []
    ensures var n := |ps| - 1;
            FieldsFit(all, before, ps) <==>
              FieldsFit(all, before, ps[..n]) && FieldFits(all, before + NamesInFields(ps[..n]), ps[n])
  {
  }

  lemma {:induction false} FieldTraced(
      all: set<string>, bound: seq<(string, Trace)>, before: set<string>, v: Trace, p: Property, path: seq<Step>)
    requires p.Field? && Supported(p.value) && BoundAre(bound, before) && |v| == |path|
    ensures Traced(bound, before, NamesInField(p), v, path, RunField(TRACES, APART, all, bound, v, p),
                   FieldPath(p, path), FieldFits(all, before, p))
    decreases p
  {
    var slot, step := KeySlot(TRACES, APART, all, bound, p.key), StepOf(p.key);
    SlotsOneMore(path, step);
    if slot.None? {
      FieldBelow(p, path);
    } else {
      var next := v + [slot.value];
      RunTraced(all, bound, before, next, p.value, path + [step]);
      StepDiffers(all, bound, before, p.key, NamesOf(p.value));
      var outcome := Run(TRACES, APART, all, bound, next, p.value);
      var paths := Paths(p.value, path + [step]);
      assert RunField(TRACES, APART, all, bound, v, p) == outcome && FieldPath(p, path) == paths;
      assert FieldFits(all, before, p) <==>
        KeyFits(all, before, p.key, NamesOf(p.value)) && KeysFit(all, before, p.value);
      assert NamesInField(p) == NamesOf(p.value);
      hide *;
      FieldIsTraced(bound, before, v, path, step, slot.value, NamesOf(p.value), outcome, paths,
                    KeysFit(all, before, p.value), KeyFits(all, before, p.key, NamesOf(p.value)));
    }
  }

  /** A key that does not fit has names below it, and another slot inside the pattern than outside. */
  lemma StepDiffers(all: set<string>, bound: seq<(string, Trace)>, before: set<string>, key: Key, below: set<string>)
    requires BoundAre(bound, before) && KeySlot(TRACES, APART, all, bound, key).Some?
    ensures !KeyFits(all, before, key, below) ==>
              below != {} && KeySlot(TRACES, APART, all, bound, key).value != StepSlot(APART, StepOf(key))
  {
    if key.ComputedName? {
      assert APART.Name(key.name)[0] == '$';
    } else if !key.LiteralKey? {
      assert APART.Name("undefined")[0] == '$';
    }
  }

  lemma FieldIsTraced(
      bound: seq<(string, Trace)>, before: set<string>, v: Trace, path: seq<Step>, step: Step, slot: Slot,
      names: set<string>, outcome: Outcome<Trace>, paths: seq<Destructured>, fits: bool, keyFits: bool)
    requires Traced(bound, before, names, v + [slot], path + [step], outcome, paths, fits) && |v| == |path|
    requires !keyFits ==> names != {} && slot != StepSlot(APART, step)
    ensures Traced(bound, before, names, v, path, outcome, paths, keyFits && fits)
  {
    SlotsOneMore(path, step);
    if outcome.Done? {
      var own := outcome.bound[|bound|..];
      forall i | 0 <= i < |own| ensures v <= own[i].1 {
        assert v + [slot] <= own[i].1;
      }
      if !keyFits {
        assert (v + [slot])[|v|] != (Slots(path) + [StepSlot(APART, step)])[|v|] by {
          ReadsAreTraces(path);
        }
        ElsewhereIsWrong(own, v + [slot], paths, path + [step]);
      }
    }
  }

  lemma {:induction false} ElementsTraced(
      all: set<string>, bound: seq<(string, Trace)>, before: set<string>, v: Trace, es: seq<Element>, path: seq<Step>)
    requires forall i :: 0 <= i < |es| ==> !es[i].RestElement? && (es[i].At? ==> Supported(es[i].pattern))
    requires BoundAre(bound, before) && |v| == |path|
    ensures Traced(bound, before, NamesInElements(es), v, path, RunElements(TRACES, APART, all, bound, v, es),
                   ElementPaths(es, path), ElementsFit(all, before, es))
    decreases es
  {
    if es == [] {
      NothingTraced(bound, before, v, path);
    } else {
      var n := |es| - 1;
      var then' := before + NamesInElements(es[..n]);
      ElementsTraced(all, bound, before, v, es[..n], path);
      ElementsInTurn(TRACES, APART, all, bound, v, es, path);
      var first := RunElements(TRACES, APART, all, bound, v, es[..n]);
      if first.Done? {
        ElementTraced(all, first.bound, then', v, n, es[n], path);
        hide *;
        TracedInTurn(bound, before, v, path,
                     NamesInElements(es[..n]), first, ElementPaths(es[..n], path), ElementsFit(all, before, es[..n]),
                     NamesInElement(es[n]), RunElement(TRACES, APART, all, first.bound, v, n, es[n]),
                       ElementPath(n, es[n], path),
                     ElementFits(all, then', es[n]));
        ElementsFitInTurn(all, before, es);
      } else {
        ElementBelow(n, es[n], path);
        hide *;
        ThrownStays(bound, before, v, path,
                    NamesInElements(es[..n]), first, ElementPaths(es[..n], path), ElementsFit(all, before, es[..n]),
                    NamesInElement(es[n]), ElementPath(n, es[n], path), ElementFits(all, then', es[n]));
        ElementsFitInTurn(all, before, es);
      }
    }
  }

  lemma ElementsFitInTurn(all: set<string>, before: set<string>, es: seq<Element>)
    requires es != []
    ensures var n := |es| - 1;
            ElementsFit(all, before, es) <==>
              ElementsFit(all, before, es[..n]) && ElementFits(all, before + NamesInElements(es[..n]), es[n])
  {
  }

  lemma {:induction false} ElementTraced(
      all: set<string>, bound: seq<(string, Trace)>, before: set<string>, v: Trace, index: nat, e: Element,
      path: seq<Step>)
    requires !e.RestElement? && (e.At? ==> Supported(e.pattern)) && BoundAre(bound, before) && |v| == |path|
    ensures Traced(bound, before, NamesInElement(e), v, path, RunElement(TRACES, APART, all, bound, v, index, e),
                   ElementPath(index, e, path), ElementFits(all, before, e))
    decreases e
  {
    if e.At? {
      var step, slot := Index(index), IndexSlot(index);
      var outcome := Run(TRACES, APART, all, bound, v + [slot], e.pattern);
      var paths := Paths(e.pattern, path + [step]);
      RunTraced(all, bound, before, v + [slot], e.pattern, path + [step]);
      assert RunElement(TRACES, APART, all, bound, v, index, e) == outcome && ElementPath(index, e, path) == paths;
      assert ElementFits(all, before, e) <==> KeysFit(all, before, e.pattern);
      hide *;
      FieldIsTraced(bound, before, v, path, step, slot, NamesOf(e.pattern), outcome, paths,
        KeysFit(all, before, e.pattern), true);
    } else {
      NothingTraced(bound, before, v, path);
    }
  }

  // ---- values that cannot be iterated

  /** Nothing stops destructuring before an array pattern does. */
  lemma {:induction false} StopsAtArrays(s: Scope, all: set<string>, bound: seq<(string, Trace)>, v: Trace, p: Pattern)
    ensures var outcome := Run(UNITERABLE, s, all, bound, v, p);
            !outcome.Defaulted? && !outcome.NoMembers? && (outcome.Done? ==> NoArrays(p))
    decreases p
  {
    match p
    case Bind(_) =>
    case Default(left) => StopsAtArrays(s, all, bound, v, left);
    case ObjectOf(properties) => FieldsStopAtArrays(s, all, bound, v, properties);
    case ArrayOf(_) =>
    case OtherTarget =>
  }

  lemma {:induction false} FieldsStopAtArrays(
      s: Scope, all: set<string>, bound: seq<(string, Trace)>, v: Trace, ps: seq<Property>)
    ensures var outcome := RunFields(UNITERABLE, s, all, bound, v, ps);
            !outcome.Defaulted? && !outcome.NoMembers? &&
            (outcome.Done? ==> forall i :: 0 <= i < |ps| ==> ps[i].Field? ==> NoArrays(ps[i].value))
    decreases ps
  {
    if ps != [] {
      var n := |ps| - 1;
      FieldsStopAtArrays(s, all, bound, v, ps[..n]);
      var first := RunFields(UNITERABLE, s, all, bound, v, ps[..n]);
      if first.Done? && ps[n].Field? {
        var slot := KeySlot(UNITERABLE, s, all, first.bound, ps[n].key);
        if slot.Some? {
          assert ps[n].value < ps[n];
          StopsAtArrays(s, all, first.bound, UNITERABLE.get(v, slot.value), ps[n].value);
        }
      }
      assert ps == ps[..n] + [ps[n]];
    }
  }

  // ---- which patterns are read right

  /** The paths are right for every value whose arrays are iterated as they are indexed. */
  ghost predicate RightWhenIndexed(p: Pattern) {
    forall m: Values<Trace>, s: Scope, v: Trace :: Indexed(m, s, NamesOf(p), [], v, p) ==> RightAt(m, s, v, p)
  }

  /** The paths are right for every value. */
  ghost predicate RightAlways(p: Pattern) { forall m: Values<Trace>, s: Scope, v: Trace :: RightAt(m, s, v, p) }

  /**
   * The paths of a supported pattern are right, for values whose arrays are
   * iterated as they are indexed, exactly when every key fits: no name is bound
   * below a key that is an expression, a literal printed as another property, or
   * a name the pattern binds before, and no key is a name it binds only later.
   * They are right for all values exactly when there is no array pattern either.
   */
  lemma PathsAreRightExactly<V(!new)>(m: Values<V>, s: Scope, v: V, p: Pattern)
    requires Supported(p)
    ensures RightWhenIndexed(p) <==> KeysFit(NamesOf(p), {}, p)
    ensures RightAlways(p) <==> KeysFit(NamesOf(p), {}, p) && NoArrays(p)
    ensures RightWhenIndexed(p) && Indexed(m, s, NamesOf(p), [], v, p) ==> RightAt(m, s, v, p)
    ensures RightAlways(p) ==> RightAt(m, s, v, p)
  {
    if KeysFit(NamesOf(p), {}, p) {
      RightWhereKeysFit(m, s, v, p);
      forall m: Values<Trace>, s: Scope, v: Trace
        ensures Indexed(m, s, NamesOf(p), [], v, p) ==> RightAt(m, s, v, p)
        ensures NoArrays(p) ==> RightAt(m, s, v, p)
      {
        RightWhereKeysFit(m, s, v, p);
      }
      if !NoArrays(p) {
        StopsAtArrays(APART, NamesOf(p), [], [], p);
        assert !RightAt(UNITERABLE, APART, [], p);
      }
    } else {
      MisreadsTraces(p);
    }
  }

  lemma RightWhereKeysFit<V(!new)>(m: Values<V>, s: Scope, v: V, p: Pattern)
    requires Supported(p) && KeysFit(NamesOf(p), {}, p)
    ensures Indexed(m, s, NamesOf(p), [], v, p) || NoArrays(p) ==> RightAt(m, s, v, p)
  {
    if NoArrays(p) {
      FitIsIndexed(m, s, NamesOf(p), [], v, p);
    }
    if Indexed(m, s, NamesOf(p), [], v, p) {
      PathsReadBindings(m, s, v, p);
    }
  }

  lemma MisreadsTraces(p: Pattern)
    requires Supported(p) && !KeysFit(NamesOf(p), {}, p)
    ensures Indexed(TRACES, APART, NamesOf(p), [], [], p) && !RightAt(TRACES, APART, [], p)
  {
    var nothing: seq<(string, Trace)> := [];
    var start: Trace := [];
    assert forall x: string :: LastBound(nothing, x) == None;
    RunTraced(NamesOf(p), nothing, {}, start, p, []);
    assert forall v: Trace :: AsIndexed(TRACES, v);
    FitIsIndexed(TRACES, APART, NamesOf(p), nothing, start, p);
  }

  function SameName(): Pattern { ObjectOf([Field(PlainKey("a"), Bind("a")), Field(ComputedName("a"), Bind("b"))]) }

  lemma SameNameRuns<V>(m: Values<V>, s: Scope, v: V)
    requires !m.bare(v)
    ensures Run(m, s, {"a", "b"}, [], v, SameName())
         == Done([("a", m.get(v, "a")), ("b", m.get(v, m.text(m.get(v, "a"))))])
  {
    var a, b := Field(PlainKey("a"), Bind("a")), Field(ComputedName("a"), Bind("b"));
    var ps, all := [a, b], {"a", "b"};
    assert ps[..1] == [a] && ps[..1][..0] == [];
    var nothing: seq<(string, V)> := [];
    var first := [("a", m.get(v, "a"))];
    assert nothing + first == first && first[..0] == [];
    assert RunFields(m, s, all, nothing, v, ps[..1][..0]) == Done(nothing);
    assert RunField(m, s, all, nothing, v, a) == Done(first);
    assert RunFields(m, s, all, nothing, v, ps[..1]) == Done(first);
    assert LastBound(first, "a") == Some(m.get(v, "a"));
  }

  lemma SameNamePaths()
    ensures Paths(SameName(), []) == [Destructured("a", [Dot("a")]), Destructured("b", [ByName("a")])]
    ensures NamesOf(SameName()) == {"a", "b"} && Supported(SameName()) && !KeysFit({"a", "b"}, {}, SameName())
  {
    var a, b := Field(PlainKey("a"), Bind("a")), Field(ComputedName("a"), Bind("b"));
    var ps := [a, b];
    assert ps[..1] == [a] && ps[..1][..0] == [];
    assert [] + [Dot("a")] == [Dot("a")] && [] + [ByName("a")] == [ByName("a")];
    assert FieldPath(a, []) == [Destructured("a", [Dot("a")])] &&
      FieldPath(b, []) == [Destructured("b", [ByName("a")])];
    assert FieldPaths(ps[..1], []) == FieldPath(a, []);
    assert NamesInFields(ps[..1]) == {"a"} && NamesOf(b.value) == {"b"};
    FieldsFitInTurn({"a", "b"}, {}, ps);
  }

  /** `{ a, [a]: b }`: `b` is the member named by what `a` was bound to, and is read through an outer `a`. */
  lemma BoundKeyMisread<V>(m: Values<V>, s: Scope, v: V)
    requires !m.bare(v)
    ensures Supported(SameName()) && !KeysFit(NamesOf(SameName()), {}, SameName())
    ensures Run(m, s, NamesOf(SameName()), [], v, SameName())
         == Done([("a", m.get(v, "a")), ("b", m.get(v, m.text(m.get(v, "a"))))])
    ensures ReadAll(m, s, v, Paths(SameName(), [])) == [("a", m.get(v, "a")), ("b", m.get(v, s.Name("a")))]
  {
    SameNamePaths();
    SameNameRuns(m, s, v);
    ReadOneMore(m, s, v, [], Dot("a"));
    ReadOneMore(m, s, v, [], ByName("a"));
    assert [] + [Dot("a")] == [Dot("a")] && [] + [ByName("a")] == [ByName("a")];
  }

  /** A pattern of one property with one name below it. */
  lemma OneField<V>(m: Values<V>, s: Scope, v: V, key: Key, slot: Slot, name: string)
    requires !m.bare(v) && KeySlot(m, s, {name}, [], key) == Some(slot)
    ensures var p := ObjectOf([Field(key, Bind(name))]);
            Supported(p) && NamesOf(p) == {name} &&
            Run(m, s, {name}, [], v, p) == Done([(name, m.get(v, slot))]) &&
            ReadAll(m, s, v, Paths(p, [])) == [(name, m.get(v, StepSlot(s, StepOf(key))))] &&
            (KeysFit({name}, {}, p) <==> KeyFits({name}, {}, key, {name}))
  {
    var field := Field(key, Bind(name));
    var ps, p := [field], ObjectOf([field]);
    assert ps[..0] == [];
    FieldsInTurn(m, s, {name}, [], v, ps, []);
    FieldsFitInTurn({name}, {}, ps);
    var nothing: seq<(string, V)> := [];
    assert nothing + [(name, m.get(v, slot))] == [(name, m.get(v, slot))];
    assert [] + [StepOf(key)] == [StepOf(key)];
    assert FieldPath(field, []) == [Destructured(name, [StepOf(key)])];
    assert Paths(p, []) == [Destructured(name, [StepOf(key)])];
    ReadOneMore(m, s, v, [], StepOf(key));
  }

  /** `{ [0]: x }`: the member named by the key is read through `[undefined]`. */
  lemma OtherKeyMisread<V>(m: Values<V>, s: Scope, v: V, id: nat)
    requires !m.bare(v)
    ensures var p := ObjectOf([Field(OtherKey(id), Bind("x"))]);
            Supported(p) && !KeysFit(NamesOf(p), {}, p) &&
            Run(m, s, NamesOf(p), [], v, p) == Done([("x", m.get(v, s.Other(id)))]) &&
            ReadAll(m, s, v, Paths(p, [])) == [("x", m.get(v, s.Name("undefined")))]
  {
    OneField(m, s, v, OtherKey(id), s.Other(id), "x");
  }

  /** `{ 1e999: x }`: the literal names the property `Infinity` and is printed as `null`. */
  lemma OverflowKeyMisread<V>(m: Values<V>, s: Scope, v: V)
    requires !m.bare(v)
    ensures var p := ObjectOf([Field(LiteralKey("Infinity", "null"), Bind("x"))]);
            Supported(p) && !KeysFit(NamesOf(p), {}, p) &&
            Run(m, s, NamesOf(p), [], v, p) == Done([("x", m.get(v, "Infinity"))]) &&
            ReadAll(m, s, v, Paths(p, [])) == [("x", m.get(v, "null"))]
  {
    OneField(m, s, v, LiteralKey("Infinity", "null"), "Infinity", "x");
  }

  // ---- arrays

  /**
   * `[a]`: `a` is what iterating gives first, and is read as the member `0`; what
   * cannot be iterated is read all the same.
   */
  lemma ArrayIsIterated<V>(m: Values<V>, s: Scope, v: V)
    requires !m.bare(v)
    ensures var p := ArrayOf([At(Bind("a"))]);
            Supported(p) && KeysFit(NamesOf(p), {}, p) && !NoArrays(p) &&
            Run(m, s, NamesOf(p), [], v, p) == (if m.iterable(v) then Done([("a", m.item(v, 0))]) else NotIterable) &&
            ReadAll(m, s, v, Paths(p, [])) == [("a", m.get(v, "0"))]
  {
    var element := At(Bind("a"));
    var es, p := [element], ArrayOf([element]);
    assert es[..0] == [];
    ElementsInTurn(m, s, NamesOf(p), [], v, es, []);
    ElementsFitInTurn(NamesOf(p), {}, es);
    var nothing: seq<(string, V)> := [];
    assert nothing + [("a", m.item(v, 0))] == [("a", m.item(v, 0))];
    assert [] + [Index(0)] == [Index(0)];
    assert ElementPath(0, element, []) == [Destructured("a", [Index(0)])];
    assert Paths(p, []) == [Destructured("a", [Index(0)])];
    ReadOneMore(m, s, v, [], Index(0));
  }

  /** Strings, and `undefined`: the members read here are code units, and iterating gives characters. */
  const STRINGS: Values<Option<Text>> := Values(
    (v: Option<Text>, slot: Slot) => if v.Some? then UnitAt(v.value, slot, 0) else None,
    (v: Option<Text>) => v.None?, (v: Option<Text>) => v.None?, (v: Option<Text>) => "",
    (v: Option<Text>) => v.Some?,
    (v: Option<Text>, i: nat) => if v.Some? then CharacterAt(v.value, i) else None)

  /** The code unit, from the `i`th on, whose index is written `slot`. */
  function UnitAt(text: Text, slot: Slot, i: nat): Option<Text>
    decreases |text| - i
  {
    if i >= |text| then None
    else if IndexSlot(i) == slot then Some([text[i]])
    else UnitAt(text, slot, i + 1)
  }

  function CharacterAt(text: Text, i: nat): Option<Text> {
    var points := Points(text);
    if i < |points| then Some(EncodePoint(points[i])) else None
  }

  /** `[a]` of a string that begins with a character of two units binds the character and reads its first half. */
  lemma CharacterMisread(s: Scope, point: nat, rest: Text)
    requires Scalar(point) && point >= 0x1_0000
    ensures var p, v := ArrayOf([At(Bind("a"))]), Some(EncodePoint(point) + rest);
            Run(STRINGS, s, NamesOf(p), [], v, p) == Done([("a", Some(EncodePoint(point)))]) &&
            ReadAll(STRINGS, s, v, Paths(p, [])) == [("a", Some([EncodePoint(point)[0]]))] &&
            !RightAt(STRINGS, s, v, p)
  {
    var text := EncodePoint(point) + rest;
    ArrayIsIterated(STRINGS, s, Some(text));
    EncodePointPair(point);
    assert Points(text)[0] == point;
  }
}
